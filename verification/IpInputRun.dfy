/** Whole runs of the input side on the heap: the producers of the IP input queue, and the protocols that take
    from the queues, in any order (net/if_ethersubr.c, net/if_loop.c, net/if_sl.c). */
module IpInputRun {
  import opened Bytes
  import opened Mbufs
  import opened SlipCodec
  import opened SlipLine
  import opened IpInput
  import SlipRun
  import VjCode

  datatype Call =
    | EtherInput(up: bool, dhost: seq<byte>, etype: VjCode.u16, m: Mbuf)
    | LoOutput(m: Mbuf, family: nat, rt: Option<Route>, ifp: nat)
    | SlInput(c: int, carrier: bool)
    | NextIp
    | NextArp
  {
    predicate Valid() {
      match this
      case EtherInput(_, dhost, _, _) => |dhost| == 6
      case SlInput(c, _) => -0x8000_0000 <= c < 0x8000_0000
      case _ => true
    }

    /** The packet handed in by the caller. */
    function Packet(): set<Mbuf> {
      if EtherInput? || LoOutput? then {m} else {}
    }

    /** What the call tells the serial line. */
    function Heard(): seq<Char>
      requires Valid()
    {
      if SlInput? then [Classify(c, carrier)] else []
    }
  }

  predicate AllValid(cs: seq<Call>) {
    forall c <- cs :: c.Valid()
  }

  function Packets(cs: seq<Call>): set<Mbuf> {
    if cs == [] then {} else cs[0].Packet() + Packets(cs[1..])
  }

  /** Each packet is handed in once. */
  predicate Once(cs: seq<Call>) {
    cs != [] ==> cs[0].Packet() !! Packets(cs[1..]) && Once(cs[1..])
  }

  function Heard(cs: seq<Call>): seq<Char>
    requires AllValid(cs)
  {
    if cs == [] then [] else cs[0].Heard() + Heard(cs[1..])
  }

  /** What one call does to the packets, when slinput makes these of what it has received. */
  function EventsOf(c: Call, got: seq<Mbuf>): seq<Event> {
    match c
    case EtherInput(up, _, etype, m) => [Ether(m, up, etype)]
    case LoOutput(m, family, rt, _) => [Loop(m, family, rt)]
    case SlInput(_, _) => if got == [] then [] else [Slip(got[0])]
    case NextIp => [TakeIp]
    case NextArp => [TakeArp]
  }

  /** What the calls do, when slinput, in state s at first, makes these packets. */
  function Events(form: Form, s: Rx, cs: seq<Call>, got: seq<Mbuf>): seq<Event>
    requires AllValid(cs)
    decreases |cs|
  {
    if cs == [] then []
    else
      var k := Min(|Delivered(form, s, cs[0].Heard())|, |got|);
      EventsOf(cs[0], got[..k]) + Events(form, Run(form, s, cs[0].Heard()), cs[1..], got[k..])
  }

  /** The packets still to be handed in are chains of these mbufs. */
  ghost predicate Chained(P: set<Mbuf>, chains: map<Mbuf, seq<Mbuf>>, R: set<Mbuf>)
    reads R`next
  {
    forall m <- P :: m in chains && (forall n <- chains[m] :: n in R) && Linked(m, chains[m])
  }

  /** They are not queued. */
  ghost predicate Waiting(q: Inputs, P: set<Mbuf>)
    reads q.ipintrq, q.arpintrq, q.ipintrq.contents`nextpkt, q.arpintrq.contents`nextpkt
  {
    q.Ready() && forall m <- P :: q.NotQueued(m)
  }

  /** A call of ether_input or looutput, or of a protocol that takes a packet. */
  method DoOther(form: Form, q: Inputs, c: Call, ghost P: set<Mbuf>, ghost chains: map<Mbuf, seq<Mbuf>>,
                 ghost R: set<Mbuf>)
    requires c.Valid() && !c.SlInput? && Waiting(q, P) && Chained(P, chains, R) && c.Packet() <= P
    modifies q, q.ipintrq, q.arpintrq, q.ipintrq.contents`nextpkt, q.arpintrq.contents`nextpkt, q.log,
             P`nextpkt, P`bcast, P`mcast, P`rcvif
    ensures q.Ready() && q.State() == Next(form, old(q.State()), EventsOf(c, [])[0])
  {
    match c {
      case EtherInput(up, dhost, etype, m) =>
        q.EtherInput(form, up, dhost, etype, m, chains[m]);
      case LoOutput(m, family, rt, ifp) =>
        var errno := q.LoOutput(m, family, rt, ifp, chains[m]);
      case NextIp =>
        var m := q.NextIp();
      case NextArp =>
        var m := q.NextArp();
    }
  }

  /** A call of slinput. */
  method DoSlip(form: Form, q: Inputs, rx: Receiver, c: Call) returns (ghost got: seq<Mbuf>)
    requires c.Valid() && c.SlInput? && rx.Valid() && q.Ready()
    requires Stays(form, Handed(rx.Rx(), Classify(c.c, c.carrier)))
    modifies q, rx, rx.mem, q.ipintrq, q.ipintrq.contents`nextpkt, q.log
    ensures rx.Valid() && rx.mem == old(rx.mem) && rx.Rx() == Step(form, old(rx.Rx()), Classify(c.c, c.carrier))
    ensures SlipRun.Are(got, Handed(old(rx.Rx()), Classify(c.c, c.carrier)))
    ensures forall i :: 0 <= i < |got| ==> fresh(got[i])
    ensures q.Ready() && q.State() == if got == [] then old(q.State()) else Next(form, old(q.State()), Slip(got[0]))
  {
    ghost var m := q.SlInput(form, rx, c.c, c.carrier);
    got := Just(m);
  }

  lemma HeardOne(form: Form, s: Rx, c: Call)
    requires c.Valid()
    ensures c.SlInput? ==> Run(form, s, c.Heard()) == Step(form, s, Classify(c.c, c.carrier))
                           && Delivered(form, s, c.Heard()) == Handed(s, Classify(c.c, c.carrier))
    ensures !c.SlInput? ==> Run(form, s, c.Heard()) == s && Delivered(form, s, c.Heard()) == []
  {
    if c.SlInput? {
      assert [Classify(c.c, c.carrier)][1..] == [];
      assert Handed(s, Classify(c.c, c.carrier)) + [] == Handed(s, Classify(c.c, c.carrier));
    }
  }

  lemma AfterOne(form: Form, s: Net, e: Event)
    ensures After(form, s, [e]) == Next(form, s, e)
  {
    assert [e][1..] == [];
  }

  /** What the call makes of the queues, as events. */
  lemma DoneOther(form: Form, s: Net, c: Call)
    requires !c.SlInput?
    ensures After(form, s, EventsOf(c, [])) == Next(form, s, EventsOf(c, [])[0])
  {
    AfterOne(form, s, EventsOf(c, [])[0]);
  }

  lemma DoneSlip(form: Form, s: Net, c: Call, got: seq<Mbuf>)
    requires c.SlInput?
    ensures After(form, s, EventsOf(c, got)) == if got == [] then s else Next(form, s, Slip(got[0]))
  {
    if got != [] {
      AfterOne(form, s, Slip(got[0]));
    }
  }

  predicate Queued(s: Net, m: Mbuf) {
    m in s.ip.contents || m in s.arp.contents
  }

  /** Only the packet an event hands in can be queued by it. */
  lemma {:induction false} QueuedBefore(form: Form, s: Net, es: seq<Event>, m: Mbuf)
    requires Queued(After(form, s, es), m)
    ensures Queued(s, m) || m in GivenAll(es)
    decreases |es|
  {
    if es == [] {
    } else {
      QueuedBefore(form, Next(form, s, es[0]), es[1..], m);
    }
  }

  /** One call. */
  method Do(form: Form, q: Inputs, rx: Receiver, c: Call, ghost P: set<Mbuf>, ghost chains: map<Mbuf, seq<Mbuf>>,
            ghost R: set<Mbuf>)
      returns (ghost got: seq<Mbuf>)
    requires c.Valid() && rx.Valid() && Waiting(q, P) && Chained(P, chains, R) && c.Packet() <= P
    requires Stays(form, Delivered(form, rx.Rx(), c.Heard()))
    modifies q, q.ipintrq, q.arpintrq, q.ipintrq.contents`nextpkt, q.arpintrq.contents`nextpkt, q.log,
             P`nextpkt, P`bcast, P`mcast, P`rcvif, rx, rx.mem
    ensures rx.Valid() && rx.mem == old(rx.mem) && rx.Rx() == Run(form, old(rx.Rx()), c.Heard())
    ensures SlipRun.Are(got, Delivered(form, old(rx.Rx()), c.Heard()))
    ensures forall i :: 0 <= i < |got| ==> fresh(got[i])
    ensures q.Ready() && q.State() == After(form, old(q.State()), EventsOf(c, got))
  {
    HeardOne(form, rx.Rx(), c);
    ghost var s := q.State();
    got := [];
    if c.SlInput? {
      got := DoSlip(form, q, rx, c);
      DoneSlip(form, s, c, got);
    } else {
      DoOther(form, q, c, P, chains, R);
      DoneOther(form, s, c);
    }
  }

  lemma GivenByCall(c: Call, got: seq<Mbuf>, m: Mbuf)
    requires m in GivenAll(EventsOf(c, got))
    ensures m in c.Packet() || m in got
  {
    var es := EventsOf(c, got);
    assert es[1..] == [] && GivenAll(es) == Given(es[0]) + [];
  }

  /** What is queued after a call was queued before it, or came with it. */
  lemma QueuedAfterCall(form: Form, s: Net, c: Call, got: seq<Mbuf>)
    ensures forall m :: Queued(After(form, s, EventsOf(c, got)), m) ==> Queued(s, m) || m in c.Packet() || m in got
  {
    forall m | Queued(After(form, s, EventsOf(c, got)), m)
      ensures Queued(s, m) || m in c.Packet() || m in got
    {
      QueuedBefore(form, s, EventsOf(c, got), m);
      if !Queued(s, m) {
        GivenByCall(c, got, m);
      }
    }
  }

  lemma HeardMore(form: Form, s: Rx, cs: seq<Call>)
    requires AllValid(cs) && cs != []
    ensures var t := Run(form, s, cs[0].Heard());
            && Run(form, s, Heard(cs)) == Run(form, t, Heard(cs[1..]))
            && Delivered(form, s, Heard(cs)) == Delivered(form, s, cs[0].Heard()) + Delivered(form, t, Heard(cs[1..]))
  {
    RunAppend(form, s, cs[0].Heard(), Heard(cs[1..]));
  }

  lemma StaysBoth(form: Form, a: seq<seq<byte>>, b: seq<seq<byte>>)
    requires Stays(form, a + b)
    ensures Stays(form, a) && Stays(form, b)
  {
    assert forall p <- a :: p in a + b;
    assert forall p <- b :: p in a + b;
  }

  lemma FirstStays(form: Form, s: Rx, cs: seq<Call>)
    requires AllValid(cs) && cs != [] && Stays(form, Delivered(form, s, Heard(cs)))
    ensures Stays(form, Delivered(form, s, cs[0].Heard()))
  {
    HeardMore(form, s, cs);
    StaysBoth(form, Delivered(form, s, cs[0].Heard()), Delivered(form, Run(form, s, cs[0].Heard()), Heard(cs[1..])));
  }

  /** The mbufs that are queued. */
  ghost function Queue(q: Inputs): set<Mbuf>
    reads q.ipintrq`contents, q.arpintrq`contents
  {
    (set m | m in q.ipintrq.contents) + (set m | m in q.arpintrq.contents)
  }

  /** One call, with more to come. */
  method DoFirst(form: Form, q: Inputs, rx: Receiver, cs: seq<Call>, ghost chains: map<Mbuf, seq<Mbuf>>,
                 ghost R: set<Mbuf>)
      returns (ghost got: seq<Mbuf>)
    requires cs != [] && AllValid(cs) && Once(cs) && Chained(Packets(cs), chains, R)
    requires rx.Valid() && Waiting(q, Packets(cs))
    requires Stays(form, Delivered(form, rx.Rx(), Heard(cs)))
    modifies q, q.ipintrq, q.arpintrq, Queue(q)`nextpkt, q.log,
             Packets(cs)`nextpkt, Packets(cs)`bcast, Packets(cs)`mcast, Packets(cs)`rcvif, rx, rx.mem
    ensures rx.Valid() && rx.mem == old(rx.mem) && rx.Rx() == Run(form, old(rx.Rx()), cs[0].Heard())
    ensures SlipRun.Are(got, Delivered(form, old(rx.Rx()), cs[0].Heard()))
    ensures forall i :: 0 <= i < |got| ==> fresh(got[i])
    ensures q.State() == After(form, old(q.State()), EventsOf(cs[0], got))
    ensures Waiting(q, Packets(cs[1..]))
    ensures forall m <- Queue(q) :: m in old(Queue(q)) || m in Packets(cs) || fresh(m)
  {
    ghost var s := q.State();
    FirstStays(form, rx.Rx(), cs);
    got := Do(form, q, rx, cs[0], Packets(cs), chains, R);
    QueuedAfterCall(form, s, cs[0], got);
    forall m | m in Packets(cs[1..])
      ensures q.NotQueued(m)
    {
      assert !Queued(s, m);
      assert !Queued(q.State(), m);
    }
    forall m | m in Queue(q)
      ensures m in old(Queue(q)) || m in Packets(cs) || fresh(m)
    {
      assert Queued(q.State(), m);
    }
  }

  lemma {:induction false} AfterAppend(form: Form, s: Net, a: seq<Event>, b: seq<Event>)
    ensures After(form, s, a + b) == After(form, After(form, s, a), b)
    decreases |a|
  {
    if a == [] {
      NoPart(b);
    } else {
      TailOfAppend(a, b);
      AfterAppend(form, Next(form, s, a[0]), a[1..], b);
    }
  }

  /** The events of the first call, and of the others. */
  lemma EventsMore(form: Form, s: Rx, cs: seq<Call>, first: seq<Mbuf>, rest: seq<Mbuf>)
    requires AllValid(cs) && cs != [] && |first| == |Delivered(form, s, cs[0].Heard())|
    ensures Events(form, s, cs, first + rest)
            == EventsOf(cs[0], first) + Events(form, Run(form, s, cs[0].Heard()), cs[1..], rest)
  {
    assert (first + rest)[..|first|] == first && (first + rest)[|first|..] == rest;
  }

  /** The calls have taken the line from s to s', and the packets from t to t'. */
  predicate Ran(form: Form, s: Rx, t: Net, cs: seq<Call>, got: seq<Mbuf>, s': Rx, t': Net)
    requires AllValid(cs)
  {
    s' == Run(form, s, Heard(cs)) && t' == After(form, t, Events(form, s, cs, got))
  }

  lemma RanMore(form: Form, s: Rx, t: Net, cs: seq<Call>, first: seq<Mbuf>, rest: seq<Mbuf>, s': Rx, t': Net)
    requires AllValid(cs) && cs != [] && |first| == |Delivered(form, s, cs[0].Heard())|
    requires Ran(form, Run(form, s, cs[0].Heard()), After(form, t, EventsOf(cs[0], first)), cs[1..], rest, s', t')
    ensures Ran(form, s, t, cs, first + rest, s', t')
  {
    HeardMore(form, s, cs);
    EventsMore(form, s, cs, first, rest);
    AfterAppend(form, t, EventsOf(cs[0], first), Events(form, Run(form, s, cs[0].Heard()), cs[1..], rest));
  }

  /** All calls, while packets made before keep what they hold. */
  method DoKeeping(form: Form, q: Inputs, rx: Receiver, cs: seq<Call>, ghost chains: map<Mbuf, seq<Mbuf>>,
                   ghost R: set<Mbuf>, ghost first: seq<Mbuf>, ghost ps: seq<seq<byte>>)
      returns (ghost rest: seq<Mbuf>)
    requires AllValid(cs) && Once(cs) && rx.Valid() && Waiting(q, Packets(cs)) && Chained(Packets(cs), chains, R)
    requires Stays(form, Delivered(form, rx.Rx(), Heard(cs))) && SlipRun.Are(first, ps)
    modifies q, q.ipintrq, q.arpintrq, Queue(q)`nextpkt, q.log,
             Packets(cs)`nextpkt, Packets(cs)`bcast, Packets(cs)`mcast, Packets(cs)`rcvif, rx, rx.mem
    ensures q.Ready() && rx.Valid() && Ran(form, old(rx.Rx()), old(q.State()), cs, rest, rx.Rx(), q.State())
    ensures SlipRun.Are(first, ps) && SlipRun.Are(rest, Delivered(form, old(rx.Rx()), Heard(cs)))
    decreases |cs|, 2
  {
    rest := DoAll(form, q, rx, cs, chains, R);
  }

  /** The calls after the first, which made the packets `first`. */
  method DoRest(form: Form, q: Inputs, rx: Receiver, cs: seq<Call>, ghost chains: map<Mbuf, seq<Mbuf>>,
                ghost R: set<Mbuf>, ghost first: seq<Mbuf>, ghost s: Rx, ghost t: Net)
      returns (ghost rest: seq<Mbuf>)
    requires AllValid(cs) && cs != [] && Once(cs) && Chained(Packets(cs), chains, R)
    requires rx.Valid() && Waiting(q, Packets(cs[1..])) && Stays(form, Delivered(form, s, Heard(cs)))
    requires rx.Rx() == Run(form, s, cs[0].Heard()) && q.State() == After(form, t, EventsOf(cs[0], first))
    requires SlipRun.Are(first, Delivered(form, s, cs[0].Heard()))
    modifies q, q.ipintrq, q.arpintrq, Queue(q)`nextpkt, q.log,
             Packets(cs[1..])`nextpkt, Packets(cs[1..])`bcast, Packets(cs[1..])`mcast, Packets(cs[1..])`rcvif,
             rx, rx.mem
    ensures q.Ready() && rx.Valid() && Ran(form, s, t, cs, first + rest, rx.Rx(), q.State())
    ensures SlipRun.Are(first + rest, Delivered(form, s, Heard(cs)))
    decreases |cs|, 0
  {
    HeardMore(form, s, cs);
    ghost var ps, qs := Delivered(form, s, cs[0].Heard()), Delivered(form, rx.Rx(), Heard(cs[1..]));
    StaysBoth(form, ps, qs);
    rest := DoKeeping(form, q, rx, cs[1..], chains, R, first, ps);
    RanMore(form, s, t, cs, first, rest, rx.Rx(), q.State());
    SlipRun.AreBoth(first, ps, rest, qs);
  }

  method DoAll(form: Form, q: Inputs, rx: Receiver, cs: seq<Call>, ghost chains: map<Mbuf, seq<Mbuf>>,
               ghost R: set<Mbuf>)
      returns (ghost got: seq<Mbuf>)
    requires AllValid(cs) && Once(cs) && rx.Valid() && Waiting(q, Packets(cs)) && Chained(Packets(cs), chains, R)
    requires Stays(form, Delivered(form, rx.Rx(), Heard(cs)))
    modifies q, q.ipintrq, q.arpintrq, Queue(q)`nextpkt, q.log,
             Packets(cs)`nextpkt, Packets(cs)`bcast, Packets(cs)`mcast, Packets(cs)`rcvif, rx, rx.mem
    ensures q.Ready() && rx.Valid() && Ran(form, old(rx.Rx()), old(q.State()), cs, got, rx.Rx(), q.State())
    ensures SlipRun.Are(got, Delivered(form, old(rx.Rx()), Heard(cs)))
    decreases |cs|, 1
  {
    got := [];
    if cs != [] {
      ghost var s, t := rx.Rx(), q.State();
      ghost var first := DoFirst(form, q, rx, cs, chains, R);
      ghost var rest := DoRest(form, q, rx, cs, chains, R, first, s, t);
      got := first + rest;
    }
  }

  /** Any run of calls of ether_input, looutput, slinput and the protocols, in any order, is a run of events, in
      which slinput hands in just the packets that the state machine of the line delivers; and each packet handed
      in ends in exactly one place. */
  method RunCalls(form: Form, q: Inputs, rx: Receiver, cs: seq<Call>, ghost chains: map<Mbuf, seq<Mbuf>>,
                  ghost R: set<Mbuf>)
      returns (ghost got: seq<Mbuf>, ghost es: seq<Event>)
    requires AllValid(cs) && Once(cs) && rx.Valid() && Waiting(q, Packets(cs)) && Chained(Packets(cs), chains, R)
    requires Stays(form, Delivered(form, rx.Rx(), Heard(cs)))
    modifies q, q.ipintrq, q.arpintrq, Queue(q)`nextpkt, q.log,
             Packets(cs)`nextpkt, Packets(cs)`bcast, Packets(cs)`mcast, Packets(cs)`rcvif, rx, rx.mem
    ensures q.Ready() && rx.Valid() && rx.Rx() == Run(form, old(rx.Rx()), Heard(cs))
    ensures SlipRun.Are(got, Delivered(form, old(rx.Rx()), Heard(cs))) && es == Events(form, old(rx.Rx()), cs, got)
    ensures q.State() == After(form, old(q.State()), es)
    ensures Everything(q.State()) == Everything(old(q.State())) + multiset(GivenAll(es))
  {
    ghost var s, t := rx.Rx(), q.State();
    got := DoAll(form, q, rx, cs, chains, R);
    es := Events(form, s, cs, got);
    RunConserves(form, t, es);
  }
}
