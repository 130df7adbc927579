/** The producers of the IP input queue and packet conservation on it: ether_input
    (net/if_ethersubr.c), looutput (net/if_loop.c) and the end of slinput (net/if_sl.c). */
module IpInput {
  import opened Bytes
  import opened Mbufs
  import opened MbufFree
  import opened Ifqueues
  import opened IfOffer
  import opened SlipCodec
  import opened SlipLine
  import VjCode

  const ETHERTYPE_IP := 0x0800
  const ETHERTYPE_ARP := 0x0806
  const ETHERMTU := 1500
  const ETHERHDR := 14
  const ENETUNREACH := 51

  // ---------- what one packet does ----------

  datatype Q = Q(contents: seq<Mbuf>, maxlen: nat, drops: nat)

  /** The queues, and what has become of the packets that are in neither: freed, handed to the protocol,
      or forgotten. */
  datatype Net = Net(ip: Q, arp: Q, freed: seq<Mbuf>, taken: seq<Mbuf>, lost: seq<Mbuf>)

  datatype Kind = Ip | Arp | Other

  /** The switch of ether_input on the type field as it is stored, in network order. */
  function KindOf(form: Form, etype: VjCode.u16): Kind {
    var t := VjCode.Swap16(form, etype);
    if t == ETHERTYPE_IP then Ip else if t == ETHERTYPE_ARP then Arp else Other
  }

  /** The flags of a route, as looutput looks at them. */
  datatype Route = Route(reject: bool, blackhole: bool, host: bool)

  datatype Event =
    | Ether(m: Mbuf, up: bool, etype: VjCode.u16)
    | Loop(m: Mbuf, family: nat, rt: Option<Route>)
    | Slip(m: Mbuf)
    | TakeIp
    | TakeArp

  /** The packet an event hands in. */
  function Given(e: Event): seq<Mbuf> {
    if e.TakeIp? || e.TakeArp? then [] else [e.m]
  }

  predicate Full(q: Q) {
    |q.contents| >= q.maxlen
  }

  function Put(q: Q, m: Mbuf): Q {
    if Full(q) then q.(drops := q.drops + 1) else q.(contents := q.contents + [m])
  }

  function Unput(q: Q, m: Mbuf): seq<Mbuf> {
    if Full(q) then [m] else []
  }

  function OfferIp(s: Net, m: Mbuf): Net {
    s.(ip := Put(s.ip, m), freed := s.freed + Unput(s.ip, m))
  }

  function OfferArp(s: Net, m: Mbuf): Net {
    s.(arp := Put(s.arp, m), freed := s.freed + Unput(s.arp, m))
  }

  function Drop(s: Net, m: Mbuf): Net {
    s.(freed := s.freed + [m])
  }

  /** What becomes of a frame of each kind. */
  function Arrive(s: Net, m: Mbuf, kind: Kind, forget: bool): Net {
    match kind
    case Ip => OfferIp(s, m)
    case Arp => OfferArp(s, m)
    case Other => if forget then s.(lost := s.lost + [m]) else Drop(s, m)
  }

  predicate Rejects(rt: Option<Route>) {
    rt.Some? && (rt.value.reject || rt.value.blackhole)
  }

  /** As written, ether_input forgets a packet of an unknown type whose stored type field is at most
      ETHERMTU. */
  function Next(form: Form, s: Net, e: Event): Net {
    match e
    case Ether(m, up, etype) =>
      var t := s.(ip := s.ip.(maxlen := IFQ_MAXLEN));
      if up then Arrive(t, m, KindOf(form, etype), form.AsWritten? && etype <= ETHERMTU) else Drop(t, m)
    case Loop(m, family, rt) =>
      if Rejects(rt) || family != AF_INET then Drop(s, m) else OfferIp(s, m)
    case Slip(m) => OfferIp(s, m)
    case TakeIp =>
      if s.ip.contents == [] then s
      else s.(ip := s.ip.(contents := s.ip.contents[1..]), taken := s.taken + [s.ip.contents[0]])
    case TakeArp =>
      if s.arp.contents == [] then s
      else s.(arp := s.arp.(contents := s.arp.contents[1..]), taken := s.taken + [s.arp.contents[0]])
  }

  function After(form: Form, s: Net, es: seq<Event>): Net
    decreases |es|
  {
    if es == [] then s else After(form, Next(form, s, es[0]), es[1..])
  }

  // ---------- conservation over any interleaving ----------

  /** All packets: queued, handed to the protocol, freed, and forgotten. */
  function Everything(s: Net): multiset<Mbuf> {
    multiset(s.ip.contents) + multiset(s.arp.contents) + multiset(s.freed) + multiset(s.taken) + multiset(s.lost)
  }

  function GivenAll(es: seq<Event>): seq<Mbuf> {
    if es == [] then [] else Given(es[0]) + GivenAll(es[1..])
  }

  lemma PutConserves(q: Q, m: Mbuf, freed: seq<Mbuf>)
    ensures multiset(Put(q, m).contents) + multiset(freed + Unput(q, m))
         == multiset(q.contents) + multiset(freed) + multiset{m}
  {
  }

  lemma TakeConserves(q: seq<Mbuf>, taken: seq<Mbuf>)
    requires q != []
    ensures multiset(q[1..]) + multiset(taken + [q[0]]) == multiset(q) + multiset(taken)
  {
    assert q == [q[0]] + q[1..];
  }

  lemma ArriveConserves(s: Net, m: Mbuf, kind: Kind, forget: bool)
    ensures Everything(Arrive(s, m, kind, forget)) == Everything(s) + multiset{m}
  {
    PutConserves(s.ip, m, s.freed);
    PutConserves(s.arp, m, s.freed);
  }

  lemma EtherConserves(form: Form, s: Net, m: Mbuf, up: bool, etype: VjCode.u16)
    ensures Everything(Next(form, s, Ether(m, up, etype))) == Everything(s) + multiset{m}
  {
    var t := s.(ip := s.ip.(maxlen := IFQ_MAXLEN));
    assert Everything(t) == Everything(s);
    if up {
      ArriveConserves(t, m, KindOf(form, etype), form.AsWritten? && etype <= ETHERMTU);
    } else {
      ArriveConserves(t, m, Other, false);
    }
  }

  lemma LoopConserves(form: Form, s: Net, m: Mbuf, family: nat, rt: Option<Route>)
    ensures Everything(Next(form, s, Loop(m, family, rt))) == Everything(s) + multiset{m}
  {
    ArriveConserves(s, m, if Rejects(rt) || family != AF_INET then Other else Ip, false);
  }

  lemma NextIpConserves(form: Form, s: Net)
    ensures Everything(Next(form, s, TakeIp)) == Everything(s)
  {
    if s.ip.contents != [] {
      var t := Next(form, s, TakeIp);
      TakeConserves(s.ip.contents, s.taken);
      Moved(multiset(s.ip.contents), multiset(s.taken), multiset(t.ip.contents), multiset(t.taken),
            multiset(s.arp.contents), multiset(s.freed), multiset(s.lost));
    }
  }

  lemma NextArpConserves(form: Form, s: Net)
    ensures Everything(Next(form, s, TakeArp)) == Everything(s)
  {
    if s.arp.contents != [] {
      var t := Next(form, s, TakeArp);
      TakeConserves(s.arp.contents, s.taken);
      Moved(multiset(s.arp.contents), multiset(s.taken), multiset(t.arp.contents), multiset(t.taken),
            multiset(s.ip.contents), multiset(s.freed), multiset(s.lost));
    }
  }

  /** What goes from one place to another is still there. */
  lemma Moved<T>(a: multiset<T>, b: multiset<T>, a': multiset<T>, b': multiset<T>,
                 c: multiset<T>, d: multiset<T>, e: multiset<T>)
    requires a' + b' == a + b
    ensures a' + c + d + b' + e == a + c + d + b + e && c + a' + d + b' + e == c + a + d + b + e
  {
    assert a + c + d + b + e == (a + b) + (c + d + e) && a' + c + d + b' + e == (a' + b') + (c + d + e);
    assert c + a + d + b + e == (a + b) + (c + d + e) && c + a' + d + b' + e == (a' + b') + (c + d + e);
  }

  lemma GivenOne(m: Mbuf)
    ensures multiset([m]) == multiset{m}
  {
  }

  lemma HandInConserves(form: Form, s: Net, e: Event)
    requires !e.TakeIp? && !e.TakeArp?
    ensures Everything(Next(form, s, e)) == Everything(s) + multiset{e.m}
  {
    match e
    case Ether(m, up, etype) => EtherConserves(form, s, m, up, etype);
    case Loop(m, family, rt) => LoopConserves(form, s, m, family, rt);
    case Slip(m) => ArriveConserves(s, m, Ip, false);
  }

  lemma StepConserves(form: Form, s: Net, e: Event)
    ensures Everything(Next(form, s, e)) == Everything(s) + multiset(Given(e))
  {
    match e
    case TakeIp => NextIpConserves(form, s);
    case TakeArp => NextArpConserves(form, s);
    case _ =>
      HandInConserves(form, s, e);
      GivenOne(e.m);
  }

  /** Whatever the interleaving, each packet handed in is in exactly one place: queued, handed to the
      protocol, freed, or forgotten. */
  lemma {:induction false} RunConserves(form: Form, s: Net, es: seq<Event>)
    ensures Everything(After(form, s, es)) == Everything(s) + multiset(GivenAll(es))
    decreases |es|
  {
    if es == [] {
    } else {
      StepConserves(form, s, es[0]);
      RunConserves(form, Next(form, s, es[0]), es[1..]);
    }
  }

  /** The kinds by the two octets of the type field, 08 00 and 08 06, which are stored as these numbers.  As
      written, the first octet alone decides, and no frame is ARP. */
  lemma KindByOctets(form: Form, etype: VjCode.u16)
    ensures KindOf(form, etype).Ip? <==> if form.Repaired? then etype == 0x0008 else etype / 256 == 8
    ensures KindOf(form, etype).Arp? <==> form.Repaired? && etype == 0x0608
  {
    VjCode.SwapOctets(form, etype % 256, etype / 256);
  }

  predicate Forgets(e: Event) {
    e.Ether? && e.up && e.etype <= 1500 && e.etype / 256 != 8
  }

  /** No packet is forgotten: always, and as written exactly when no frame of an unknown type arrives on
      an interface that is up with a stored type field of at most ETHERMTU. */
  lemma {:induction false} NothingIsForgotten(form: Form, s: Net, es: seq<Event>)
    ensures |After(form, s, es).lost| >= |s.lost|
    ensures After(form, s, es).lost == s.lost <==> form.Repaired? || forall i :: 0 <= i < |es| ==> !Forgets(es[i])
    decreases |es|
  {
    if es == [] {
    } else {
      var t := Next(form, s, es[0]);
      if es[0].Ether? {
        KindByOctets(form, es[0].etype);
      }
      NothingIsForgotten(form, t, es[1..]);
      assert forall i :: 0 <= i < |es| - 1 ==> es[1..][i] == es[i + 1];
      if form.AsWritten? && Forgets(es[0]) {
        assert |After(form, s, es).lost| > |s.lost|;
      } else if !(form.Repaired? || forall i :: 0 <= i < |es[1..]| ==> !Forgets(es[1..][i])) {
        var i :| 0 <= i < |es[1..]| && Forgets(es[1..][i]);
        assert Forgets(es[i + 1]);
      }
    }
  }

  /** A packet that comes to this queue: the last of it when there is room, and otherwise a counted drop. */
  predicate LastOrDropped(q: Q, r: Q, m: Mbuf) {
    && r.maxlen == q.maxlen
    && (|q.contents| < q.maxlen ==> r.contents == q.contents + [m] && r.drops == q.drops)
    && (|q.contents| >= q.maxlen ==> r.contents == q.contents && r.drops == q.drops + 1)
  }

  /** What becomes of a frame, by the octets of its type field, on an interface that is up. */
  lemma FrameByType(s: Net, m: Mbuf, etype: VjCode.u16)
    ensures var t := Next(Repaired, s, Ether(m, true, etype));
            && (etype == 0x0008 ==> LastOrDropped(s.ip.(maxlen := 50), t.ip, m) && t.arp == s.arp)
            && (etype == 0x0608 ==> LastOrDropped(s.arp, t.arp, m) && t.ip == s.ip.(maxlen := 50))
            && (etype != 0x0008 && etype != 0x0608 ==>
                  t == s.(ip := s.ip.(maxlen := 50), freed := s.freed + [m]))
            && t.taken == s.taken && t.lost == s.lost
  {
    KindByOctets(Repaired, etype);
  }

  /** As written, ether_input never takes a frame for ARP. */
  lemma ArpIsNeverSeen(etype: VjCode.u16)
    ensures !KindOf(AsWritten, etype).Arp?
    ensures KindOf(AsWritten, etype).Ip? <==> VjCode.ByteOf(etype, 1) == 8
  {
  }

  /** A queue within its limit stays within it. */
  predicate Bounded(s: Net) {
    |s.ip.contents| <= s.ip.maxlen <= IFQ_MAXLEN && |s.arp.contents| <= s.arp.maxlen
  }

  lemma {:induction false} RunIsBounded(form: Form, s: Net, es: seq<Event>)
    requires Bounded(s)
    ensures Bounded(After(form, s, es))
    decreases |es|
  {
    if es == [] {
    } else {
      RunIsBounded(form, Next(form, s, es[0]), es[1..]);
    }
  }

  /** The event reaches the queue test of the IP queue: a frame with the octets 08 00, on an interface that is up;
      a packet of the family AF_INET, 2, that no route rejects; and any packet of the serial line. */
  predicate Offers(form: Form, e: Event) {
    match e
    case Ether(_, up, etype) => up && if form.Repaired? then etype == 0x0008 else etype / 256 == 8
    case Loop(_, family, rt) => family == 2 && (rt == None || !(rt.value.reject || rt.value.blackhole))
    case Slip(_) => true
    case _ => false
  }

  /** The event reaches the queue test of the ARP queue: a frame with the octets 08 06; as written, none. */
  predicate OffersArp(form: Form, e: Event) {
    e.Ether? && e.up && form.Repaired? && e.etype == 0x0608
  }

  function OfferedIp(form: Form, es: seq<Event>): nat {
    if es == [] then 0 else (if Offers(form, es[0]) then 1 else 0) + OfferedIp(form, es[1..])
  }

  function TakenIp(form: Form, s: Net, es: seq<Event>): nat
    decreases |es|
  {
    if es == [] then 0
    else (if es[0].TakeIp? && s.ip.contents != [] then 1 else 0) + TakenIp(form, Next(form, s, es[0]), es[1..])
  }

  lemma OfferedOne(form: Form, s: Net, e: Event)
    ensures var t := Next(form, s, e);
            |s.ip.contents| + s.ip.drops + (if Offers(form, e) then 1 else 0)
            == (if e.TakeIp? && s.ip.contents != [] then 1 else 0) + |t.ip.contents| + t.ip.drops
    ensures var t := Next(form, s, e);
            |s.arp.contents| + s.arp.drops + (if OffersArp(form, e) then 1 else 0)
            == (if e.TakeArp? && s.arp.contents != [] then 1 else 0) + |t.arp.contents| + t.arp.drops
  {
    if e.Ether? {
      KindByOctets(form, e.etype);
    }
  }

  /** Offered is dequeued plus queued plus dropped. */
  lemma {:induction false} OfferedIsAccountedFor(form: Form, s: Net, es: seq<Event>)
    ensures var t := After(form, s, es);
            |s.ip.contents| + s.ip.drops + OfferedIp(form, es) == TakenIp(form, s, es) + |t.ip.contents| + t.ip.drops
    decreases |es|
  {
    if es == [] {
    } else {
      OfferedOne(form, s, es[0]);
      OfferedIsAccountedFor(form, Next(form, s, es[0]), es[1..]);
    }
  }

  function OfferedArp(form: Form, es: seq<Event>): nat {
    if es == [] then 0 else (if OffersArp(form, es[0]) then 1 else 0) + OfferedArp(form, es[1..])
  }

  function TakenArp(form: Form, s: Net, es: seq<Event>): nat
    decreases |es|
  {
    if es == [] then 0
    else (if es[0].TakeArp? && s.arp.contents != [] then 1 else 0) + TakenArp(form, Next(form, s, es[0]), es[1..])
  }

  /** The same for the ARP queue. */
  lemma {:induction false} OfferedArpIsAccountedFor(form: Form, s: Net, es: seq<Event>)
    ensures var t := After(form, s, es);
            |s.arp.contents| + s.arp.drops + OfferedArp(form, es)
            == TakenArp(form, s, es) + |t.arp.contents| + t.arp.drops
    decreases |es|
  {
    if es == [] {
    } else {
      OfferedOne(form, s, es[0]);
      OfferedArpIsAccountedFor(form, Next(form, s, es[0]), es[1..]);
    }
  }

  /** ipintrq starts with a limit of zero, and only ether_input sets it: until the first Ethernet frame,
      every packet of the other producers is dropped. */
  lemma {:induction false} NothingQueuedBeforeEthernet(form: Form, s: Net, es: seq<Event>)
    requires s.ip.maxlen == 0 && s.ip.contents == [] && forall i :: 0 <= i < |es| ==> !es[i].Ether?
    ensures After(form, s, es).ip.contents == []
    decreases |es|
  {
    if es == [] {
    } else {
      NothingQueuedBeforeEthernet(form, Next(form, s, es[0]), es[1..]);
    }
  }

  // ---------- the code ----------

  /** slinput has taken this character, and `got` is the packet it made, if any. */
  twostate predicate HasHeard(form: Form, rx: Receiver, e: Char, new got: Mbuf?)
    requires old(rx.Valid())
    reads rx, rx.mem, Just(got)
  {
    && rx.Valid() && rx.mem == old(rx.mem) && rx.Rx() == Step(form, old(rx.Rx()), e)
    && (got == null) == (Handed(old(rx.Rx()), e) == [])
    && (got != null ==> fresh(got) && IsPacket(got, old(rx.Rx()).buf))
  }

  class Inputs {
    const ipintrq: Ifqueue
    const arpintrq: Ifqueue
    const log: FreeLog
    var etherIbytes: int
    var loopOpackets: nat
    var loopObytes: int
    var loopIpackets: nat
    var loopIbytes: int
    ghost var freed: seq<Mbuf>
    ghost var taken: seq<Mbuf>
    ghost var lost: seq<Mbuf>

    /** ipintrq is not initialised, arpintrq is. */
    constructor ()
      ensures Ready() && State() == Net(Q([], 0, 0), Q([], 50, 0), [], [], [])
      ensures fresh(ipintrq) && fresh(arpintrq) && fresh(log)
    {
      ipintrq := new Ifqueue(0);
      arpintrq := new Ifqueue(50);
      log := new FreeLog();
      etherIbytes, loopOpackets, loopObytes, loopIpackets, loopIbytes := 0, 0, 0, 0, 0;
      freed, taken, lost := [], [], [];
    }

    ghost predicate Ready()
      reads ipintrq, arpintrq, ipintrq.contents`nextpkt, arpintrq.contents`nextpkt
    {
      && ipintrq.Valid() && arpintrq.Valid() && ipintrq != arpintrq
      && forall i, j {:trigger ipintrq.contents[i], arpintrq.contents[j]} ::
           0 <= i < |ipintrq.contents| && 0 <= j < |arpintrq.contents| ==> ipintrq.contents[i] != arpintrq.contents[j]
    }

    ghost function State(): Net
      reads this`freed, this`taken, this`lost, ipintrq, arpintrq
    {
      Net(Q(ipintrq.contents, ipintrq.maxlen, ipintrq.drops), Q(arpintrq.contents, arpintrq.maxlen, arpintrq.drops),
          freed, taken, lost)
    }

    ghost predicate NotQueued(m: Mbuf)
      reads ipintrq`contents, arpintrq`contents
    {
      m !in ipintrq.contents && m !in arpintrq.contents
    }

    /** The queue test on ipintrq. */
    method ToIp(m: Mbuf, ghost ns: seq<Mbuf>) returns (queued: bool)
      requires Ready() && NotQueued(m) && Linked(m, ns)
      modifies this`freed, ipintrq, ipintrq.contents`nextpkt, m`nextpkt, log
      ensures Ready() && State() == OfferIp(old(State()), m) && queued == !old(ipintrq.Full())
      ensures log.freed == old(log.freed) + if queued then [] else old(Releases(Items(ns)))
    {
      queued := Offer(ipintrq, m, log, ns);
      if !queued {
        freed := freed + [m];
      }
    }

    /** The queue test on arpintrq. */
    method ToArp(m: Mbuf, ghost ns: seq<Mbuf>)
      requires Ready() && NotQueued(m) && Linked(m, ns)
      modifies this`freed, arpintrq, arpintrq.contents`nextpkt, m`nextpkt, log
      ensures Ready() && State() == OfferArp(old(State()), m)
      ensures log.freed == old(log.freed) + if old(arpintrq.Full()) then old(Releases(Items(ns))) else []
    {
      var queued := Offer(arpintrq, m, log, ns);
      if !queued {
        freed := freed + [m];
      }
    }

    method Discard(m: Mbuf, ghost ns: seq<Mbuf>)
      requires Ready() && Linked(m, ns)
      modifies this`freed, log
      ensures Ready() && State() == Drop(old(State()), m)
      ensures log.freed == old(log.freed) + old(Releases(Items(ns)))
    {
      MFreem(m, log, ns);
      freed := freed + [m];
    }

    /** ether_input */
    method EtherInput(form: Form, up: bool, dhost: seq<byte>, etype: VjCode.u16, m: Mbuf, ghost ns: seq<Mbuf>)
      requires |dhost| == 6
      requires Ready() && NotQueued(m) && Linked(m, ns)
      modifies this`freed, this`lost, this`etherIbytes, ipintrq, arpintrq,
               ipintrq.contents`nextpkt, arpintrq.contents`nextpkt, m`nextpkt, m`bcast, m`mcast, log
      ensures Ready() && State() == Next(form, old(State()), Ether(m, up, etype))
      ensures log.freed == old(log.freed) + if |freed| > |old(freed)| then old(Releases(Items(ns))) else []
      ensures m.bcast == (old(m.bcast) || (up && forall b <- dhost :: b == 0xff))
      ensures m.mcast == (old(m.mcast) || (up && dhost[0] % 2 == 1 && !(forall b <- dhost :: b == 0xff)))
      ensures etherIbytes == old(etherIbytes) + if up then m.pktlen + 14 else 0
    {
      AllOnes(dhost);
      SetLimit();
      if up {
        Frame(form, dhost, etype, m, ns);
      } else {
        Discard(m, ns);
      }
    }

    /** A frame on an interface that is up. */
    method Frame(form: Form, dhost: seq<byte>, etype: VjCode.u16, m: Mbuf, ghost ns: seq<Mbuf>)
      requires |dhost| == 6
      requires Ready() && NotQueued(m) && Linked(m, ns)
      modifies this`freed, this`lost, this`etherIbytes, ipintrq, arpintrq,
               ipintrq.contents`nextpkt, arpintrq.contents`nextpkt, m`nextpkt, m`bcast, m`mcast, log
      ensures Ready()
      ensures State() == Arrive(old(State()), m, KindOf(form, etype), form.AsWritten? && etype <= ETHERMTU)
      ensures log.freed == old(log.freed) + if |freed| > |old(freed)| then old(Releases(Items(ns))) else []
      ensures m.bcast == (old(m.bcast) || dhost == BROADCAST)
      ensures m.mcast == (old(m.mcast) || (dhost != BROADCAST && dhost[0] % 2 == 1))
      ensures etherIbytes == old(etherIbytes) + m.pktlen + ETHERHDR
    {
      Mark(m, dhost, ns);
      Switch(form, etype, m, ns);
    }

    method SetLimit()
      requires Ready()
      modifies ipintrq`maxlen
      ensures Ready() && State() == old(State()).(ip := old(State()).ip.(maxlen := IFQ_MAXLEN))
    {
      ipintrq.maxlen := IFQ_MAXLEN;
    }

    /** The bytes received, and the flags of a packet to more than one receiver. */
    method Mark(m: Mbuf, dhost: seq<byte>, ghost ns: seq<Mbuf>)
      requires |dhost| == 6 && Ready() && Linked(m, ns)
      modifies this`etherIbytes, m`bcast, m`mcast
      ensures Ready() && State() == old(State()) && Linked(m, ns) && Items(ns) == old(Items(ns))
      ensures etherIbytes == old(etherIbytes) + m.pktlen + ETHERHDR
      ensures m.bcast == (old(m.bcast) || dhost == BROADCAST)
      ensures m.mcast == (old(m.mcast) || (dhost != BROADCAST && dhost[0] % 2 == 1))
    {
      etherIbytes := etherIbytes + m.pktlen + ETHERHDR;
      if dhost == BROADCAST {
        m.bcast := true;
      } else if dhost[0] % 2 == 1 {
        m.mcast := true;
      }
    }

    /** The switch of ether_input and the queue test behind it. */
    method Switch(form: Form, etype: VjCode.u16, m: Mbuf, ghost ns: seq<Mbuf>)
      requires Ready() && NotQueued(m) && Linked(m, ns)
      modifies this`freed, this`lost, ipintrq, arpintrq,
               ipintrq.contents`nextpkt, arpintrq.contents`nextpkt, m`nextpkt, log
      ensures Ready()
      ensures State() == Arrive(old(State()), m, KindOf(form, etype), form.AsWritten? && etype <= ETHERMTU)
      ensures log.freed == old(log.freed) + if |freed| > |old(freed)| then old(Releases(Items(ns))) else []
    {
      var t := VjCode.Swap16(form, etype);
      if t == ETHERTYPE_IP {
        var queued := ToIp(m, ns);
      } else if t == ETHERTYPE_ARP {
        ToArp(m, ns);
      } else if form.Repaired? || etype > ETHERMTU {
        Discard(m, ns);
      } else {
        lost := lost + [m];
      }
    }

    /** looutput */
    method LoOutput(m: Mbuf, family: nat, rt: Option<Route>, ifp: nat, ghost ns: seq<Mbuf>) returns (errno: nat)
      requires Ready() && NotQueued(m) && Linked(m, ns)
      modifies this`freed, this`loopOpackets, this`loopObytes, this`loopIpackets, this`loopIbytes,
               ipintrq, ipintrq.contents`nextpkt, m`nextpkt, m`rcvif, log
      ensures Ready() && State() == Next(AsWritten, old(State()), Loop(m, family, rt))
      ensures log.freed == old(log.freed) + if |freed| > |old(freed)| then old(Releases(Items(ns))) else []
      ensures errno == LoopError(family, rt, old(ipintrq.Full())) && m.rcvif == ifp
      ensures var sent, queued := !Rejects(rt), !Rejects(rt) && errno == 0;
              && loopOpackets == old(loopOpackets) + (if sent then 1 else 0)
              && loopObytes == old(loopObytes) + (if sent then m.pktlen else 0)
              && loopIpackets == old(loopIpackets) + (if queued then 1 else 0)
              && loopIbytes == old(loopIbytes) + (if queued then m.pktlen else 0)
    {
      SetRcvif(m, ifp, ns);
      errno := LoRoute(m, family, rt, ns);
    }

    /** looutput behind the setting of rcvif. */
    method LoRoute(m: Mbuf, family: nat, rt: Option<Route>, ghost ns: seq<Mbuf>) returns (errno: nat)
      requires Ready() && NotQueued(m) && Linked(m, ns)
      modifies this`freed, this`loopOpackets, this`loopObytes, this`loopIpackets, this`loopIbytes,
               ipintrq, ipintrq.contents`nextpkt, m`nextpkt, log
      ensures Ready()
      ensures State() == if Rejects(rt) || family != AF_INET then Drop(old(State()), m) else OfferIp(old(State()), m)
      ensures log.freed == old(log.freed) + if |freed| > |old(freed)| then old(Releases(Items(ns))) else []
      ensures errno == LoopError(family, rt, old(ipintrq.Full()))
      ensures var sent, queued := !Rejects(rt), !Rejects(rt) && errno == 0;
              && loopOpackets == old(loopOpackets) + (if sent then 1 else 0)
              && loopObytes == old(loopObytes) + (if sent then m.pktlen else 0)
              && loopIpackets == old(loopIpackets) + (if queued then 1 else 0)
              && loopIbytes == old(loopIbytes) + (if queued then m.pktlen else 0)
    {
      if rt.Some? && (rt.value.reject || rt.value.blackhole) {
        Discard(m, ns);
        errno := if rt.value.blackhole then 0 else if rt.value.host then EHOSTUNREACH else ENETUNREACH;
      } else {
        CountSent(m, ns);
        errno := LoFamily(m, family, ns);
      }
    }

    /** Each packet that no route rejects counts as sent. */
    method CountSent(m: Mbuf, ghost ns: seq<Mbuf>)
      requires Ready() && Linked(m, ns)
      modifies this`loopOpackets, this`loopObytes
      ensures Ready() && Linked(m, ns) && Items(ns) == old(Items(ns)) && State() == old(State())
      ensures loopOpackets == old(loopOpackets) + 1 && loopObytes == old(loopObytes) + m.pktlen
    {
      loopOpackets := loopOpackets + 1;
      loopObytes := loopObytes + m.pktlen;
    }

    method SetRcvif(m: Mbuf, ifp: nat, ghost ns: seq<Mbuf>)
      requires Ready() && Linked(m, ns)
      modifies m`rcvif
      ensures m.rcvif == ifp && Ready() && Linked(m, ns) && Items(ns) == old(Items(ns))
    {
      m.rcvif := ifp;
    }

    /** The switch of looutput on the address family. */
    method LoFamily(m: Mbuf, family: nat, ghost ns: seq<Mbuf>) returns (errno: nat)
      requires Ready() && NotQueued(m) && Linked(m, ns)
      modifies this`freed, this`loopIpackets, this`loopIbytes, ipintrq, ipintrq.contents`nextpkt, m`nextpkt, log
      ensures Ready() && State() == if family == AF_INET then OfferIp(old(State()), m) else Drop(old(State()), m)
      ensures log.freed == old(log.freed) + if |freed| > |old(freed)| then old(Releases(Items(ns))) else []
      ensures errno == LoopError(family, None, old(ipintrq.Full()))
      ensures loopIpackets == old(loopIpackets) + (if errno == 0 then 1 else 0)
      ensures loopIbytes == old(loopIbytes) + (if errno == 0 then m.pktlen else 0)
    {
      if family != AF_INET {
        Discard(m, ns);
        return EAFNOSUPPORT;
      }
      errno := LoQueue(m, ns);
    }

    /** The end of looutput. */
    method LoQueue(m: Mbuf, ghost ns: seq<Mbuf>) returns (errno: nat)
      requires Ready() && NotQueued(m) && Linked(m, ns)
      modifies this`freed, this`loopIpackets, this`loopIbytes, ipintrq, ipintrq.contents`nextpkt, m`nextpkt, log
      ensures Ready() && State() == OfferIp(old(State()), m)
      ensures log.freed == old(log.freed) + if |freed| > |old(freed)| then old(Releases(Items(ns))) else []
      ensures errno == if old(ipintrq.Full()) then ENOBUFS else 0
      ensures loopIpackets == old(loopIpackets) + (if errno == 0 then 1 else 0)
      ensures loopIbytes == old(loopIbytes) + (if errno == 0 then m.pktlen else 0)
    {
      var queued := ToIp(m, ns);
      if !queued {
        return ENOBUFS;
      }
      loopIpackets := loopIpackets + 1;
      loopIbytes := loopIbytes + m.pktlen;
      return 0;
    }

    /** slinput: the packet of this call, if it completes one. */
    method SlInput(form: Form, rx: Receiver, c: int, carrier: bool) returns (ghost got: Mbuf?)
      requires -0x8000_0000 <= c < 0x8000_0000
      requires Ready() && rx.Valid() && Stays(form, Handed(rx.Rx(), Classify(c, carrier)))
      modifies this`freed, rx, rx.mem, ipintrq, ipintrq.contents`nextpkt, log
      ensures Ready() && HasHeard(form, rx, Classify(c, carrier), got)
      ensures State() == if got == null then old(State()) else Next(form, old(State()), Slip(got))
      ensures log.freed == old(log.freed) + if |freed| > |old(freed)| then Releases(Items(Just(got))) else []
    {
      got := FromLine(form, rx, c, carrier);
    }

    /** What slinput does. */
    method FromLine(form: Form, rx: Receiver, c: int, carrier: bool) returns (ghost got: Mbuf?)
      requires -0x8000_0000 <= c < 0x8000_0000
      requires Ready() && rx.Valid() && Stays(form, Handed(rx.Rx(), Classify(c, carrier)))
      modifies this`freed, rx, rx.mem, ipintrq, ipintrq.contents`nextpkt, log
      ensures Ready()
      ensures rx.Valid() && rx.mem == old(rx.mem) && rx.Rx() == Step(form, old(rx.Rx()), Classify(c, carrier))
      ensures (got == null) == (Handed(old(rx.Rx()), Classify(c, carrier)) == [])
      ensures got != null ==> fresh(got) && IsPacket(got, old(rx.Rx()).buf)
      ensures freed == old(freed) + if got != null && old(ipintrq.len >= ipintrq.maxlen) then [got] else []
      ensures rx.Seen(ipintrq, log) == Received(old(rx.Seen(ipintrq, log)),
                                                Errors(form, old(rx.Rx()), Classify(c, carrier)), got, Items(Just(got)))
    {
      ghost var full := ipintrq.len >= ipintrq.maxlen;
      got := rx.Input(form, c, carrier, ipintrq, log);
      freed := freed + if got != null && full then [got] else [];
    }

    /** The protocol takes the next packet. */
    method NextIp() returns (m: Mbuf?)
      requires Ready()
      modifies this`taken, ipintrq
      ensures Ready() && State() == Next(Repaired, old(State()), TakeIp)
      ensures m == At(old(ipintrq.contents), 0)
    {
      m := ipintrq.Dequeue();
      if m != null {
        taken := taken + [m];
      }
    }

    method NextArp() returns (m: Mbuf?)
      requires Ready()
      modifies this`taken, arpintrq
      ensures Ready() && State() == Next(Repaired, old(State()), TakeArp)
      ensures m == At(old(arpintrq.contents), 0)
    {
      m := arpintrq.Dequeue();
      if m != null {
        taken := taken + [m];
      }
    }
  }

  const BROADCAST: seq<byte> := [0xff, 0xff, 0xff, 0xff, 0xff, 0xff]

  lemma AllOnes(dhost: seq<byte>)
    requires |dhost| == 6
    ensures dhost == BROADCAST <==> forall b <- dhost :: b == 0xff
  {
    if forall b <- dhost :: b == 0xff {
      assert forall i :: 0 <= i < 6 ==> dhost[i] in dhost;
    }
  }

  /** What looutput reports. */
  function LoopError(family: nat, rt: Option<Route>, full: bool): nat {
    if Rejects(rt) then (if rt.value.blackhole then 0 else if rt.value.host then EHOSTUNREACH else ENETUNREACH)
    else if family != AF_INET then EAFNOSUPPORT
    else if full then ENOBUFS
    else 0
  }

  /** The errors of looutput, as numbers, and what each is for. */
  lemma LoopErrorFor(family: nat, rt: Option<Route>, full: bool)
    ensures var e := LoopError(family, rt, full);
            var hole, bad := rt.Some? && rt.value.blackhole, rt.Some? && rt.value.reject;
            && (e == 65 <==> bad && !hole && rt.value.host) && (e == 51 <==> bad && !hole && !rt.value.host)
            && (e == 47 <==> !bad && !hole && family != 2) && (e == 55 <==> !bad && !hole && family == 2 && full)
            && (e == 0 || e in [65, 51, 47, 55])
  {
  }
}
