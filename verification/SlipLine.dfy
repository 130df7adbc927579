/** The serial line interface: the receiver, the transmitter and the output entry point (net/if_sl.c). */
module SlipLine {
  import opened Arenas
  import opened Bytes
  import opened Pieces
  import opened Mbufs
  import opened MbufBuild
  import opened MbufFree
  import opened Ifqueues
  import opened IfOffer
  import opened SlipCodec
  import opened SlipWire

  /** A packet of one mbuf with these bytes. */
  ghost predicate IsPacket(m: Mbuf, p: seq<byte>)
    reads m`next, m`dat, m`off, m`len, m`pkthdr, m`pktlen
  {
    Linked(m, [m]) && Holds([m], [p]) && m.pkthdr && m.pktlen == |p|
  }

  const SLBUFSIZE := SLMAX + BUFOFFSET

  /** struct sl_softc: what slopen, slclose and the receiver work on, and the interface with its queues. */
  class Receiver {
    const out: Transmitter  // sc_if and sc_fastq
    var ttyp: Tty?          // sc_ttyp
    var baudrate: nat       // if_baudrate
    var mem: array?<byte>   // the buffer whose end is sc_ep
    var buf: nat            // sc_buf, sc_mp and sc_ep, as positions in it; all 0 when there is none
    var mp: nat
    var ep: nat
    var escape: bool
    var error: bool         // SC_ERROR
    var ipackets: nat
    var ierrors: nat
    var iqdrops: nat

    ghost predicate Valid()
      reads this`mem, this`buf, this`mp, this`ep
    {
      mem != null && mem.Length == ep == MCLBYTES && buf == ep - SLMAX && buf <= mp <= ep
    }

    ghost function Rx(): (s: Rx)
      reads this`mem, this`buf, this`mp, this`ep, this`escape, this`error, mem
      requires Valid()
      ensures s.Valid()
    {
      SlipCodec.Rx(mem[buf..mp], escape, error)
    }

    /** An entry of sl_softc after slattach. */
    constructor ()
      ensures fresh(out) && out.Ready() && out.fastq.contents == [] && out.snd.contents == []
      ensures ttyp == null && mem == null && ep == 0 && !escape && !error
      ensures ipackets == ierrors == iqdrops == 0
    {
      out := new Transmitter(IFQ_MAXLEN);
      ttyp, baudrate, mem := null, 0, null;
      buf, mp, ep := 0, 0, 0;
      escape, error := false, false;
      ipackets, ierrors, iqdrops := 0, 0, 0;
    }

    /** slinit.  It empties the buffer but leaves sc_escape and SC_ERROR as the last user left them, so
        the receiver is fresh exactly when neither was set. */
    method SlInit(arena: Arena)
      requires ep == 0 || (mem != null && mem.Length == ep == MCLBYTES)
      modifies this`mem, this`buf, this`mp, this`ep, arena
      ensures Valid() && Rx() == SlipCodec.Rx([], old(escape), old(error))
      ensures Rx() == FRESH <==> !old(escape) && !old(error)
      ensures if old(ep) == 0 then fresh(mem) && arena.live == old(arena.live) + {mem}
              else mem == old(mem) && arena.live == old(arena.live)
    {
      if ep == 0 {
        mem := arena.Malloc(MCLBYTES);
        ep := MCLBYTES;
      }
      buf := ep - SLMAX;
      mp := buf;
    }

    /** The label newpack. */
    method NewPack()
      requires Valid()
      modifies this`mp, this`buf, this`escape
      ensures Valid() && Rx() == SlipCodec.Rx([], false, error)
    {
      buf := ep - SLMAX;
      mp := buf;
      escape := false;
    }

    /** The code after the switch: store the byte, or give up on a full buffer. */
    method StoreByte(c: byte)
      requires Valid()
      modifies this`mp, this`buf, this`escape, this`error, this`ierrors, mem
      ensures Valid() && Rx() == Store(old(Rx()), c)
      ensures ierrors == old(ierrors) + if old(mp) < ep then 0 else 1
    {
      if mp < ep {
        ghost var before := mem[buf..mp];
        mem[mp] := c;
        mp := mp + 1;
        escape := false;
        assert mem[buf..mp] == before + [c];
        return;
      }
      error := true;
      ierrors := ierrors + 1;
      NewPack();
    }

    /** sl_btom.  As written, the bytes go into the data area of a packet header mbuf, which must hold
        them; repaired, into a cluster when it does not.  The length never reaches that of a cluster. */
    method SlBtom(form: Form, len: nat) returns (m: Mbuf)
      requires Valid() && len == mp - buf
      requires form.AsWritten? ==> len <= MHLEN
      ensures fresh(m) && IsPacket(m, mem[buf..mp]) && m.ext == (len > MHLEN)
    {
      if len < MCLBYTES {
        if form.Repaired? && len > MHLEN {
          var addr: nat := *;
          m := new Mbuf.GetHdrCluster(addr);
        } else {
          m := new Mbuf.GetHdr();
        }
        assert Holds([m], [[]]) by { HoldsCons(m, [], []); }
        FillLast(m, mem[buf..buf + len], [], []);
        m.pktlen := m.len;
      } else {
        assert false;
      }
    }

    /** What slinput changes apart from the line, as a value. */
    ghost function Seen(ipintrq: Ifqueue, log: FreeLog): Intake
      reads this`ipackets, this`ierrors, this`iqdrops, ipintrq`contents, ipintrq`len, ipintrq`maxlen, ipintrq`drops, log
    {
      Intake(ipintrq.contents, ipintrq.len, ipintrq.maxlen, ipintrq.drops, log.freed, ipackets, ierrors, iqdrops)
    }

    /** slinput, for a tty with an interface.  `carrier` says that TS_CARR_ON or CLOCAL is set.  `got` is
        the packet handed up, if any.  As written, it must fit the data area of a packet header mbuf. */
    method Input(form: Form, c0: int, carrier: bool, ipintrq: Ifqueue, log: FreeLog) returns (ghost got: Mbuf?)
      requires -0x8000_0000 <= c0 < 0x8000_0000
      requires Valid() && ipintrq.Valid()
      requires Stays(form, Handed(Rx(), Classify(c0, carrier)))
      modifies this`mp, this`buf, this`escape, this`error, this`ipackets, this`ierrors, this`iqdrops,
               mem, log, ipintrq, ipintrq.contents`nextpkt
      ensures Valid() && mem == old(mem) && ipintrq.Valid()
      ensures Rx() == Step(form, old(Rx()), Classify(c0, carrier))
      ensures (got == null) == (Handed(old(Rx()), Classify(c0, carrier)) == [])
      ensures got != null ==> fresh(got) && IsPacket(got, old(Rx()).buf)
      ensures Seen(ipintrq, log) == Received(old(Seen(ipintrq, log)), Errors(form, old(Rx()), Classify(c0, carrier)),
                                             got, Items(Just(got)))
      ensures !carrier || c0 < 0 || c0 >= 0x100_0000 ==>
                got == null && Rx() == old(Rx()).(error := true) && Seen(ipintrq, log) == old(Seen(ipintrq, log))
      ensures carrier && 0 <= c0 < 0x100_0000 ==> Rx() == Step(form, old(Rx()), Clean(c0 % 256))
    {
      got := null;
      if c0 < 0 || c0 >= 0x100_0000 || !carrier {
        error := true;
        return;
      }
      var c: byte := c0 % 256;
      if c == FRAME_ESCAPE {
        escape := true;
        return;
      }
      if c == FRAME_END {
        got := EndOfFrame(form, ipintrq, log);
        return;
      }
      if escape {
        c := Unmap(c);
      }
      StoreByte(c);
    }

    /** The case FRAME_END of the switch. */
    method EndOfFrame(form: Form, ipintrq: Ifqueue, log: FreeLog) returns (ghost got: Mbuf?)
      requires Valid() && ipintrq.Valid()
      requires form.AsWritten? && Complete(Rx()) ==> mp - buf <= MHLEN
      modifies this`mp, this`buf, this`escape, this`error, this`ipackets, this`ierrors, this`iqdrops,
               mem, log, ipintrq, ipintrq.contents`nextpkt
      ensures Valid() && mem == old(mem) && ipintrq.Valid()
      ensures Rx() == Step(form, old(Rx()), Clean(FRAME_END))
      ensures (got == null) == !Complete(old(Rx()))
      ensures got != null ==> fresh(got) && IsPacket(got, old(Rx()).buf)
      ensures Seen(ipintrq, log) == Received(old(Seen(ipintrq, log)), Errors(form, old(Rx()), Clean(FRAME_END)),
                                             got, Items(Just(got)))
    {
      got := null;
      ghost var a, s := Seen(ipintrq, log), Rx();
      var ok := Judge(ipintrq, log);
      if ok {
        got := HandUp(form, ipintrq, log);
        Renew(form, got, ipintrq, log);
        HandedUpLate(a, got, Items([got]), Errors(form, s, Clean(FRAME_END)));
      }
    }

    /** Behind a packet handed up.  As written, the switch is left with c set to the type of the packet, and
        control falls into the store of c; repaired, the buffer is emptied. */
    method Renew(form: Form, ghost got: Mbuf, ghost ipintrq: Ifqueue, ghost log: FreeLog)
      requires Valid() && Complete(Rx()) && ipintrq.Valid() && IsPacket(got, Rx().buf)
      modifies this`mp, this`buf, this`escape, this`error, this`ierrors, mem
      ensures Valid() && mem == old(mem) && ipintrq.Valid() && IsPacket(got, old(Rx()).buf)
      ensures Rx() == Step(form, old(Rx()), Clean(FRAME_END))
      ensures Items([got]) == old(Items([got]))
      ensures Seen(ipintrq, log) == Counted(old(Seen(ipintrq, log)), Errors(form, old(Rx()), Clean(FRAME_END)))
    {
      if form.Repaired? {
        NewPack();
      } else {
        StoreByte(0x40);
      }
    }

    /** The tests on what has been received when a FRAME_END comes; a packet that fails one is dropped. */
    method Judge(ghost ipintrq: Ifqueue, ghost log: FreeLog) returns (ok: bool)
      requires Valid() && ipintrq.Valid()
      modifies this`error, this`ierrors, this`mp, this`buf, this`escape
      ensures Valid() && ipintrq.Valid() && ok == Complete(old(Rx()))
      ensures Rx() == if ok then old(Rx()) else FRESH
      ensures Seen(ipintrq, log) == Counted(old(Seen(ipintrq, log)), if Malformed(old(Rx())) then 1 else 0)
    {
      ok := false;
      if error {
        error := false;
        NewPack();
        return;
      }
      if mp - buf < 3 {
        NewPack();
        return;
      }
      var c := mem[buf] / 16 * 16;
      if c != 0x40 {
        // sl_uncompress_tcp does nothing and says so, and every way leads to the error path
        ierrors := ierrors + 1;
        NewPack();
        return;
      }
      ok := true;
    }

    /** A complete packet becomes an mbuf and is offered to the IP input queue. */
    method HandUp(form: Form, ipintrq: Ifqueue, log: FreeLog) returns (ghost got: Mbuf)
      requires Valid() && ipintrq.Valid()
      requires form.AsWritten? ==> mp - buf <= MHLEN
      modifies this`ipackets, this`ierrors, this`iqdrops, log, ipintrq, ipintrq.contents`nextpkt
      ensures ipintrq.Valid() && fresh(got) && IsPacket(got, mem[buf..mp])
      ensures Seen(ipintrq, log) == HandedUp(old(Seen(ipintrq, log)), got, Items([got]))
    {
      ipackets := ipackets + 1;
      var m := SlBtom(form, mp - buf);
      got := m;
      OfferUp(m, mem[buf..mp], ipintrq, log);
    }

    /** The end of slinput. */
    method OfferUp(m: Mbuf, ghost p: seq<byte>, ipintrq: Ifqueue, log: FreeLog)
      requires ipintrq.Valid() && m !in ipintrq.contents && IsPacket(m, p)
      requires ipackets > 0
      modifies this`ierrors, this`iqdrops, log, ipintrq, ipintrq.contents`nextpkt, m`nextpkt
      ensures ipintrq.Valid() && IsPacket(m, p)
      ensures var a := old(Seen(ipintrq, log));
              Seen(ipintrq, log) == HandedUp(a.(ipackets := a.ipackets - 1), m, Items([m]))
    {
      var queued := Offer(ipintrq, m, log, [m]);
      if !queued {
        ierrors := ierrors + 1;
        iqdrops := iqdrops + 1;
      }
    }
  }

  /** The IP input queue, what was released, if_ipackets, if_ierrors and if_iqdrops. */
  datatype Intake = Intake(queued: seq<Mbuf>, len: nat, maxlen: nat, drops: nat, freed: seq<Freed>,
                           ipackets: nat, ierrors: nat, iqdrops: nat)

  /** A packet is handed up: it is queued, or dropped, counted and freed when the queue is full. */
  function HandedUp(a: Intake, m: Mbuf, xs: seq<Item>): Intake {
    var b := a.(ipackets := a.ipackets + 1);
    if a.len >= a.maxlen
    then b.(drops := b.drops + 1, freed := b.freed + Releases(xs), ierrors := b.ierrors + 1, iqdrops := b.iqdrops + 1)
    else b.(queued := b.queued + [m], len := b.len + 1)
  }

  /** Errors are counted, and the packet is handed up, if there is one. */
  function Received(a: Intake, errors: nat, m: Mbuf?, xs: seq<Item>): Intake {
    if m == null then Counted(a, errors) else HandedUp(Counted(a, errors), m, xs)
  }

  function Counted(a: Intake, errors: nat): Intake {
    a.(ierrors := a.ierrors + errors)
  }

  /** A packet that is handed up is counted.  It is the next of the queue; or, when that is full, all of it is
      released, and it counts as a drop of the queue, as an error and as a drop of the interface. */
  lemma QueuedOrDropped(a: Intake, m: Mbuf, xs: seq<Item>)
    ensures var b := Received(a, 0, m, xs);
            && b.ipackets == a.ipackets + 1
            && (a.len < a.maxlen ==> b == a.(queued := a.queued + [m], len := a.len + 1, ipackets := b.ipackets))
            && (a.len >= a.maxlen ==>
                  && b.queued == a.queued && b.len == a.len && b.freed == a.freed + Releases(xs)
                  && b.drops == a.drops + 1 && b.ierrors == a.ierrors + 1 && b.iqdrops == a.iqdrops + 1)
    ensures Received(a, 0, null, []) == a
  {
  }

  lemma HandedUpLate(a: Intake, m: Mbuf, xs: seq<Item>, errors: nat)
    ensures Counted(HandedUp(Counted(a, 0), m, xs), errors) == Received(a, errors, m, xs)
  {
  }

  function Just(m: Mbuf?): seq<Mbuf> {
    if m == null then [] else [m]
  }

  /** As written, slinput survives only packets that fit the data area of a packet header mbuf. */
  predicate Stays(form: Form, ps: seq<seq<byte>>) {
    form.AsWritten? ==> forall p <- ps :: |p| <= MHLEN
  }

  /** A header mbuf holds the bytes that sl_btom copies into it exactly when there are at most MHLEN. */
  lemma CopyStaysInside(m: Mbuf, n: nat)
    requires m.off == PKTHDR && |m.dat| == MLEN
    ensures m.off + n <= |m.dat| <==> n <= MHLEN
  {
  }

  // ---------- the transmitter ----------

  /** The mbufs of a packet, what they hold, what there is to release, and what is stored from m_data of the
      first of them on. */
  datatype Desc = Desc(ns: seq<Mbuf>, ss: Chain, xs: seq<Item>, head: seq<byte>)

  type Descs = map<Mbuf, Desc>

  const SLMTU := 296
  const CLISTRESERVE := 1024
  const SLIP_HIWAT := 96  // roundup(50, CBSIZE) with CBSIZE 48

  class Tty {
    const outq: Clist    // t_outq
    var sent: seq<byte>  // what the driver has taken from it so far
    var line: int        // t_line
    var sc: Receiver?    // t_sc
    var ospeed: nat      // t_ospeed

    /** Everything that is, or is about to be, on the wire. */
    ghost function Wire(): seq<byte>
      reads this`sent, outq
    {
      sent + outq.q
    }

    constructor (room: nat)
      ensures fresh(outq) && Wire() == [] && outq.room == room && line == 0 && sc == null
    {
      outq := new Clist(room);
      sent, line, sc, ospeed := [], 0, null, 0;
    }

    /** t_oproc: the driver takes some bytes from the front, and their room is free again. */
    method Oproc()
      modifies this`sent, outq
      ensures Wire() == old(Wire()) && outq.room >= old(outq.room)
      ensures outq.room + |outq.q| == old(outq.room + |outq.q|)
    {
      var n: nat :| n <= |outq.q|;
      assert outq.q == outq.q[..n] + outq.q[n..];
      sent := sent + outq.q[..n];
      outq.q, outq.room := outq.q[n..], outq.room + n;
    }
  }

  /** What slstart did with one packet: freed it for want of clists, or sent these bytes, with or without
      a FRAME_END in front; what it released, what it added to if_obytes, and how many bytes there was room
      for. */
  datatype Tx = Tx(m: Mbuf, lead: bool, freed: bool, bytes: seq<byte>, released: seq<Freed>, count: nat, room: nat)

  function Lead(lead: bool): seq<byte> {
    if lead then [FRAME_END] else []
  }

  function Frame(form: Form, lead: bool, ss: Chain): seq<byte> {
    Lead(lead) + BodyWire(form, ss) + [FRAME_END]
  }

  /** A frame is sent in full unless it is longer than the clists that must be free before it is begun;
      then it is cut short and ended. */
  predicate FramedRight(form: Form, ss: Chain, t: Tx) {
    var f := Frame(form, t.lead, ss);
    t.bytes == f
    || (CLISTRESERVE + SLMTU <= |t.bytes| < |f| && t.bytes == f[..|t.bytes| - 1] + [FRAME_END])
  }

  /** What a framed packet adds to if_obytes.  As written, the trailing FRAME_END counts twice. */
  function FrameCount(form: Form, ss: Chain, t: Tx): nat {
    |Lead(t.lead)| + BodyCount(form, ss)
    + if t.bytes != Frame(form, t.lead, ss) then 0 else if form.Repaired? then 1 else 2
  }

  /** What is queued of a frame when there is room for this many bytes. */
  function Cut(pre: seq<byte>, room: nat): seq<byte>
    requires room > 0
  {
    (if |pre| < room then pre else pre[..room - 1]) + [FRAME_END]
  }

  /** What EndPacket leaves of a packet is a whole frame exactly when it fits the room there was. */
  lemma FramedOrCut(form: Form, ss: Chain, t: Tx, room: nat)
    requires room >= CLISTRESERVE + SLMTU
    requires t.bytes == Cut(Lead(t.lead) + BodyWire(form, ss), room)
    ensures FramedRight(form, ss, t)
    ensures t.bytes == Frame(form, t.lead, ss) <==> |Lead(t.lead) + BodyWire(form, ss)| < room
  {
  }

  lemma {:induction false} BodyCountAsWritten(ss: Chain)
    ensures BodyCount(AsWritten, ss) == Total(ss)
  {
    if ss == [] {
    } else {
      BodyCountAsWritten(ss[1..]);
    }
  }

  /** For a packet that is not cut short, if_obytes counts the bytes sent: always, and as written never, for
      then it counts the bytes of the packet and two for the last FRAME_END. */
  lemma FrameCountIsLength(form: Form, ss: Chain, t: Tx)
    requires t.bytes == Frame(form, t.lead, ss)
    ensures FrameCount(form, ss, t) == |t.bytes| <==> form.Repaired?
    ensures form.AsWritten? ==> FrameCount(form, ss, t) == |Lead(t.lead)| + Total(ss) + 2
  {
    CountIsLength(form, ss);
    if form.AsWritten? {
      BodyCountAsWritten(ss);
    }
  }

  /** For one that is cut short, it counts what it would have counted before the last FRAME_END. */
  lemma CutFrameCount(form: Form, ss: Chain, t: Tx)
    requires t.bytes != Frame(form, t.lead, ss)
    ensures form.Repaired? ==> FrameCount(form, ss, t) == |Frame(form, t.lead, ss)| - 1
    ensures form.AsWritten? ==> FrameCount(form, ss, t) == |Lead(t.lead)| + Total(ss)
  {
    CountIsLength(form, ss);
    BodyCountAsWritten(ss);
  }

  function SentBytes(txs: seq<Tx>): seq<byte> {
    if txs == [] then [] else SentBytes(txs[..|txs| - 1]) + txs[|txs| - 1].bytes
  }

  lemma SentBytesMore(txs: seq<Tx>, t: Tx)
    ensures SentBytes(txs + [t]) == SentBytes(txs) + t.bytes
  {
    assert (txs + [t])[..|txs|] == txs;
  }

  function Counts(txs: seq<Tx>): nat {
    if txs == [] then 0 else Counts(txs[..|txs| - 1]) + txs[|txs| - 1].count
  }

  function Released(txs: seq<Tx>): seq<Freed> {
    if txs == [] then [] else Released(txs[..|txs| - 1]) + txs[|txs| - 1].released
  }

  lemma CountsMore(txs: seq<Tx>, t: Tx)
    ensures Counts(txs + [t]) == Counts(txs) + t.count
    ensures Released(txs + [t]) == Released(txs) + t.released
  {
    assert (txs + [t])[..|txs|] == txs;
  }

  class Transmitter {
    const fastq: Ifqueue  // sc_fastq
    const snd: Ifqueue    // if_snd
    var omcasts: nat
    var collisions: nat
    var noproto: nat
    var oerrors: nat
    var obytes: nat
    var up: bool          // IFF_UP

    constructor (maxlen: nat)
      ensures fresh(fastq) && fresh(snd) && fastq != snd && fastq.Valid() && snd.Valid()
      ensures fastq.contents == [] && snd.contents == [] && fastq.maxlen == 32 && snd.maxlen == maxlen
      ensures omcasts == collisions == noproto == oerrors == obytes == 0
    {
      fastq := new Ifqueue(32);
      snd := new Ifqueue(maxlen);
      omcasts, collisions, noproto, oerrors, obytes, up := 0, 0, 0, 0, 0, false;
    }

    /** The part of slstart that frames one packet. */
    method SendPacket(form: Form, m: Mbuf, outq: Clist, log: FreeLog, ghost ns: seq<Mbuf>, ghost ss: Chain)
        returns (ghost t: Tx)
      requires Linked(m, ns) && Holds(ns, ss)
      requires outq.room >= CLISTRESERVE + SLMTU
      modifies outq, log, this`collisions, this`obytes
      ensures t.m == m && !t.freed && t.lead == (old(outq.q) == []) && FramedRight(form, ss, t)
      ensures t.bytes == Cut(Lead(t.lead) + BodyWire(form, ss), old(outq.room))
      ensures outq.q == old(outq.q) + t.bytes
      ensures t.room == old(outq.room) && outq.room == old(outq.room) - |t.bytes|
      ensures collisions == old(collisions) + if t.bytes == Frame(form, t.lead, ss) then 0 else 1
      ensures t.released == MacroReleases(form, Items(ns)) && log.freed == old(log.freed) + t.released
      ensures t.count == FrameCount(form, ss, t) && obytes == old(obytes) + t.count
    {
      ghost var c0, o0 := outq.State(), obytes;
      ghost var lead := LeadByte(outq);
      PushTwice(c0, Lead(lead), BodyWire(form, ss));
      var n := SendBody(form, m, outq, log, ns, ss);
      obytes := obytes + n;
      ghost var bytes := EndPacket(form, outq, c0, Lead(lead) + BodyWire(form, ss));
      t := Tx(m, lead, false, bytes, MacroReleases(form, Items(ns)), obytes - o0, c0.room);
      FramedOrCut(form, ss, t, c0.room);
    }

    /** On an idle line, a FRAME_END goes first. */
    method LeadByte(outq: Clist) returns (ghost lead: bool)
      requires outq.room > 0
      modifies outq, this`obytes
      ensures lead == (old(outq.q) == []) && outq.State() == Push(old(outq.State()), Lead(lead))
      ensures obytes == old(obytes) + |Lead(lead)|
    {
      lead := outq.q == [];
      PushNothing(outq.State());
      if outq.q == [] {
        obytes := obytes + 1;
        var failed := outq.Putc(FRAME_END);
      }
    }

    /** The FRAME_END behind a packet: when there is no room, the last byte makes way for it. */
    method EndPacket(form: Form, outq: Clist, ghost c0: Queue, ghost pre: seq<byte>) returns (ghost bytes: seq<byte>)
      requires outq.State() == Push(c0, pre) && c0.room > 0
      modifies outq, this`collisions, this`obytes
      ensures outq.q == c0.q + bytes && bytes == Cut(pre, c0.room) && outq.room == c0.room - |bytes|
      ensures collisions == old(collisions) + if |pre| < c0.room then 0 else 1
      ensures obytes == old(obytes) + if |pre| >= c0.room then 0 else if form.Repaired? then 1 else 2
    {
      PushTwice(c0, pre, [FRAME_END]);
      var failed := outq.Putc(FRAME_END);
      if failed {
        // the frame must end with its delimiter all the same
        assert outq.q == c0.q + pre[..c0.room];
        outq.Unputc();
        assert outq.q == c0.q + pre[..c0.room - 1];
        failed := outq.Putc(FRAME_END);
        collisions := collisions + 1;
        bytes := pre[..c0.room - 1] + [FRAME_END];
      } else {
        bytes := pre + [FRAME_END];
        obytes := obytes + if form.Repaired? then 1 else 2;
      }
    }

    /** The packet slstart takes next: the interactive queue goes first. */
    method Next() returns (m: Mbuf?)
      requires Sound()
      modifies this`omcasts, fastq, snd
      ensures Sound()
      ensures (m == null) == (old(Waiting()) == []) && (m == null ==> Waiting() == [])
      ensures m != null ==> m == old(Waiting())[0] && Waiting() == old(Waiting())[1..]
      ensures |fastq.contents| == Less(|old(fastq.contents)|)
      ensures omcasts == old(omcasts) + |old(fastq.contents)| - |fastq.contents|
    {
      m := fastq.Dequeue();
      if m != null {
        omcasts := omcasts + 1;
      } else {
        m := snd.Dequeue();
      }
    }

    /** The packets waiting, in the order slstart takes them. */
    ghost function Waiting(): seq<Mbuf>
      reads fastq`contents, snd`contents
    {
      fastq.contents + snd.contents
    }

    /** Let the driver run, and see whether enough is queued downstream already. */
    method Gate(tp: Tty) returns (go: bool)
      modifies tp`sent, tp.outq
      ensures tp.Wire() == old(tp.Wire()) && go == (|tp.outq.q| <= SLIP_HIWAT)
      ensures tp.outq.room >= old(tp.outq.room) && tp.outq.room + |tp.outq.q| == old(tp.outq.room + |tp.outq.q|)
    {
      if |tp.outq.q| != 0 {
        tp.Oproc();
      }
      go := |tp.outq.q| <= SLIP_HIWAT;
    }

    /** What slstart has changed, as a value. */
    ghost function Now(tp: Tty, log: FreeLog): Progress
      reads fastq`contents, snd`contents, this`collisions, this`omcasts, this`obytes, tp`sent, tp.outq, log
    {
      Progress(Waiting(), |fastq.contents|, tp.Wire(), collisions, omcasts, obytes, log.freed,
               tp.outq.room, tp.outq.room + |tp.outq.q|)
    }

    /** Nothing is left to take, or enough is queued downstream. */
    ghost predicate Stopped(tp: Tty)
      reads fastq`contents, snd`contents, tp.outq
    {
      Waiting() == [] || |tp.outq.q| > SLIP_HIWAT
    }

    /** One turn of the loop of slstart; `more` is false when slstart returns. */
    method Turn(form: Form, tp: Tty, ghost ds: Descs, ghost R: set<Mbuf>, log: FreeLog)
        returns (more: bool, ghost t: Option<Tx>)
      requires Sound() && Described(Waiting(), ds, R)
      modifies this`omcasts, this`collisions, this`obytes, tp`sent, tp.outq, fastq, snd, log
      ensures Sound() && more == t.Some?
      ensures more ==> OneTurn(form, ds, old(Now(tp, log)), Now(tp, log), t.value)
      ensures !more ==> Paused(old(Now(tp, log)), Now(tp, log)) && Stopped(tp)
    {
      ghost var p := Now(tp, log);
      more := Pause(tp, ds, R, log);
      t := None;
      if more {
        ghost var q := Now(tp, log);
        more, t := TakeOne(form, tp, ds, R, log);
        if more {
          TurnAfterPause(form, ds, p, q, Now(tp, log), t.value);
        }
      }
    }

    /** The gate, as a value: the driver may have taken some bytes, and all else is as it was. */
    method Pause(tp: Tty, ghost ds: Descs, ghost R: set<Mbuf>, ghost log: FreeLog) returns (go: bool)
      requires Sound() && Described(Waiting(), ds, R)
      modifies tp`sent, tp.outq
      ensures Sound() && Described(Waiting(), ds, R) && Paused(old(Now(tp, log)), Now(tp, log))
      ensures go == (|tp.outq.q| <= SLIP_HIWAT)
    {
      go := Gate(tp);
    }

    /** Both queues are well formed. */
    ghost predicate Sound()
      reads fastq, snd, fastq.contents`nextpkt, snd.contents`nextpkt
    {
      fastq.Valid() && snd.Valid() && fastq != snd
    }

    /** The part of a turn behind the gate. */
    method TakeOne(form: Form, tp: Tty, ghost ds: Descs, ghost R: set<Mbuf>, log: FreeLog)
        returns (more: bool, ghost t: Option<Tx>)
      requires Sound() && Described(Waiting(), ds, R) && |tp.outq.q| <= SLIP_HIWAT
      modifies this`omcasts, this`collisions, this`obytes, tp.outq, fastq, snd, log
      ensures Sound() && more == t.Some?
      ensures more ==> OneTurn(form, ds, old(Now(tp, log)), Now(tp, log), t.value)
      ensures !more ==> Now(tp, log) == old(Now(tp, log)) && Stopped(tp)
    {
      t := None;
      ghost var p := Now(tp, log);
      var m := TakeNext(tp, log, ds, R, p.waiting);
      more := m != null;
      if more {
        ghost var q := Now(tp, log);
        t := Dispose(form, m, tp, ds, R, log, p.waiting);
        TurnMade(form, ds, p, q, Now(tp, log), t.value);
      }
    }

    /** Taking a packet changes the queues and if_omcasts only. */
    method TakeNext(tp: Tty, log: FreeLog, ghost ds: Descs, ghost R: set<Mbuf>, ghost w: seq<Mbuf>) returns (m: Mbuf?)
      requires Sound() && w == Waiting() && Described(w, ds, R)
      modifies this`omcasts, fastq, snd
      ensures Sound() && Described(w, ds, R)
      ensures if w == [] then m == null && Waiting() == [] && Now(tp, log) == old(Now(tp, log))
              else m == w[0] && Now(tp, log) == NextTaken(old(Now(tp, log)))
    {
      m := Next();
    }

    /** The rest of a turn: send or free the packet that was taken. */
    method Dispose(form: Form, m: Mbuf, tp: Tty, ghost ds: Descs, ghost R: set<Mbuf>, log: FreeLog, ghost w: seq<Mbuf>)
        returns (ghost t: Option<Tx>)
      requires Sound() && Described(w, ds, R) && m in w && |tp.outq.q| <= SLIP_HIWAT
      modifies this`collisions, this`obytes, tp.outq, log
      ensures Sound()
      ensures t.Some? && t.value.m == m && Handled(form, ds, t.value)
      ensures OnLine(old(Now(tp, log)), t.value) && t.value.room == old(tp.outq.room)
      ensures Now(tp, log) == Disposed(old(Now(tp, log)), t.value, Collides(form, ds, t.value))
    {
      ghost var d := ds[m];
      DescribedAt(w, m, ds, R);
      t := SendOrFree(form, m, tp, d.ns, d.ss, log);
    }

    /** slstart: it takes the waiting packets in order, sends or frees each of them, and stops only when
        none is left or enough bytes are queued downstream. */
    method Start(form: Form, tp: Tty, ghost ds: Descs, ghost R: set<Mbuf>, log: FreeLog)
        returns (ghost txs: seq<Tx>)
      requires Sound() && Described(Waiting(), ds, R)
      modifies this`omcasts, this`collisions, this`obytes, tp`sent, tp.outq, fastq, snd, log
      ensures Sound()
      ensures Accounts(form, ds, txs, old(Now(tp, log)), Now(tp, log))
      ensures Waiting() == [] || |tp.outq.q| > 96
    {
      txs := [];
      ghost var p0 := Now(tp, log);
      var more := true;
      AccountsNone(form, ds, p0);
      while more
        invariant Draining(form, tp, ds, R, log, txs, p0)
        invariant !more ==> Stopped(tp)
        decreases |Waiting()|, more
      {
        more, txs := TurnOnce(form, tp, ds, R, log, txs, p0);
      }
    }

    /** A turn leaves the packets as they are. */
    method TurnInOrder(form: Form, tp: Tty, ghost ds: Descs, ghost R: set<Mbuf>, log: FreeLog,
                       ghost w0: seq<Mbuf>, ghost k: nat)
        returns (more: bool, ghost t: Option<Tx>)
      requires Sound() && Described(w0, ds, R) && k <= |w0| && Waiting() == w0[k..]
      modifies this`omcasts, this`collisions, this`obytes, tp`sent, tp.outq, fastq, snd, log
      ensures Sound() && more == t.Some?
      ensures more ==> OneTurn(form, ds, old(Now(tp, log)), Now(tp, log), t.value)
      ensures !more ==> Paused(old(Now(tp, log)), Now(tp, log)) && Stopped(tp)
      ensures Described(w0, ds, R)
    {
      DescribedTail(w0, k, ds, R);
      more, t := Turn(form, tp, ds, R, log);
    }

    /** What holds between the turns of slstart. */
    ghost predicate Draining(form: Form, tp: Tty, ds: Descs, R: set<Mbuf>, log: FreeLog,
                             txs: seq<Tx>, p0: Progress)
      reads fastq, snd, fastq.contents`nextpkt, snd.contents`nextpkt
      reads this`collisions, this`omcasts, this`obytes, tp`sent, tp.outq, log
      reads R`next, R`dat, R`off, R`len, R`ext, R`extbuf
    {
      && Sound() && Described(p0.waiting, ds, R)
      && Accounts(form, ds, txs, p0, Now(tp, log))
    }

    method TurnOnce(form: Form, tp: Tty, ghost ds: Descs, ghost R: set<Mbuf>, log: FreeLog,
                    ghost txs0: seq<Tx>, ghost p0: Progress)
        returns (more: bool, ghost txs: seq<Tx>)
      requires Draining(form, tp, ds, R, log, txs0, p0)
      modifies this`omcasts, this`collisions, this`obytes, tp`sent, tp.outq, fastq, snd, log
      ensures Draining(form, tp, ds, R, log, txs, p0)
      ensures if more then |Waiting()| < |old(Waiting())| else Stopped(tp)
      ensures |Waiting()| <= |old(Waiting())|
    {
      ghost var p, t := Now(tp, log), None;
      more, t := TurnInOrder(form, tp, ds, R, log, p0.waiting, |txs0|);
      txs := txs0;
      if more {
        AccountsMore(form, ds, txs0, t.value, p0, p, Now(tp, log));
        txs := txs0 + [t.value];
      } else {
        AccountsPaused(form, ds, txs0, p0, p, Now(tp, log));
      }
    }

    /** Free the packet when clists run low, frame it otherwise. */
    method SendOrFree(form: Form, m: Mbuf, tp: Tty, ghost ns: seq<Mbuf>, ghost ss: Chain, log: FreeLog)
        returns (ghost t: Option<Tx>)
      requires Linked(m, ns) && Holds(ns, ss)
      modifies this`collisions, this`obytes, tp.outq, log
      ensures t.Some? && t.value.m == m && tp.Wire() == old(tp.Wire()) + t.value.bytes
      ensures HandledAs(form, ss, Items(ns), t.value)
      ensures t.value.freed == (old(tp.outq.room) < 1320)
      ensures t.value.lead == (!t.value.freed && old(tp.outq.q) == [])
      ensures t.value.room == old(tp.outq.room) && tp.outq.room == old(tp.outq.room) - |t.value.bytes|
      ensures tp.outq.q == old(tp.outq.q) + t.value.bytes
      ensures collisions == old(collisions) + CollidesAs(form, ss, t.value)
      ensures log.freed == old(log.freed) + t.value.released && obytes == old(obytes) + t.value.count
    {
      if tp.outq.room < CLISTRESERVE + SLMTU {
        t := FreeOnly(m, tp, ns, log);
      } else {
        ghost var q0 := tp.outq.q;
        ghost var x := SendPacket(form, m, tp.outq, log, ns, ss);
        Assoc(tp.sent, q0, x.bytes);
        t := Some(x);
      }
    }

    method FreeOnly(m: Mbuf, tp: Tty, ghost ns: seq<Mbuf>, log: FreeLog) returns (ghost t: Option<Tx>)
      requires Linked(m, ns)
      modifies this`collisions, log
      ensures t == Some(Tx(m, false, true, [], Releases(Items(ns)), 0, tp.outq.room))
      ensures tp.Wire() == old(tp.Wire()) + [] && tp.outq.q == old(tp.outq.q) + []
      ensures collisions == old(collisions) + 1 && log.freed == old(log.freed) + Releases(Items(ns))
    {
      MFreem(m, log, ns);
      collisions := collisions + 1;
      t := Some(Tx(m, false, true, [], Releases(Items(ns)), 0, tp.outq.room));
      assert tp.Wire() + [] == tp.Wire() && tp.outq.q + [] == tp.outq.q;
    }

    /** No packet waits in both queues. */
    ghost predicate Apart()
      reads fastq`contents, snd`contents
    {
      forall i, j {:trigger fastq.contents[i], snd.contents[j]} ::
        0 <= i < |fastq.contents| && 0 <= j < |snd.contents| ==> fastq.contents[i] != snd.contents[j]
    }

    ghost predicate Ready()
      reads fastq, snd, fastq.contents`nextpkt, snd.contents`nextpkt
    {
      Sound() && Apart()
    }

    /** sloutput: a packet that is not refused is queued in its class, and when the line is idle the
        transmitter is started.  `tp` is sc_ttyp when `attached`. */
    method Output(form: Form, m: Mbuf, family: nat, attached: bool, tp: Tty, carrier: bool, noicmp: bool, log: FreeLog,
                  ghost ds: Descs, ghost R: set<Mbuf>)
        returns (errno: nat, ghost txs: seq<Tx>)
      requires Ready() && m !in fastq.contents && m !in snd.contents
      requires Described(Waiting() + [m], ds, R) && m in ds
      requires family == AF_INET && attached && carrier ==> HeadStored(ds[m].head, noicmp)
      modifies this`omcasts, this`collisions, this`obytes, this`noproto, this`oerrors, fastq, snd,
               fastq.contents`nextpkt, snd.contents`nextpkt, m`nextpkt, log, tp`sent, tp.outq
      ensures Ready()
      ensures errno == Refusal(family, attached, carrier, noicmp, ds[m].head, old(fastq.Full()), old(snd.Full()))
      ensures errno != 0 ==> txs == []
      ensures Accounts(form, ds, txs,
                       Joined(old(Now(tp, log)), errno, m, ds[m], old(fastq.contents), old(snd.contents)),
                       Now(tp, log))
      ensures errno == 0 && old(tp.outq.q) == [] ==> Stopped(tp)
      ensures old(tp.outq.q) != [] ==> txs == []
    {
      ghost var w := Waiting() + [m];
      ghost var p, f0, s0 := Now(tp, log), fastq.contents, snd.contents;
      errno := AdmitInOrder(m, family, attached, carrier, noicmp, log, ds, R, w);
      JoinedFrom(p, Now(tp, log), errno, m, ds[m], f0, s0, fastq.contents, snd.contents);
      txs := [];
      if errno == 0 {
        JoinedWait(p, errno, m, ds[m], f0, s0);
        txs := Kick(form, tp, ds, R, log, w);
      } else {
        AccountsNone(form, ds, Now(tp, log));
      }
    }

    /** Queueing a packet leaves its bytes, and those of the others, as they are. */
    method AdmitInOrder(m: Mbuf, family: nat, attached: bool, carrier: bool, noicmp: bool, log: FreeLog,
                        ghost ds: Descs, ghost R: set<Mbuf>, ghost w: seq<Mbuf>)
        returns (errno: nat)
      requires Ready() && m !in fastq.contents && m !in snd.contents
      requires w == Waiting() + [m] && Described(w, ds, R) && m in ds
      requires family == AF_INET && attached && carrier ==> HeadStored(ds[m].head, noicmp)
      modifies this`noproto, this`oerrors, fastq, snd, fastq.contents`nextpkt, snd.contents`nextpkt, m`nextpkt, log
      ensures Ready()
      ensures errno == Refusal(family, attached, carrier, noicmp, ds[m].head, old(fastq.Full()), old(snd.Full()))
      ensures log.freed == old(log.freed) + if errno == 0 then [] else Releases(ds[m].xs)
      ensures fastq.contents == Entered(old(fastq.contents), errno == 0 && LowDelay(ds[m].head), m)
      ensures snd.contents == Entered(old(snd.contents), errno == 0 && !LowDelay(ds[m].head), m)
      ensures Described(w, ds, R)
    {
      DescribedAt(w, m, ds, R);
      errno := Admit(m, family, attached, carrier, noicmp, log, ds[m].head, ds[m].ns);
    }

    /** The end of sloutput: start the transmitter when the line is idle. */
    method Kick(form: Form, tp: Tty, ghost ds: Descs, ghost R: set<Mbuf>, log: FreeLog,
                ghost w: seq<Mbuf>)
        returns (ghost txs: seq<Tx>)
      requires Ready()
      requires Described(w, ds, R) && (forall x <- Waiting() :: x in w)
      modifies this`omcasts, this`collisions, this`obytes, tp`sent, tp.outq, fastq, snd, log
      ensures Ready()
      ensures Accounts(form, ds, txs, old(Now(tp, log)), Now(tp, log))
      ensures if old(tp.outq.q) == [] then Stopped(tp) else txs == []
    {
      txs := [];
      if |tp.outq.q| == 0 {
        txs := StartAll(form, tp, ds, R, log, w);
      } else {
        AccountsNone(form, ds, Now(tp, log));
      }
    }

    /** slstart leaves the queues apart, and the packets that are still to come as they are. */
    method StartAll(form: Form, tp: Tty, ghost ds: Descs, ghost R: set<Mbuf>, log: FreeLog, ghost w: seq<Mbuf>)
        returns (ghost txs: seq<Tx>)
      requires Ready()
      requires Described(w, ds, R) && (forall x <- Waiting() :: x in w)
      modifies this`omcasts, this`collisions, this`obytes, tp`sent, tp.outq, fastq, snd, log
      ensures Ready() && Described(w, ds, R)
      ensures Accounts(form, ds, txs, old(Now(tp, log)), Now(tp, log)) && Stopped(tp)
    {
      ghost var f0, s0 := fastq.contents, snd.contents;
      DescribedSome(w, Waiting(), ds, R);
      txs := Start(form, tp, ds, R, log);
      ClassesKeepOrder(f0, s0, fastq.contents, snd.contents, |txs|);
    }

    /** if_down, which slclose calls: the interface is down, and all packets of if_snd are released and
        counted as dropped.  Those of the interactive queue stay. */
    method IfDown(log: FreeLog, ghost ds: Descs, ghost R: set<Mbuf>)
      requires Ready() && Described(snd.contents, ds, R)
      modifies this`up, snd, log
      ensures !up && Ready() && snd.contents == [] && fastq.contents == old(fastq.contents)
      ensures snd.drops == old(snd.drops) + |old(snd.contents)| && snd.maxlen == old(snd.maxlen)
      ensures log.freed == old(log.freed) + AllReleases(old(snd.contents), ds)
    {
      up := false;
      Flush(log, ds, R);
    }

    /** if_qflush of if_snd. */
    method Flush(log: FreeLog, ghost ds: Descs, ghost R: set<Mbuf>)
      requires Ready() && Described(snd.contents, ds, R)
      modifies snd, log
      ensures Ready() && snd.contents == [] && fastq.contents == old(fastq.contents)
      ensures snd.drops == old(snd.drops) + |old(snd.contents)| && snd.maxlen == old(snd.maxlen)
      ensures log.freed == old(log.freed) + AllReleases(old(snd.contents), ds)
    {
      ghost var f0, d0, w := log.freed, snd.drops, snd.contents;
      while snd.len > 0
        invariant Ready() && Described(snd.contents, ds, R)
        invariant fastq.contents == old(fastq.contents) && snd.maxlen == old(snd.maxlen)
        invariant snd.drops + |snd.contents| == d0 + |w|
        invariant log.freed + AllReleases(snd.contents, ds) == f0 + AllReleases(w, ds)
        decreases snd.len
      {
        FlushOne(log, ds, R);
      }
      assert log.freed + [] == log.freed;
    }

    method FlushOne(log: FreeLog, ghost ds: Descs, ghost R: set<Mbuf>)
      requires Ready() && Described(snd.contents, ds, R) && snd.len > 0
      modifies snd, log
      ensures Ready() && Described(snd.contents, ds, R) && snd.len < old(snd.len)
      ensures fastq.contents == old(fastq.contents) && snd.maxlen == old(snd.maxlen)
      ensures snd.drops + |snd.contents| == old(snd.drops + |snd.contents|)
      ensures log.freed + AllReleases(snd.contents, ds) == old(log.freed + AllReleases(snd.contents, ds))
    {
      ghost var w, f0 := snd.contents, log.freed;
      DescribedAt(w, w[0], ds, R);
      DescribedTail(w, 1, ds, R);
      ReleasesStep(w, ds, f0);
      var m := TakeLast(ds, R, w);
      FreeKept(m, log, ds, R, w[1..]);
    }

    /** Freeing a packet leaves the others as they are. */
    method FreeKept(m: Mbuf, log: FreeLog, ghost ds: Descs, ghost R: set<Mbuf>, ghost w: seq<Mbuf>)
      requires Ready() && Described(w, ds, R)
      requires m in ds && Linked(m, ds[m].ns) && Items(ds[m].ns) == ds[m].xs
      modifies log
      ensures Ready() && Described(w, ds, R) && log.freed == old(log.freed) + Releases(ds[m].xs)
    {
      MFreem(m, log, ds[m].ns);
    }

    /** The next packet of if_snd, which counts as dropped. */
    method TakeLast(ghost ds: Descs, ghost R: set<Mbuf>, ghost w: seq<Mbuf>) returns (m: Mbuf)
      requires w != [] && w == snd.contents && Ready() && Described(w, ds, R) && Described(w[1..], ds, R)
      modifies snd
      ensures Ready() && Described(w[1..], ds, R) && m == w[0] && snd.contents == w[1..]
      ensures m in ds && Linked(m, ds[m].ns) && Items(ds[m].ns) == ds[m].xs
      ensures snd.drops == old(snd.drops) + 1 && snd.maxlen == old(snd.maxlen)
    {
      m := snd.Dequeue();
      snd.Drop();
    }

    /** The packet is now the last of the queue that this type of service picks, and the other queue is as
        it was. */
    twostate predicate TosPicks(tos: byte, m: Mbuf)
      reads fastq, snd
    {
      if tos % 32 >= 16 then fastq.contents == old(fastq.contents) + [m] && snd.contents == old(snd.contents)
      else snd.contents == old(snd.contents) + [m] && fastq.contents == old(fastq.contents)
    }

    /** The part of sloutput before slstart: refuse and free the packet, or queue it by its type of
        service.  `carrier` is the test of t_state and t_flags, `noicmp` the bit SC_NOICMP of if_flags. */
    method Admit(m: Mbuf, family: nat, attached: bool, carrier: bool, noicmp: bool, log: FreeLog,
                 ghost head: seq<byte>, ghost ns: seq<Mbuf>)
        returns (errno: nat)
      requires Ready() && m !in fastq.contents && m !in snd.contents && Linked(m, ns)
      requires head == Stored(m) && (family == AF_INET && attached && carrier ==> HeadStored(head, noicmp))
      modifies this`noproto, this`oerrors, fastq, snd, fastq.contents`nextpkt, snd.contents`nextpkt, m`nextpkt, log
      ensures Ready()
      ensures errno == Refusal(family, attached, carrier, noicmp, head, old(fastq.Full()), old(snd.Full()))
      ensures fastq.contents == Entered(old(fastq.contents), errno == 0 && LowDelay(head), m)
      ensures snd.contents == Entered(old(snd.contents), errno == 0 && !LowDelay(head), m)
      ensures errno == 0 ==> |head| > 1 && TosPicks(head[1], m)
      ensures fastq.drops == old(fastq.drops) + if errno == ENOBUFS && LowDelay(head) then 1 else 0
      ensures snd.drops == old(snd.drops) + if errno == ENOBUFS && !LowDelay(head) then 1 else 0
      ensures log.freed == old(log.freed) + if errno == 0 then [] else old(Releases(Items(ns)))
      ensures noproto == old(noproto) + if errno == EAFNOSUPPORT then 1 else 0
      ensures oerrors == old(oerrors) + if errno == ENOBUFS then 1 else 0
    {
      errno := Screen(m, family, attached, carrier, noicmp, head);
      if errno == 0 {
        LowDelayIsBit(head);
        errno := Pick(m, m.dat[m.off + 1] / IPTOS_LOWDELAY % 2 == 1, log, ns);
      } else {
        MFreem(m, log, ns);
      }
    }

    /** The refusals that come before the queue is looked at. */
    method Screen(m: Mbuf, family: nat, attached: bool, carrier: bool, noicmp: bool, ghost head: seq<byte>)
        returns (errno: nat)
      requires head == Stored(m) && (family == AF_INET && attached && carrier ==> HeadStored(head, noicmp))
      modifies this`noproto
      ensures errno == Refusal(family, attached, carrier, noicmp, head, false, false)
      ensures noproto == old(noproto) + if errno == EAFNOSUPPORT then 1 else 0
    {
      if family != AF_INET {
        noproto := noproto + 1;
        return EAFNOSUPPORT;
      }
      if !attached {
        return ENETDOWN;
      }
      if !carrier {
        return EHOSTUNREACH;
      }
      if noicmp && m.dat[m.off + 9] == IPPROTO_ICMP {
        return ENETRESET;
      }
      return 0;
    }

    /** The queue is picked by the type of service. */
    method Pick(m: Mbuf, low: bool, log: FreeLog, ghost ns: seq<Mbuf>) returns (errno: nat)
      requires Ready() && m !in fastq.contents && m !in snd.contents && Linked(m, ns)
      modifies this`oerrors, fastq, snd, fastq.contents`nextpkt, snd.contents`nextpkt, m`nextpkt, log
      ensures Ready()
      ensures errno == if (if low then old(fastq.Full()) else old(snd.Full())) then ENOBUFS else 0
      ensures fastq.contents == Entered(old(fastq.contents), errno == 0 && low, m)
      ensures snd.contents == Entered(old(snd.contents), errno == 0 && !low, m)
      ensures fastq.drops == old(fastq.drops) + if errno == ENOBUFS && low then 1 else 0
      ensures snd.drops == old(snd.drops) + if errno == ENOBUFS && !low then 1 else 0
      ensures log.freed == old(log.freed) + if errno == 0 then [] else old(Releases(Items(ns)))
      ensures oerrors == old(oerrors) + if errno == ENOBUFS then 1 else 0
    {
      if low {
        errno := Join(fastq, m, log, ns, snd);
      } else {
        errno := Join(snd, m, log, ns, fastq);
      }
    }

    /** The queue test of sloutput. */
    method Join(q: Ifqueue, m: Mbuf, log: FreeLog, ghost ns: seq<Mbuf>, ghost other: Ifqueue) returns (errno: nat)
      requires q.Valid() && m !in q.contents && Linked(m, ns)
      requires other.Valid() && other != q && m !in other.contents
      requires forall i, j {:trigger q.contents[i], other.contents[j]} ::
        0 <= i < |q.contents| && 0 <= j < |other.contents| ==> q.contents[i] != other.contents[j]
      modifies this`oerrors, q, q.contents`nextpkt, m`nextpkt, log
      ensures other.Valid()
      ensures q.Valid() && errno == (if old(q.Full()) then ENOBUFS else 0) && Taken(q, m)
      ensures log.freed == old(log.freed) + if errno == 0 then [] else old(Releases(Items(ns)))
      ensures oerrors == old(oerrors) + if errno == 0 then 0 else 1
    {
      var queued := Offer(q, m, log, ns);
      errno := 0;
      if !queued {
        oerrors := oerrors + 1;
        errno := ENOBUFS;
      }
    }
  }

  /** The release of these packets, in order. */
  function AllReleases(ms: seq<Mbuf>, ds: Descs): seq<Freed>
    requires forall m <- ms :: m in ds
  {
    if ms == [] then [] else Releases(ds[ms[0]].xs) + AllReleases(ms[1..], ds)
  }

  lemma ReleasesStep(ms: seq<Mbuf>, ds: Descs, done: seq<Freed>)
    requires ms != [] && forall m <- ms :: m in ds
    ensures (done + Releases(ds[ms[0]].xs)) + AllReleases(ms[1..], ds) == done + AllReleases(ms, ds)
  {
    Assoc(done, Releases(ds[ms[0]].xs), AllReleases(ms[1..], ds));
  }

  const IPHDR := 20
  const AF_INET := 2
  const IPPROTO_ICMP := 1
  const IPTOS_LOWDELAY := 0x10
  const EAFNOSUPPORT := 47
  const ENETDOWN := 50
  const ENETRESET := 52
  const ENOBUFS := 55
  const EHOSTUNREACH := 65

  /** What is stored from m_data on, which is what sloutput reads as an IP header, whatever m_len is. */
  ghost function Stored(m: Mbuf): seq<byte>
    reads m`dat, m`off
  {
    if m.off <= |m.dat| then m.dat[m.off..] else []
  }

  /** The fields of the header that sloutput reads lie in the storage of the first mbuf. */
  predicate HeadStored(head: seq<byte>, noicmp: bool) {
    |head| >= if noicmp then 10 else 2
  }

  /** When the first mbuf has a whole IP header, what is read is the packet's own. */
  lemma StoredIsHeader(m: Mbuf, head: seq<byte>)
    requires m.Fits() && m.Bytes() == head && |head| >= IPHDR
    ensures |Stored(m)| > 9 && Stored(m)[1] == head[1] && Stored(m)[9] == head[9]
    ensures HeadStored(Stored(m), true) && LowDelay(Stored(m)) == LowDelay(head) && IsIcmp(Stored(m)) == IsIcmp(head)
  {
    assert Stored(m)[1] == head[1] && Stored(m)[9] == head[9];
  }

  /** It is bit 4 of the second byte. */
  lemma LowDelayIsBit(head: seq<byte>)
    ensures LowDelay(head) <==> |head| > 1 && head[1] % 32 >= 16
  {
    if |head| > 1 {
      var b := head[1];
      assert b / 16 % 2 == b % 32 / 16;
    }
  }

  /** Bit IPTOS_LOWDELAY of ip_tos. */
  predicate LowDelay(head: seq<byte>) {
    |head| > 1 && head[1] / IPTOS_LOWDELAY % 2 == 1
  }

  predicate IsIcmp(head: seq<byte>) {
    |head| > 9 && head[9] == IPPROTO_ICMP
  }

  /** Why sloutput refuses a packet; 0 when it does not. */
  function Refusal(family: nat, attached: bool, carrier: bool, noicmp: bool, head: seq<byte>,
                   fastFull: bool, sndFull: bool): nat {
    if family != AF_INET then EAFNOSUPPORT
    else if !attached then ENETDOWN
    else if !carrier then EHOSTUNREACH
    else if noicmp && IsIcmp(head) then ENETRESET
    else if (if LowDelay(head) then fastFull else sndFull) then ENOBUFS
    else 0
  }

  /** The errors, as numbers, and what each is for. */
  lemma RefusedFor(family: nat, attached: bool, carrier: bool, noicmp: bool, head: seq<byte>,
                   fastFull: bool, sndFull: bool)
    requires family == 2 && attached && carrier ==> HeadStored(head, noicmp)
    ensures var e := Refusal(family, attached, carrier, noicmp, head, fastFull, sndFull);
            var lineUp := family == 2 && attached && carrier;
            && (e == 47 <==> family != 2) && (e == 50 <==> family == 2 && !attached)
            && (e == 65 <==> family == 2 && attached && !carrier)
            && (e == 52 <==> lineUp && noicmp && head[9] == 1)
            && (e == 55 <==> lineUp && !(noicmp && head[9] == 1) && if head[1] % 32 >= 16 then fastFull else sndFull)
            && (e == 0 || e in [47, 50, 65, 52, 55])
  {
    LowDelayIsBit(head);
  }

  /** The packets taken are the first of those that were waiting, and the others still wait. */
  ghost predicate Took(txs: seq<Tx>, before: seq<Mbuf>, after: seq<Mbuf>) {
    && |txs| <= |before| && after == before[|txs|..]
    && forall i :: 0 <= i < |txs| ==> txs[i].m == before[i]
  }

  function LessBy(n: nat, k: nat): nat {
    if k <= n then n - k else 0
  }

  function Collisions(form: Form, ds: Descs, txs: seq<Tx>): nat {
    if txs == [] then 0
    else Collisions(form, ds, txs[..|txs| - 1]) + Collides(form, ds, txs[|txs| - 1])
  }

  lemma CollisionsMore(form: Form, ds: Descs, txs: seq<Tx>, t: Tx)
    ensures Collisions(form, ds, txs + [t]) == Collisions(form, ds, txs) + Collides(form, ds, t)
  {
    assert (txs + [t])[..|txs|] == txs;
  }

  lemma HandledFront(form: Form, ds: Descs, txs: seq<Tx>)
    requires AllHandled(form, ds, txs) && txs != []
    ensures Handled(form, ds, txs[|txs| - 1]) && AllHandled(form, ds, txs[..|txs| - 1])
  {
  }

  lemma CollidesOnce(form: Form, ds: Descs, t: Tx)
    requires Handled(form, ds, t)
    ensures Collides(form, ds, t) <= 1 && (Collides(form, ds, t) == 0 <==> InFull(form, ds, t))
  {
  }

  /** if_collisions does not move exactly when every packet was framed in full, and never by more than one for
      a packet. */
  lemma {:induction false} NoCollisions(form: Form, ds: Descs, txs: seq<Tx>)
    requires AllHandled(form, ds, txs)
    ensures Collisions(form, ds, txs) <= |txs|
    ensures Collisions(form, ds, txs) == 0 <==> AllInFull(form, ds, txs)
    decreases |txs|
  {
    if txs == [] {
    } else {
      HandledFront(form, ds, txs);
      CollidesOnce(form, ds, txs[|txs| - 1]);
      NoCollisions(form, ds, txs[..|txs| - 1]);
    }
  }

  predicate AllInFull(form: Form, ds: Descs, txs: seq<Tx>)
    decreases |txs|
  {
    txs != [] ==> InFull(form, ds, txs[|txs| - 1]) && AllInFull(form, ds, txs[..|txs| - 1])
  }

  predicate InFull(form: Form, ds: Descs, t: Tx) {
    t.m in ds && !t.freed && t.bytes == Frame(form, t.lead, ds[t.m].ss)
  }

  lemma TookMore(txs: seq<Tx>, t: Tx, before: seq<Mbuf>, after: seq<Mbuf>)
    requires Took(txs, before, after) && after != [] && t.m == after[0]
    ensures Took(txs + [t], before, after[1..])
  {
  }

  /** Each packet taken was framed, or freed. */
  ghost predicate AllHandled(form: Form, ds: Descs, txs: seq<Tx>) {
    forall i {:trigger txs[i]} :: 0 <= i < |txs| ==> Handled(form, ds, txs[i])
  }

  lemma HandledMore(form: Form, ds: Descs, txs: seq<Tx>, t: Tx)
    requires AllHandled(form, ds, txs) && Handled(form, ds, t)
    ensures AllHandled(form, ds, txs + [t])
  {
  }

  datatype Progress = Progress(waiting: seq<Mbuf>, fast: nat, wire: seq<byte>, collisions: nat, omcasts: nat,
                               obytes: nat, freed: seq<Freed>, room: nat, total: nat)

  /** txs accounts for what slstart has done from p0 to p: the packets taken are the first of those
      waiting, each was framed or freed, the wire has grown by their frames, if_collisions by those freed
      or cut short, if_omcasts by the interactive ones, and if_obytes by what each counts; and what has been
      released is the mbufs and buffers of these packets, in order, and nothing else. */
  ghost predicate Accounts(form: Form, ds: Descs, txs: seq<Tx>, p0: Progress, p: Progress) {
    && Took(txs, p0.waiting, p.waiting) && p.fast == LessBy(p0.fast, |txs|)
    && AllHandled(form, ds, txs)
    && p.freed == p0.freed + Released(txs) && p.obytes == p0.obytes + Counts(txs)
    && p.wire == p0.wire + SentBytes(txs)
    && p.collisions == p0.collisions + Collisions(form, ds, txs)
    && p.omcasts == p0.omcasts + p0.fast - p.fast
    && p.total == p0.total && Rooms(txs, p0.room, p0.total, p.room)
  }

  /** The line when this packet was taken: at most 96 of `total` bytes were in use, and a leading FRAME_END was
      sent exactly when none was. */
  predicate OnLine(p: Progress, t: Tx) {
    && p.room <= t.room <= p.total && p.total - t.room <= 96
    && (t.lead <==> !t.freed && t.room == p.total) && |t.bytes| <= t.room
  }

  /** The room goes down by what is sent of each packet, and up when the driver has taken some bytes. */
  predicate Rooms(txs: seq<Tx>, r0: nat, total: nat, r: int)
    decreases |txs|
  {
    if txs == [] then r0 <= r
    else
      var t := txs[|txs| - 1];
      && Rooms(txs[..|txs| - 1], r0, total, t.room) && t.room - |t.bytes| <= r
      && total - t.room <= 96 && (t.lead <==> !t.freed && t.room == total)
  }

  lemma RoomsMore(txs: seq<Tx>, t: Tx, r0: nat, p: Progress)
    requires Rooms(txs, r0, p.total, p.room) && OnLine(p, t)
    ensures Rooms(txs + [t], r0, p.total, t.room - |t.bytes|)
  {
    assert (txs + [t])[..|txs|] == txs;
  }

  /** Nothing has happened but that the driver has taken some bytes. */
  predicate Paused(p: Progress, q: Progress) {
    p.room <= q.room && q == p.(room := q.room)
  }

  lemma TurnAfterPause(form: Form, ds: Descs, p: Progress, q: Progress, r: Progress, t: Tx)
    requires Paused(p, q) && OneTurn(form, ds, q, r, t)
    ensures OneTurn(form, ds, p, r, t)
  {
  }

  lemma AccountsPaused(form: Form, ds: Descs, txs: seq<Tx>, p0: Progress, p: Progress, q: Progress)
    requires Accounts(form, ds, txs, p0, p) && Paused(p, q)
    ensures Accounts(form, ds, txs, p0, q)
  {
  }

  /** A turn takes the packet at the front and sends or frees it. */
  ghost predicate OneTurn(form: Form, ds: Descs, p: Progress, q: Progress, t: Tx) {
    && p.waiting != [] && t.m == p.waiting[0] && q.waiting == p.waiting[1..] && q.fast == Less(p.fast)
    && Handled(form, ds, t) && q.wire == p.wire + t.bytes
    && q.freed == p.freed + t.released && q.obytes == p.obytes + t.count
    && q.collisions == p.collisions + Collides(form, ds, t)
    && q.omcasts == p.omcasts + p.fast - q.fast
    && OnLine(p, t) && q.room == t.room - |t.bytes| && q.total == p.total
  }

  function NextTaken(p: Progress): Progress
    requires p.waiting != []
  {
    p.(waiting := p.waiting[1..], fast := Less(p.fast), omcasts := p.omcasts + p.fast - Less(p.fast))
  }

  lemma TurnMade(form: Form, ds: Descs, p: Progress, q: Progress, r: Progress, t: Tx)
    requires p.waiting != [] && t.m == p.waiting[0] && Handled(form, ds, t)
    requires q == NextTaken(p) && OnLine(q, t) && t.room == q.room
    requires r == Disposed(q, t, Collides(form, ds, t))
    ensures OneTurn(form, ds, p, r, t)
  {
  }

  /** What sending or freeing a packet changes. */
  function Disposed(q: Progress, t: Tx, collides: nat): Progress {
    q.(wire := q.wire + t.bytes, freed := q.freed + t.released, obytes := q.obytes + t.count,
       collisions := q.collisions + collides, room := LessBy(q.room, |t.bytes|))
  }

  lemma AccountsNone(form: Form, ds: Descs, p: Progress)
    ensures Accounts(form, ds, [], p, p)
  {
    assert p.wire + SentBytes([]) == p.wire && p.freed + Released([]) == p.freed;
  }

  lemma AccountsMore(form: Form, ds: Descs, txs: seq<Tx>, t: Tx, p0: Progress, p: Progress, q: Progress)
    requires Accounts(form, ds, txs, p0, p)
    requires OneTurn(form, ds, p, q, t)
    ensures Accounts(form, ds, txs + [t], p0, q)
  {
    SentBytesMore(txs, t);
    CollisionsMore(form, ds, txs, t);
    TookMore(txs, t, p0.waiting, p.waiting);
    HandledMore(form, ds, txs, t);
    CountsMore(txs, t);
    RoomsMore(txs, t, p0.room, p);
    Assoc(p0.wire, SentBytes(txs), t.bytes);
    Assoc(p0.freed, Released(txs), t.released);
  }

  /** One less, if there is one. */
  function Less(n: nat): nat {
    if n == 0 then 0 else n - 1
  }

  predicate InR(ns: seq<Mbuf>, R: set<Mbuf>) {
    forall n <- ns :: n in R
  }

  /** Each of these packets is the chain of these nodes, all in R, with these bytes. */
  ghost predicate Described(ms: seq<Mbuf>, ds: Descs, R: set<Mbuf>)
    reads R`next, R`dat, R`off, R`len, R`ext, R`extbuf
  {
    && (forall m <- ms :: m in ds)
    && (forall m {:trigger ds[m]} :: m in ms ==>
          && m in R && InR(ds[m].ns, R) && Linked(m, ds[m].ns) && Holds(ds[m].ns, ds[m].ss)
          && Items(ds[m].ns) == ds[m].xs && Stored(m) == ds[m].head)
  }

  lemma DescribedAt(ms: seq<Mbuf>, m: Mbuf, ds: Descs, R: set<Mbuf>)
    requires Described(ms, ds, R) && m in ms
    ensures m in ds && m in R && Linked(m, ds[m].ns) && Holds(ds[m].ns, ds[m].ss)
    ensures Items(ds[m].ns) == ds[m].xs && Stored(m) == ds[m].head
  {
  }

  lemma DescribedTail(ms: seq<Mbuf>, k: nat, ds: Descs, R: set<Mbuf>)
    requires k <= |ms| && Described(ms, ds, R)
    ensures Described(ms[k..], ds, R)
  {
  }

  lemma DescribedSome(ms: seq<Mbuf>, some: seq<Mbuf>, ds: Descs, R: set<Mbuf>)
    requires Described(ms, ds, R) && forall m <- some :: m in ms
    ensures Described(some, ds, R)
  {
  }

  /** What sloutput makes of the queues before it starts the transmitter: m is the last of its class,
      unless it was refused and freed. */
  function Joined(p: Progress, errno: nat, m: Mbuf, d: Desc, fast: seq<Mbuf>, snd: seq<Mbuf>): Progress {
    var low := LowDelay(d.head);
    p.(waiting := Entered(fast, errno == 0 && low, m) + Entered(snd, errno == 0 && !low, m),
       fast := |Entered(fast, errno == 0 && low, m)|, freed := p.freed + if errno == 0 then [] else Releases(d.xs))
  }

  lemma JoinedFrom(p: Progress, q: Progress, errno: nat, m: Mbuf, d: Desc, f0: seq<Mbuf>, s0: seq<Mbuf>,
                   f1: seq<Mbuf>, s1: seq<Mbuf>)
    requires q.waiting == f1 + s1 && q.fast == |f1| && q.wire == p.wire && q.room == p.room && q.total == p.total
    requires q.collisions == p.collisions && q.omcasts == p.omcasts && q.obytes == p.obytes
    requires q.freed == p.freed + if errno == 0 then [] else Releases(d.xs)
    requires f1 == Entered(f0, errno == 0 && LowDelay(d.head), m)
    requires s1 == Entered(s0, errno == 0 && !LowDelay(d.head), m)
    ensures q == Joined(p, errno, m, d, f0, s0)
  {
  }

  lemma JoinedWait(p: Progress, errno: nat, m: Mbuf, d: Desc, fast: seq<Mbuf>, snd: seq<Mbuf>)
    ensures forall x <- Joined(p, errno, m, d, fast, snd).waiting :: x in (fast + snd) + [m]
  {
  }

  /** m is the last in this queue, if it is put there. */
  function Entered(q: seq<Mbuf>, put: bool, m: Mbuf): seq<Mbuf> {
    if put then q + [m] else q
  }

  /** slstart takes from the front of each queue, and from the second only when the first is used up. */
  lemma ClassesKeepOrder(f0: seq<Mbuf>, s0: seq<Mbuf>, f1: seq<Mbuf>, s1: seq<Mbuf>, k: nat)
    requires k <= |f0 + s0| && f1 + s1 == (f0 + s0)[k..] && |f1| == LessBy(|f0|, k)
    ensures f1 == f0[Min(k, |f0|)..] && s1 == s0[k - Min(k, |f0|)..]
  {
    var all, j := f0 + s0, Min(k, |f0|);
    assert f1 == (f1 + s1)[..|f1|] == all[k..][..|f1|];
    assert s1 == (f1 + s1)[|f1|..] == all[k..][|f1|..];
    assert all[k..][..|f1|] == f0[j..];
    assert all[k..][|f1|..] == s0[k - j..];
  }

  /** A packet was freed, or framed; all of it is released, as far as MFREE goes. */
  predicate Handled(form: Form, ds: Descs, t: Tx) {
    t.m in ds && HandledAs(form, ds[t.m].ss, ds[t.m].xs, t)
  }

  predicate HandledAs(form: Form, ss: Chain, xs: seq<Item>, t: Tx) {
    if t.freed
    then t.room < 1320 && t.bytes == [] && t.released == Releases(xs) && t.count == 0
    else t.room >= 1320 && t.bytes == Cut(Lead(t.lead) + BodyWire(form, ss), t.room)
         && FramedRight(form, ss, t) && t.released == MacroReleases(form, xs) && t.count == FrameCount(form, ss, t)
  }

  /** What a packet adds to if_collisions: one when it was freed or cut short. */
  function Collides(form: Form, ds: Descs, t: Tx): nat {
    if t.m in ds then CollidesAs(form, ds[t.m].ss, t) else 1
  }

  function CollidesAs(form: Form, ss: Chain, t: Tx): nat {
    if t.freed || t.bytes != Frame(form, t.lead, ss) then 1 else 0
  }
}
