/** Whole runs of the serial line: scheduling, and sender and receiver put together (net/if_sl.c). */
module SlipRun {
  import opened Bytes
  import opened Pieces
  import opened Mbufs
  import opened MbufFree
  import opened Ifqueues
  import opened SlipCodec
  import opened SlipWire
  import opened SlipLine

  // ---------- from the transmitter to the wire ----------

  /** A packet whose frame is sure to fit into the clists that must be free before it is begun. */
  predicate Short(ss: Chain) {
    Total(ss) + Specials(Concat(ss)) + 2 <= CLISTRESERVE + SLMTU
  }

  /** Such a packet is never cut short, whatever the line is doing. */
  lemma ShortIsFramedInFull(ss: Chain, t: Tx)
    requires Short(ss) && FramedRight(Repaired, ss, t)
    ensures t.bytes == Frame(Repaired, t.lead, ss)
  {
    BodyIsEscaped(ss);
    EscapeShape(Concat(ss));
  }

  /** The packets that were sent and not freed, in order. */
  function Sent(ds: Descs, txs: seq<Tx>): seq<seq<byte>> {
    if txs == [] then []
    else (if txs[0].freed || txs[0].m !in ds then [] else [Concat(ds[txs[0].m].ss)]) + Sent(ds, txs[1..])
  }

  /** The extra FRAME_ENDs before each of them. */
  function Leads(ds: Descs, txs: seq<Tx>): (r: seq<nat>)
    ensures |r| == |Sent(ds, txs)|
  {
    if txs == [] then []
    else (if txs[0].freed || txs[0].m !in ds then [] else [if txs[0].lead then 1 else 0]) + Leads(ds, txs[1..])
  }

  lemma {:induction false} SentBytesFront(txs: seq<Tx>)
    requires txs != []
    ensures SentBytes(txs) == txs[0].bytes + SentBytes(txs[1..])
    decreases |txs|
  {
    var n := |txs| - 1;
    if n == 0 {
      assert txs[..0] == [] && txs[1..] == [];
    } else {
      SentBytesFront(txs[..n]);
      var middle := SentBytes(txs[..n][1..]);
      assert SentBytes(txs[1..]) == middle + txs[n].bytes by {
        assert txs[..n][1..] == txs[1..][..n - 1];
      }
      assert (txs[0].bytes + middle) + txs[n].bytes == txs[0].bytes + (middle + txs[n].bytes);
    }
  }

  /** No packet was cut short. */
  predicate AllFull(ds: Descs, txs: seq<Tx>) {
    forall i {:trigger txs[i]} :: 0 <= i < |txs| && !txs[i].freed && txs[i].m in ds ==>
      txs[i].bytes == Frame(Repaired, txs[i].lead, ds[txs[i].m].ss)
  }

  /** As when each of them is short. */
  lemma AllShortAreFull(ds: Descs, txs: seq<Tx>)
    requires AllHandled(Repaired, ds, txs)
    requires forall i {:trigger txs[i]} :: 0 <= i < |txs| ==> txs[i].m in ds ==> Short(ds[txs[i].m].ss)
    ensures AllFull(ds, txs)
  {
    forall i {:trigger txs[i]} | 0 <= i < |txs| && !txs[i].freed && txs[i].m in ds
      ensures txs[i].bytes == Frame(Repaired, txs[i].lead, ds[txs[i].m].ss)
    {
      assert Handled(Repaired, ds, txs[i]);
      ShortIsFramedInFull(ds[txs[i].m].ss, txs[i]);
    }
  }

  /** What the transmitter has put on the wire is the wire of the packets it did not free, when none was
      cut short. */
  lemma {:induction false} SentIsWire(ds: Descs, txs: seq<Tx>)
    requires AllHandled(Repaired, ds, txs) && AllFull(ds, txs)
    ensures SentBytes(txs) == Wire(Sent(ds, txs), Leads(ds, txs))
    decreases |txs|
  {
    if txs == [] {
    } else {
      SentBytesFront(txs);
      TheRest(ds, txs);
      SentIsWire(ds, txs[1..]);
      FirstOnWire(ds, txs);
    }
  }

  lemma TheRest(ds: Descs, txs: seq<Tx>)
    requires txs != [] && AllHandled(Repaired, ds, txs)
    ensures txs[0].m in ds && Handled(Repaired, ds, txs[0]) && AllHandled(Repaired, ds, txs[1..])
    ensures AllFull(ds, txs) <==>
              (txs[0].freed || txs[0].bytes == Frame(Repaired, txs[0].lead, ds[txs[0].m].ss)) && AllFull(ds, txs[1..])
  {
    var rest := txs[1..];
    assert forall i {:trigger rest[i]} :: 0 <= i < |rest| ==> rest[i] == txs[i + 1];
    assert forall i {:trigger txs[i]} :: 1 <= i < |txs| ==> rest[i - 1] == txs[i];
  }

  lemma FirstOnWire(ds: Descs, txs: seq<Tx>)
    requires txs != [] && AllHandled(Repaired, ds, txs) && AllFull(ds, txs)
    ensures Wire(Sent(ds, txs), Leads(ds, txs)) == txs[0].bytes + Wire(Sent(ds, txs[1..]), Leads(ds, txs[1..]))
  {
    var t, ps, leads := txs[0], Sent(ds, txs[1..]), Leads(ds, txs[1..]);
    assert t.m in ds && Handled(Repaired, ds, t);
    if t.freed {
      assert Sent(ds, txs) == ps && Leads(ds, txs) == leads && t.bytes == [];
    } else {
      var p, lead := Concat(ds[t.m].ss), if t.lead then 1 else 0;
      assert Sent(ds, txs) == [p] + ps && Leads(ds, txs) == [lead] + leads;
      BodyIsEscaped(ds[t.m].ss);
      WireCons(p, lead, ps, leads);
    }
  }

  lemma WireCons(p: seq<byte>, lead: nat, ps: seq<seq<byte>>, leads: seq<nat>)
    requires |ps| == |leads| && lead <= 1
    ensures Wire([p] + ps, [lead] + leads)
         == ((if lead == 1 then [FRAME_END] else []) + Escape(p) + [FRAME_END]) + Wire(ps, leads)
  {
    assert ([p] + ps)[1..] == ps && ([lead] + leads)[1..] == leads;
    assert Ends(lead) == if lead == 1 then [FRAME_END] else [];
  }

  // ---------- end to end ----------

  /** The escaped bytes of the packet that a frame has: all of them, or the first when it was cut short. */
  function BodyOf(t: Tx): seq<byte> {
    var n := |Lead(t.lead)|;
    if n < |t.bytes| then t.bytes[n..|t.bytes| - 1] else []
  }

  /** The packets that arrive, one for each that was sent. */
  function Arrived(ds: Descs, txs: seq<Tx>): seq<seq<byte>> {
    if txs == [] then []
    else (if txs[0].freed || txs[0].m !in ds then [] else [Unescape(BodyOf(txs[0]), false)]) + Arrived(ds, txs[1..])
  }

  /** The body of a frame is the first bytes of the escaped packet, and all of them when the frame was not
      cut short. */
  lemma BodyIsPart(ss: Chain, t: Tx)
    requires FramedRight(Repaired, ss, t)
    ensures var b, e := BodyOf(t), Escape(Concat(ss));
            && t.bytes == Lead(t.lead) + b + [FRAME_END] && |b| <= |e| && b == e[..|b|]
            && (|b| == |e| <==> t.bytes == Frame(Repaired, t.lead, ss))
            && (|b| < |e| ==> |b| + 2 >= CLISTRESERVE + SLMTU)
  {
    BodyIsEscaped(ss);
    var l, e := Lead(t.lead), Escape(Concat(ss));
    if t.bytes == l + e + [FRAME_END] {
      Middle(l, e, [FRAME_END]);
      assert e[..|e|] == e;
    } else {
      var k := |t.bytes| - 1;
      CutMiddle(l, e, k);
      Middle(l, e[..k - |l|], [FRAME_END]);
    }
  }

  lemma Middle(l: seq<byte>, b: seq<byte>, e: seq<byte>)
    ensures (l + b + e)[|l|..|l| + |b|] == b
  {
  }

  lemma CutMiddle(l: seq<byte>, e: seq<byte>, k: nat)
    requires |l| <= k < |l| + |e|
    ensures (l + e + [FRAME_END])[..k] == l + e[..k - |l|]
  {
  }

  /** What becomes of one packet: its first bytes arrive, and all of them exactly when its frame was not cut
      short. */
  lemma FirstArrives(ss: Chain, t: Tx, rest: seq<byte>)
    requires FramedRight(Repaired, ss, t) && Carried(Concat(ss))
    ensures var p, q := Concat(ss), Unescape(BodyOf(t), false);
            && Delivered(Repaired, FRESH, Chars(t.bytes + rest)) == [q] + Delivered(Repaired, FRESH, Chars(rest))
            && |q| <= |p| && q == p[..|q|]
            && (q == p <==> t.bytes == Frame(Repaired, t.lead, ss))
  {
    var b, e := BodyOf(t), Escape(Concat(ss));
    BodyIsPart(ss, t);
    UnescapePart(Concat(ss), |b|);
    PartArrives(Concat(ss), |b|, |Lead(t.lead)|, rest);
    assert Ends(|Lead(t.lead)|) == Lead(t.lead);
    FrameThenRest(Lead(t.lead), b, rest);
  }

  /** A frame of a part of a packet hands up the bytes that part stands for. */
  lemma PartArrives(p: seq<byte>, j: nat, lead: nat, rest: seq<byte>)
    requires Carried(p) && j <= |Escape(p)| && (j < |Escape(p)| ==> j > 6)
    ensures var b := Escape(p)[..j];
            Delivered(Repaired, FRESH, Chars(Ends(lead) + (b + [FRAME_END] + rest)))
            == [Unescape(b, false)] + Delivered(Repaired, FRESH, Chars(rest))
  {
    var b := Escape(p)[..j];
    PartHeld(p, j);
    FeedEnds(Repaired, lead);
    FeedTwo(Repaired, FRESH, Ends(lead), b + [FRAME_END] + rest);
    FeedFrame(Repaired, FRESH, b, rest);
  }

  lemma FrameThenRest(lead: seq<byte>, b: seq<byte>, rest: seq<byte>)
    ensures (lead + b + [FRAME_END]) + rest == lead + (b + [FRAME_END] + rest)
  {
    Assoc(lead, b, [FRAME_END]);
    Assoc(lead, b + [FRAME_END], rest);
  }

  lemma PartHeld(p: seq<byte>, j: nat)
    requires Carried(p) && j <= |Escape(p)| && (j < |Escape(p)| ==> j > 6)
    ensures var b := Escape(p)[..j];
            && Delivered(Repaired, FRESH, Chars(b)) == []
            && Handed(Run(Repaired, FRESH, Chars(b)), Clean(FRAME_END)) == [Unescape(b, false)]
  {
    var b := Escape(p)[..j];
    UnescapePart(p, j);
    EscapeShape(p);
    CleanLine(b);
    InsideFrame(Repaired, FRESH, Chars(b));
    assert FRESH.buf + Unescape(b, false) == Unescape(b, false);
  }

  /** One packet arrives for each that was sent, and it is the first bytes of that one. */
  predicate Parts(qs: seq<seq<byte>>, ps: seq<seq<byte>>) {
    |qs| == |ps| && forall i {:trigger qs[i]} {:trigger ps[i]} :: 0 <= i < |qs| ==> qs[i] <= ps[i]
  }

  lemma PartsCons(q: seq<byte>, p: seq<byte>, qs: seq<seq<byte>>, ps: seq<seq<byte>>)
    requires Parts(qs, ps) && q <= p
    ensures Parts([q] + qs, [p] + ps) && ([q] + qs == [p] + ps <==> q == p && qs == ps)
  {
    assert ([q] + qs)[1..] == qs && ([p] + ps)[1..] == ps;
    assert ([q] + qs)[0] == q && ([p] + ps)[0] == p;
  }

  predicate AllCarried(ps: seq<seq<byte>>) {
    forall p <- ps :: Carried(p)
  }

  /** The first of the packets taken, and the others. */
  lemma FirstSent(ds: Descs, txs: seq<Tx>)
    requires txs != [] && Handled(Repaired, ds, txs[0]) && AllCarried(Sent(ds, txs))
    ensures AllCarried(Sent(ds, txs[1..]))
    ensures var t := txs[0];
            if t.freed
            then t.bytes == [] && Sent(ds, txs) == Sent(ds, txs[1..]) && Arrived(ds, txs) == Arrived(ds, txs[1..])
            else t.m in ds && Carried(Concat(ds[t.m].ss))
                 && Sent(ds, txs) == [Concat(ds[t.m].ss)] + Sent(ds, txs[1..])
                 && Arrived(ds, txs) == [Unescape(BodyOf(t), false)] + Arrived(ds, txs[1..])
  {
    if !txs[0].freed {
      CarriedCons(Concat(ds[txs[0].m].ss), Sent(ds, txs[1..]));
    }
  }

  lemma CarriedCons(p: seq<byte>, ps: seq<seq<byte>>)
    requires AllCarried([p] + ps)
    ensures Carried(p) && AllCarried(ps)
  {
    assert ([p] + ps)[0] == p && forall q <- ps :: q in [p] + ps;
  }

  lemma {:induction false} ArrivedIsDelivered(ds: Descs, txs: seq<Tx>)
    requires AllHandled(Repaired, ds, txs) && AllCarried(Sent(ds, txs))
    ensures Delivered(Repaired, FRESH, Chars(SentBytes(txs))) == Arrived(ds, txs)
    decreases |txs|
  {
    if txs == [] {
      assert Chars([]) == [];
    } else {
      var t, rest := txs[0], SentBytes(txs[1..]);
      TheRest(ds, txs);
      FirstSent(ds, txs);
      SentBytesFront(txs);
      ArrivedIsDelivered(ds, txs[1..]);
      if t.freed {
        assert t.bytes + rest == rest;
      } else {
        FirstArrives(ds[t.m].ss, t, rest);
      }
    }
  }

  lemma {:induction false} ArrivedIsSent(ds: Descs, txs: seq<Tx>)
    requires AllHandled(Repaired, ds, txs) && AllCarried(Sent(ds, txs))
    ensures Parts(Arrived(ds, txs), Sent(ds, txs))
    ensures Arrived(ds, txs) == Sent(ds, txs) <==> AllFull(ds, txs)
    decreases |txs|
  {
    if txs == [] {
    } else {
      var t, rest := txs[0], txs[1..];
      TheRest(ds, txs);
      FirstSent(ds, txs);
      ArrivedIsSent(ds, rest);
      if !t.freed {
        FirstArrives(ds[t.m].ss, t, []);
        PartsCons(Unescape(BodyOf(t), false), Concat(ds[t.m].ss), Arrived(ds, rest), Sent(ds, rest));
      }
    }
  }

  /** End to end, for all packets that the line carries: a fresh receiver on a clean line hands up one packet
      for each that the transmitter took and did not free, in the order it took them, and each is the packet
      sent or, when its frame was cut short, its first bytes.  So the packets received are the packets sent
      exactly when no frame was cut short.  The receiver is fresh again at the end. */
  lemma WhatIsSentIsReceived(ds: Descs, txs: seq<Tx>)
    requires AllHandled(Repaired, ds, txs) && AllCarried(Sent(ds, txs))
    ensures var got := Delivered(Repaired, FRESH, Chars(SentBytes(txs)));
            && got == Arrived(ds, txs) && Parts(got, Sent(ds, txs))
            && (got == Sent(ds, txs) <==> AllFull(ds, txs))
    ensures Run(Repaired, FRESH, Chars(SentBytes(txs))) == FRESH
  {
    ArrivedIsDelivered(ds, txs);
    ArrivedIsSent(ds, txs);
    EndsFresh(ds, txs);
  }

  lemma {:induction false} LastIsEnd(ds: Descs, txs: seq<Tx>)
    requires AllHandled(Repaired, ds, txs)
    ensures var w := SentBytes(txs); w != [] ==> w[|w| - 1] == FRAME_END
  {
    if txs == [] {
    } else {
      var n := |txs| - 1;
      LastIsEnd(ds, txs[..n]);
      assert Handled(Repaired, ds, txs[n]);
      assert txs[n].freed ==> SentBytes(txs) == SentBytes(txs[..n]);
    }
  }

  lemma EndsFresh(ds: Descs, txs: seq<Tx>)
    requires AllHandled(Repaired, ds, txs)
    ensures Run(Repaired, FRESH, Chars(SentBytes(txs))) == FRESH
  {
    var w := SentBytes(txs);
    LastIsEnd(ds, txs);
    if w == [] {
      assert Chars(w) == [];
    } else {
      var n := |w| - 1;
      assert w == w[..n] + [FRAME_END] && Chars([FRAME_END]) == [Clean(FRAME_END)];
      FeedTwo(Repaired, FRESH, w[..n], [FRAME_END]);
      FeedOneEnd(Repaired, Run(Repaired, FRESH, Chars(w[..n])));
    }
  }

  /** A packet that is cut short: 1400 bytes sent on an idle line with the least room that slstart begins
      with.  Its first 1318 bytes arrive. */
  lemma FourteenHundredBytes(t: Tx)
    requires t.lead && t.bytes == Cut(Lead(true) + Escape(seq(1400, _ => 0x45)), CLISTRESERVE + SLMTU)
    ensures Delivered(Repaired, FRESH, Chars(t.bytes)) == [seq(1318, _ => 0x45)] && Carried(seq(1400, _ => 0x45))
  {
    var p: seq<byte> := seq(1400, _ => 0x45);
    EscapePlain(p);
    assert (Lead(true) + p)[..1319] == Lead(true) + p[..1318];
    UnescapePart(p, 1318);
    EscapePlain(p[..1318]);
    UnescapeEscape(p[..1318]);
    PartArrives(p, 1318, 1, []);
    assert Ends(1) == Lead(true) && Chars([]) == [] && p[..1318] == seq(1318, _ => 0x45);
    assert t.bytes == Ends(1) + (Escape(p)[..1318] + [FRAME_END] + []);
  }

  // ---------- from the wire to the IP input queue ----------

  /** Each of these mbufs is a packet of one mbuf with these bytes. */
  ghost predicate Are(got: seq<Mbuf>, ps: seq<seq<byte>>)
    reads got`next, got`dat, got`off, got`len, got`pkthdr, got`pktlen
  {
    |got| == |ps| && forall i {:trigger got[i]} :: 0 <= i < |got| ==> IsPacket(got[i], ps[i])
  }

  /** One call of slinput: the argument, and whether the line has carrier. */
  datatype Arrival = Arrival(c: int, carrier: bool)

  predicate Fit(cs: seq<Arrival>) {
    forall a <- cs :: -0x8000_0000 <= a.c < 0x8000_0000
  }

  function Heard(cs: seq<Arrival>): seq<Char>
    requires Fit(cs)
  {
    if cs == [] then [] else [Classify(cs[0].c, cs[0].carrier)] + Heard(cs[1..])
  }

  /** A longer packet, which any frame of it delivers, does not fit the header mbuf that sl_btom copies it
      into. */
  lemma LongFrameOverruns(p: seq<byte>, m: Mbuf)
    requires Carried(p) && |p| > MHLEN && m.off == PKTHDR && |m.dat| == MLEN
    ensures Delivered(AsWritten, FRESH, Chars(Escape(p) + [FRAME_END])) == [p]
    ensures m.off + |p| > |m.dat| && !Stays(AsWritten, Delivered(AsWritten, FRESH, Chars(Escape(p) + [FRAME_END])))
  {
    FirstFrame(AsWritten, p, []);
    assert Escape(p) + [FRAME_END] + [] == Escape(p) + [FRAME_END] && Chars([]) == [];
    CopyStaysInside(m, |p|);
    assert p in [p];
  }

  /** The shortest such packet: 73 bytes beginning with the first byte of an IP header. */
  lemma SeventyThreeBytes(m: Mbuf)
    requires m.off == PKTHDR && |m.dat| == MLEN
    ensures var p := seq(73, _ => 0x45 as byte);
            Delivered(AsWritten, FRESH, Chars(Escape(p) + [FRAME_END])) == [p] && m.off + |p| > |m.dat|
  {
    LongFrameOverruns(seq(73, _ => 0x45 as byte), m);
  }

  /** One call of slinput, with room in the IP input queue. */
  method Hear(form: Form, rx: Receiver, a: Arrival, ipintrq: Ifqueue, log: FreeLog) returns (ghost got: seq<Mbuf>)
    requires -0x8000_0000 <= a.c < 0x8000_0000 && rx.Valid() && ipintrq.Valid()
    requires Handed(rx.Rx(), Classify(a.c, a.carrier)) != [] ==> ipintrq.len < ipintrq.maxlen
    requires Stays(form, Handed(rx.Rx(), Classify(a.c, a.carrier)))
    modifies rx, rx.mem, log, ipintrq, ipintrq.contents`nextpkt
    ensures rx.Valid() && rx.mem == old(rx.mem) && ipintrq.Valid()
    ensures rx.Rx() == Step(form, old(rx.Rx()), Classify(a.c, a.carrier))
    ensures ipintrq.contents == old(ipintrq.contents) + got
    ensures forall i :: 0 <= i < |got| ==> fresh(got[i])
    ensures Are(got, Handed(old(rx.Rx()), Classify(a.c, a.carrier)))
    ensures log.freed == old(log.freed) && ipintrq.drops == old(ipintrq.drops) && ipintrq.maxlen == old(ipintrq.maxlen)
  {
    ghost var m := rx.Input(form, a.c, a.carrier, ipintrq, log);
    got := if m == null then [] else [m];
  }

  /** Every run of slinput, with room in the IP input queue: the packets queued are those the state
      machine hands up, in order. */
  method Receive(form: Form, rx: Receiver, cs: seq<Arrival>, ipintrq: Ifqueue, log: FreeLog)
      returns (ghost got: seq<Mbuf>)
    requires Fit(cs) && rx.Valid() && ipintrq.Valid()
    requires ipintrq.len + |Delivered(form, rx.Rx(), Heard(cs))| <= ipintrq.maxlen
    requires Stays(form, Delivered(form, rx.Rx(), Heard(cs)))
    modifies rx, rx.mem, log, ipintrq, ipintrq.contents`nextpkt
    ensures rx.Valid() && rx.mem == old(rx.mem) && ipintrq.Valid()
    ensures rx.Rx() == Run(form, old(rx.Rx()), Heard(cs))
    ensures ipintrq.contents == old(ipintrq.contents) + got
    ensures forall i :: 0 <= i < |got| ==> fresh(got[i])
    ensures Are(got, Delivered(form, old(rx.Rx()), Heard(cs)))
    ensures log.freed == old(log.freed) && ipintrq.drops == old(ipintrq.drops)
    decreases |cs|, 0
  {
    got := [];
    if cs != [] {
      HeardStep(form, rx.Rx(), cs);
      ghost var first := Hear(form, rx, cs[0], ipintrq, log);
      ghost var e := Classify(cs[0].c, cs[0].carrier);
      ghost var rest := ReceiveRest(form, rx, cs[1..], ipintrq, log, first, Handed(old(rx.Rx()), e));
      Assoc(old(ipintrq.contents), first, rest);
      got := first + rest;
      assert forall i {:trigger got[i]} :: |first| <= i < |got| ==> got[i] == rest[i - |first|];
    }
  }

  lemma HeardStep(form: Form, s: Rx, cs: seq<Arrival>)
    requires Fit(cs) && cs != []
    ensures var e := Classify(cs[0].c, cs[0].carrier);
            && Run(form, s, Heard(cs)) == Run(form, Step(form, s, e), Heard(cs[1..]))
            && Delivered(form, s, Heard(cs)) == Handed(s, e) + Delivered(form, Step(form, s, e), Heard(cs[1..]))
  {
    assert Heard(cs)[1..] == Heard(cs[1..]);
  }

  /** The calls after the one that queued the packets `first`. */
  method ReceiveRest(form: Form, rx: Receiver, cs: seq<Arrival>, ipintrq: Ifqueue, log: FreeLog,
                     ghost first: seq<Mbuf>, ghost ps: seq<seq<byte>>)
      returns (ghost rest: seq<Mbuf>)
    requires Fit(cs) && rx.Valid() && ipintrq.Valid()
    requires ipintrq.len + |Delivered(form, rx.Rx(), Heard(cs))| <= ipintrq.maxlen
    requires Stays(form, Delivered(form, rx.Rx(), Heard(cs)))
    requires Are(first, ps)
    modifies rx, rx.mem, log, ipintrq, ipintrq.contents`nextpkt
    ensures rx.Valid() && rx.mem == old(rx.mem) && ipintrq.Valid()
    ensures rx.Rx() == Run(form, old(rx.Rx()), Heard(cs))
    ensures ipintrq.contents == old(ipintrq.contents) + rest
    ensures forall i :: 0 <= i < |rest| ==> fresh(rest[i])
    ensures Are(first + rest, ps + Delivered(form, old(rx.Rx()), Heard(cs)))
    ensures log.freed == old(log.freed) && ipintrq.drops == old(ipintrq.drops)
    decreases |cs|, 1
  {
    rest := Receive(form, rx, cs, ipintrq, log);
    AreBoth(first, ps, rest, Delivered(form, old(rx.Rx()), Heard(cs)));
  }

  /** An argument with an error bit set, or any argument without carrier. */
  predicate IsBad(a: Arrival) {
    a.c < 0 || a.c >= 0x100_0000 || !a.carrier
  }

  /** A call of slinput that ends no frame. */
  predicate EndsNone(a: Arrival) {
    IsBad(a) || a.c % 256 != 0xc0
  }

  /** What the calls tell the state machine: a spoilt character for just the bad ones, and the low byte of the
      argument for each other. */
  lemma {:induction false} HeardAt(cs: seq<Arrival>, i: nat)
    requires Fit(cs) && i < |cs|
    ensures |Heard(cs)| == |cs| && Heard(cs)[i] == if IsBad(cs[i]) then Spoilt else Clean(cs[i].c % 256)
  {
    if i == 0 {
      HeardLength(cs);
    } else {
      HeardAt(cs[1..], i - 1);
    }
  }

  lemma {:induction false} HeardLength(cs: seq<Arrival>)
    requires Fit(cs)
    ensures |Heard(cs)| == |cs|
  {
    if cs == [] {
    } else {
      HeardLength(cs[1..]);
    }
  }

  lemma {:induction false} HeardMore(cs: seq<Arrival>, a: Arrival)
    requires Fit(cs) && Fit([a])
    ensures Fit(cs + [a]) && Heard(cs + [a]) == Heard(cs) + [Classify(a.c, a.carrier)]
  {
    if cs == [] {
      assert [] + [a] == [a] && [a][1..] == [];
    } else {
      HeardMore(cs[1..], a);
      TailOfAppend(cs, [a]);
    }
  }

  /** A frame with one bad call in it: whatever else it holds, nothing is handed up at its FRAME_END, and the
      receiver is fresh behind it. */
  lemma BadFrameIsLost(form: Form, s: Rx, cs: seq<Arrival>, b: nat, end: Arrival)
    requires s.Valid() && Fit(cs) && Fit([end]) && forall i :: 0 <= i < |cs| ==> EndsNone(cs[i])
    requires b < |cs| && IsBad(cs[b]) && !IsBad(end) && end.c % 256 == 0xc0
    ensures Fit(cs + [end]) && Delivered(form, s, Heard(cs + [end])) == []
    ensures Run(form, s, Heard(cs + [end])) == FRESH
  {
    HeardMore(cs, end);
    HeardAt(cs, b);
    forall j | 0 <= j < |Heard(cs)|
      ensures Heard(cs)[j] != Clean(FRAME_END)
    {
      HeardLength(cs);
      HeardAt(cs, j);
    }
    assert Damaged(Heard(cs));
    DamagedFrameIsLost(form, s, Heard(cs));
  }

  /** The same for the calls themselves: the IP input queue stays as it is. */
  method LoseFrame(form: Form, rx: Receiver, cs: seq<Arrival>, ghost b: nat, end: Arrival,
                   ipintrq: Ifqueue, log: FreeLog)
    requires Fit(cs) && Fit([end]) && forall i :: 0 <= i < |cs| ==> EndsNone(cs[i])
    requires b < |cs| && IsBad(cs[b]) && !IsBad(end) && end.c % 256 == 0xc0
    requires rx.Valid() && ipintrq.Valid() && ipintrq.len <= ipintrq.maxlen
    modifies rx, rx.mem, log, ipintrq, ipintrq.contents`nextpkt
    ensures rx.Valid() && rx.Rx() == Rx([], false, false)
    ensures ipintrq.Valid() && ipintrq.contents == old(ipintrq.contents) && ipintrq.drops == old(ipintrq.drops)
    ensures log.freed == old(log.freed)
  {
    BadFrameIsLost(form, rx.Rx(), cs, b, end);
    ghost var got := Receive(form, rx, cs + [end], ipintrq, log);
  }

  /** The bytes of a clean line, with carrier. */
  function Arrivals(w: seq<byte>): (r: seq<Arrival>)
    ensures Fit(r)
  {
    if w == [] then [] else [Arrival(w[0], true)] + Arrivals(w[1..])
  }

  lemma CharsFirst(w: seq<byte>)
    requires w != []
    ensures Chars(w) == [Clean(w[0])] + Chars(w[1..])
  {
  }

  lemma {:induction false} HeardCleanly(w: seq<byte>)
    ensures Heard(Arrivals(w)) == Chars(w)
  {
    if w == [] {
    } else {
      HeardCleanly(w[1..]);
      CharsFirst(w);
      assert Arrivals(w)[1..] == Arrivals(w[1..]);
    }
  }

  /** From transmitter to IP input queue: what slstart put on the wire arrives in a fresh slinput as one mbuf
      for each packet taken and not freed, in order.  They are the packets sent exactly when no frame was cut
      short. */
  method Carry(rx: Receiver, w: seq<byte>, ipintrq: Ifqueue, log: FreeLog,
               ghost ds: Descs, ghost txs: seq<Tx>)
      returns (ghost got: seq<Mbuf>)
    requires AllHandled(Repaired, ds, txs) && w == SentBytes(txs)
    requires AllCarried(Sent(ds, txs))
    requires rx.Valid() && rx.Rx() == FRESH && ipintrq.Valid()
    requires ipintrq.len + |Sent(ds, txs)| <= ipintrq.maxlen
    modifies rx, rx.mem, log, ipintrq, ipintrq.contents`nextpkt
    ensures rx.Valid() && rx.Rx() == FRESH
    ensures ipintrq.Valid() && ipintrq.contents == old(ipintrq.contents) + got
    ensures Are(got, Arrived(ds, txs)) && (Arrived(ds, txs) == Sent(ds, txs) <==> AllFull(ds, txs))
    ensures log.freed == old(log.freed)
  {
    HeardCleanly(w);
    WhatIsSentIsReceived(ds, txs);
    got := Receive(Repaired, rx, Arrivals(w), ipintrq, log);
  }

  lemma AreBoth(a: seq<Mbuf>, ps: seq<seq<byte>>, b: seq<Mbuf>, qs: seq<seq<byte>>)
    requires Are(a, ps) && Are(b, qs)
    ensures Are(a + b, ps + qs)
  {
    forall i {:trigger (a + b)[i]} | 0 <= i < |a + b|
      ensures IsPacket((a + b)[i], (ps + qs)[i])
    {
      if i < |a| {
        assert (a + b)[i] == a[i] && (ps + qs)[i] == ps[i];
      } else {
        assert (a + b)[i] == b[i - |a|] && (ps + qs)[i] == qs[i - |a|];
      }
    }
  }

  // ---------- scheduling ----------

  /** sc_fastq and if_snd. */
  datatype Queues = Queues(fast: seq<Mbuf>, slow: seq<Mbuf>)

  /** sloutput queues a packet in a class; slstart takes one. */
  datatype Event = Put(m: Mbuf, low: bool) | Take

  function After(s: Queues, e: Event): Queues {
    match e
    case Put(m, low) => if low then s.(fast := s.fast + [m]) else s.(slow := s.slow + [m])
    case Take => if s.fast != [] then s.(fast := s.fast[1..])
                 else if s.slow != [] then s.(slow := s.slow[1..]) else s
  }

  /** What an event takes from the interactive queue, and from the other. */
  function TakenFast(s: Queues, e: Event): seq<Mbuf> {
    if e.Take? && s.fast != [] then [s.fast[0]] else []
  }

  function TakenSlow(s: Queues, e: Event): seq<Mbuf> {
    if e.Take? && s.fast == [] && s.slow != [] then [s.slow[0]] else []
  }

  function AfterAll(s: Queues, es: seq<Event>): Queues
    decreases |es|
  {
    if es == [] then s else AfterAll(After(s, es[0]), es[1..])
  }

  function FastRun(s: Queues, es: seq<Event>): seq<Mbuf>
    decreases |es|
  {
    if es == [] then [] else TakenFast(s, es[0]) + FastRun(After(s, es[0]), es[1..])
  }

  function SlowRun(s: Queues, es: seq<Event>): seq<Mbuf>
    decreases |es|
  {
    if es == [] then [] else TakenSlow(s, es[0]) + SlowRun(After(s, es[0]), es[1..])
  }

  /** All that is taken, in order. */
  function TakenRun(s: Queues, es: seq<Event>): seq<Mbuf>
    decreases |es|
  {
    if es == [] then []
    else TakenFast(s, es[0]) + TakenSlow(s, es[0]) + TakenRun(After(s, es[0]), es[1..])
  }

  function PutInClass(es: seq<Event>, low: bool): seq<Mbuf> {
    if es == [] then []
    else (if es[0].Put? && es[0].low == low then [es[0].m] else []) + PutInClass(es[1..], low)
  }

  /** Over any run, each class is first in, first out, and loses nothing. */
  lemma {:induction false} EachClassIsFifo(s: Queues, es: seq<Event>)
    ensures FastRun(s, es) + AfterAll(s, es).fast == s.fast + PutInClass(es, true)
    ensures SlowRun(s, es) + AfterAll(s, es).slow == s.slow + PutInClass(es, false)
    decreases |es|
  {
    if es == [] {
      assert s.fast + [] == s.fast && s.slow + [] == s.slow;
    } else {
      var t, e, more := After(s, es[0]), es[0], es[1..];
      EachClassIsFifo(t, more);
      var pf := if e.Put? && e.low then [e.m] else [];
      var ps := if e.Put? && !e.low then [e.m] else [];
      assert TakenFast(s, e) + t.fast == s.fast + pf;
      assert TakenSlow(s, e) + t.slow == s.slow + ps;
      var end := AfterAll(t, more);
      Ifqueues.Chain(TakenFast(s, e), FastRun(t, more), end.fast, t.fast, s.fast, pf, PutInClass(more, true));
      Ifqueues.Chain(TakenSlow(s, e), SlowRun(t, more), end.slow, t.slow, s.slow, ps, PutInClass(more, false));
    }
  }

  function Takes(es: seq<Event>): nat {
    if es == [] then 0 else (if es[0].Take? then 1 else 0) + Takes(es[1..])
  }

  /** An interactive packet with k others before it is the (k+1)st to be taken, whatever is queued behind
      it in either class. */
  lemma {:induction false} InteractiveWait(s: Queues, es: seq<Event>, k: nat)
    requires k < |s.fast| && k < Takes(es)
    ensures k < |TakenRun(s, es)| && TakenRun(s, es)[k] == s.fast[k]
    decreases |es|
  {
    var t := After(s, es[0]);
    if es[0].Put? {
      InteractiveWait(t, es[1..], k);
    } else if k > 0 {
      InteractiveWait(t, es[1..], k - 1);
    }
  }

  /** A packet of the other class is taken only when no interactive packet waits; so it is taken within
      as many turns as there are packets before it and interactive packets put in meanwhile. */
  lemma {:induction false} BulkWait(s: Queues, es: seq<Event>, k: nat)
    requires k < |s.slow| && |s.fast| + |PutInClass(es, true)| + k < Takes(es)
    ensures k < |SlowRun(s, es)| && SlowRun(s, es)[k] == s.slow[k]
    decreases |es|
  {
    var t := After(s, es[0]);
    if es[0].Put? || s.fast != [] {
      BulkWait(t, es[1..], k);
    } else if k > 0 {
      BulkWait(t, es[1..], k - 1);
    }
  }

  function TakeEvents(n: nat): seq<Event> {
    seq(n, _ => Take)
  }

  function Packets(txs: seq<Tx>): seq<Mbuf> {
    if txs == [] then [] else [txs[0].m] + Packets(txs[1..])
  }

  /** What slstart does to the two queues is a run of takes. */
  lemma {:induction false} StartIsTakes(txs: seq<Tx>, f0: seq<Mbuf>, s0: seq<Mbuf>, f1: seq<Mbuf>, s1: seq<Mbuf>)
    requires Took(txs, f0 + s0, f1 + s1) && |f1| == LessBy(|f0|, |txs|)
    ensures AfterAll(Queues(f0, s0), TakeEvents(|txs|)) == Queues(f1, s1)
    ensures TakenRun(Queues(f0, s0), TakeEvents(|txs|)) == Packets(txs)
    decreases |txs|
  {
    ClassesKeepOrder(f0, s0, f1, s1, |txs|);
    if txs == [] {
    } else {
      var q := After(Queues(f0, s0), Take);
      var es := TakeEvents(|txs| - 1);
      assert TakeEvents(|txs|)[1..] == es;
      assert q.fast + q.slow == (f0 + s0)[1..];
      StartIsTakes(txs[1..], q.fast, q.slow, f1, s1);
      assert TakenRun(Queues(f0, s0), TakeEvents(|txs|)) == [txs[0].m] + TakenRun(q, es);
    }
  }

  // ---------- runs of sloutput and slstart ----------

  /** A call of sloutput, with the state of the line it sees, or of slstart. */
  datatype Work = Send(m: Mbuf, family: nat, attached: bool, carrier: bool, noicmp: bool) | Drain

  function Sends(ws: seq<Work>): seq<Mbuf> {
    if ws == [] then [] else (if ws[0].Send? then [ws[0].m] else []) + Sends(ws[1..])
  }

  /** The header fields that sloutput comes to read are stored in the first mbuf. */
  predicate Headed(x: Work, ds: Descs) {
    x.Send? ==>
      x.m in ds && (x.family == AF_INET && x.attached && x.carrier ==> HeadStored(ds[x.m].head, x.noicmp))
  }

  /** No packet is queued or sent twice. */
  predicate Once(ws: seq<Work>, waiting: seq<Mbuf>) {
    ws != [] ==> (ws[0].Send? ==> ws[0].m !in waiting && ws[0].m !in Sends(ws[1..]))
                 && Once(ws[1..], waiting)
  }

  /** The class of a packet. */
  predicate Low(m: Mbuf, ds: Descs) {
    m in ds && LowDelay(ds[m].head)
  }

  /** The packets accepted in a class, in order. */
  function Accepted(ws: seq<Work>, errnos: seq<nat>, ds: Descs, low: bool): seq<Mbuf>
    requires |errnos| == |ws|
  {
    if ws == [] then []
    else (if ws[0].Send? && errnos[0] == 0 && Low(ws[0].m, ds) == low then [ws[0].m] else [])
         + Accepted(ws[1..], errnos[1..], ds, low)
  }

  ghost function QueuesOf(tr: Transmitter): Queues
    reads tr.fastq`contents, tr.snd`contents
  {
    Queues(tr.fastq.contents, tr.snd.contents)
  }

  lemma {:induction false} AfterAllAppend(s: Queues, a: seq<Event>, b: seq<Event>)
    ensures AfterAll(s, a + b) == AfterAll(AfterAll(s, a), b)
    ensures TakenRun(s, a + b) == TakenRun(s, a) + TakenRun(AfterAll(s, a), b)
    decreases |a|
  {
    if a == [] {
      assert a + b == b;
    } else {
      assert (a + b)[1..] == a[1..] + b;
      AfterAllAppend(After(s, a[0]), a[1..], b);
    }
  }

  lemma {:induction false} PutsAppend(a: seq<Event>, b: seq<Event>, low: bool)
    ensures PutInClass(a + b, low) == PutInClass(a, low) + PutInClass(b, low)
  {
    if a == [] {
      assert a + b == b;
    } else {
      assert (a + b)[1..] == a[1..] + b;
      PutsAppend(a[1..], b, low);
    }
  }

  lemma {:induction false} TakesPutNothing(n: nat, low: bool)
    ensures PutInClass(TakeEvents(n), low) == []
  {
    if n == 0 {
    } else {
      assert TakeEvents(n)[1..] == TakeEvents(n - 1);
      TakesPutNothing(n - 1, low);
    }
  }

  lemma {:induction false} PacketsAppend(a: seq<Tx>, b: seq<Tx>)
    ensures Packets(a + b) == Packets(a) + Packets(b)
  {
    if a == [] {
      assert a + b == b;
    } else {
      assert (a + b)[1..] == a[1..] + b;
      PacketsAppend(a[1..], b);
    }
  }

  lemma {:induction false} SentBytesAppend(a: seq<Tx>, b: seq<Tx>)
    ensures SentBytes(a + b) == SentBytes(a) + SentBytes(b)
  {
    if b == [] {
      assert a + b == a;
    } else {
      var n := |b| - 1;
      assert a + b == (a + b[..n]) + [b[n]];
      SentBytesAppend(a, b[..n]);
      SentBytesMore(a + b[..n], b[n]);
      Assoc(SentBytes(a), SentBytes(b[..n]), b[n].bytes);
    }
  }

  /** The events es, and the packets taken, account for what a piece of work makes of the queues and of
      the wire. */
  ghost predicate Worked(form: Form, ds: Descs, q0: Queues, q: Queues, w0: seq<byte>, w: seq<byte>,
                         es: seq<Event>, txs: seq<Tx>) {
    && AfterAll(q0, es) == q && TakenRun(q0, es) == Packets(txs)
    && AllHandled(form, ds, txs) && w == w0 + SentBytes(txs)
  }

  lemma WorkedMore(form: Form, ds: Descs, q0: Queues, q1: Queues, q2: Queues,
                   w0: seq<byte>, w1: seq<byte>, w2: seq<byte>,
                   es: seq<Event>, txs: seq<Tx>, es': seq<Event>, txs': seq<Tx>)
    requires Worked(form, ds, q0, q1, w0, w1, es, txs) && Worked(form, ds, q1, q2, w1, w2, es', txs')
    ensures Worked(form, ds, q0, q2, w0, w2, es + es', txs + txs')
  {
    AfterAllAppend(q0, es, es');
    PacketsAppend(txs, txs');
    SentBytesAppend(txs, txs');
    Assoc(w0, SentBytes(txs), SentBytes(txs'));
    assert forall i {:trigger (txs + txs')[i]} :: 0 <= i < |txs + txs'| ==>
        (txs + txs')[i] == if i < |txs| then txs[i] else txs'[i - |txs|];
  }

  /** What slstart does, as events. */
  lemma StartWorked(form: Form, ds: Descs, txs: seq<Tx>, p0: Progress, p: Progress, q0: Queues, q: Queues)
    requires Accounts(form, ds, txs, p0, p)
    requires p0.waiting == q0.fast + q0.slow && p0.fast == |q0.fast|
    requires p.waiting == q.fast + q.slow && p.fast == |q.fast|
    ensures Worked(form, ds, q0, q, p0.wire, p.wire, TakeEvents(|txs|), txs)
    ensures forall m <- q.fast + q.slow :: m in q0.fast + q0.slow
  {
    StartIsTakes(txs, q0.fast, q0.slow, q.fast, q.slow);
  }

  lemma PutWorked(form: Form, ds: Descs, q0: Queues, m: Mbuf, low: bool, w: seq<byte>)
    ensures Worked(form, ds, q0, After(q0, Put(m, low)), w, w, [Put(m, low)], [])
  {
    var es := [Put(m, low)];
    assert es[1..] == [] && w + SentBytes([]) == w;
    assert AfterAll(q0, es) == AfterAll(After(q0, es[0]), []);
    assert TakenRun(q0, es) == TakenFast(q0, es[0]) + TakenSlow(q0, es[0]) + TakenRun(After(q0, es[0]), []);
  }

  /** slstart leaves the packets that are still to come as they are. */
  method DrainOnce(form: Form, tr: Transmitter, tp: Tty, log: FreeLog, ghost ds: Descs, ghost R: set<Mbuf>,
                   ghost w: seq<Mbuf>)
      returns (ghost txs: seq<Tx>)
    requires tr.Ready() && Described(w, ds, R) && forall m <- tr.Waiting() :: m in w
    modifies tr`omcasts, tr`collisions, tr`obytes, tp`sent, tp.outq, tr.fastq, tr.snd, log
    ensures tr.Ready() && Described(w, ds, R) && forall m <- tr.Waiting() :: m in w
    ensures Worked(form, ds, old(QueuesOf(tr)), QueuesOf(tr), old(tp.Wire()), tp.Wire(), TakeEvents(|txs|), txs)
    ensures forall m <- tr.Waiting() :: m in old(tr.Waiting())
  {
    ghost var p0, q0 := tr.Now(tp, log), QueuesOf(tr);
    txs := tr.StartAll(form, tp, ds, R, log, w);
    StartWorked(form, ds, txs, p0, tr.Now(tp, log), q0, QueuesOf(tr));
  }

  /** What a piece of work is, as events. */
  function EventsOf(x: Work, errno: nat, ds: Descs, txs: seq<Tx>): seq<Event> {
    (if x.Send? && errno == 0 then [Put(x.m, Low(x.m, ds))] else []) + TakeEvents(|txs|)
  }

  lemma SendWorked(form: Form, ds: Descs, txs: seq<Tx>, p0: Progress, p: Progress, q0: Queues, q: Queues,
                   errno: nat, x: Work)
    requires x.Send? && x.m in ds && p0.waiting == q0.fast + q0.slow && p0.fast == |q0.fast|
    requires Accounts(form, ds, txs, Joined(p0, errno, x.m, ds[x.m], q0.fast, q0.slow), p)
    requires p.waiting == q.fast + q.slow && p.fast == |q.fast|
    ensures Worked(form, ds, q0, q, p0.wire, p.wire, EventsOf(x, errno, ds, txs), txs)
    ensures forall m <- q.fast + q.slow :: m in q0.fast + q0.slow || m == x.m
  {
    var m, low := x.m, Low(x.m, ds);
    var p1 := Joined(p0, errno, m, ds[m], q0.fast, q0.slow);
    if errno == 0 {
      var q1 := After(q0, Put(m, low));
      PutWorked(form, ds, q0, m, low, p0.wire);
      StartWorked(form, ds, txs, p1, p, q1, q);
      WorkedMore(form, ds, q0, q1, q, p0.wire, p0.wire, p.wire, [Put(m, low)], [], TakeEvents(|txs|), txs);
      assert [] + txs == txs;
    } else {
      StartWorked(form, ds, txs, p1, p, q0, q);
      assert [] + TakeEvents(|txs|) == TakeEvents(|txs|);
    }
  }

  lemma EventsPut(x: Work, errno: nat, ds: Descs, txs: seq<Tx>, low: bool)
    ensures PutInClass(EventsOf(x, errno, ds, txs), low)
         == if x.Send? && errno == 0 && Low(x.m, ds) == low then [x.m] else []
  {
    var put := if x.Send? && errno == 0 then [Put(x.m, Low(x.m, ds))] else [];
    TakesPutNothing(|txs|, low);
    PutsAppend(put, TakeEvents(|txs|), low);
    assert put != [] ==> put[1..] == [];
  }

  /** sloutput leaves the packets that are still to come as they are. */
  method SendKept(form: Form, tr: Transmitter, tp: Tty, x: Work, log: FreeLog,
                  ghost ds: Descs, ghost R: set<Mbuf>, ghost w: seq<Mbuf>)
      returns (errno: nat, ghost txs: seq<Tx>)
    requires tr.Ready() && Described(w, ds, R) && (forall m <- tr.Waiting() :: m in w) && InAll(w, R)
    requires x.Send? && x.m in w && x.m !in tr.Waiting() && Headed(x, ds)
    modifies tr`omcasts, tr`collisions, tr`obytes, tr`noproto, tr`oerrors, tr.fastq, tr.snd, R`nextpkt,
             log, tp`sent, tp.outq
    ensures tr.Ready() && Described(w, ds, R)
    ensures Accounts(form, ds, txs,
                     Joined(old(tr.Now(tp, log)), errno, x.m, ds[x.m], old(tr.fastq.contents), old(tr.snd.contents)),
                     tr.Now(tp, log))
  {
    DescribedSome(w, tr.Waiting() + [x.m], ds, R);
    errno, txs := tr.Output(form, x.m, x.family, x.attached, tp, x.carrier, x.noicmp, log, ds, R);
  }

  predicate InAll(w: seq<Mbuf>, R: set<Mbuf>) {
    forall m <- w :: m in R
  }

  /** Before a run: the packets waiting and those that will be sent are described, and none is there twice. */
  ghost predicate Coming(tr: Transmitter, ws: seq<Work>, ds: Descs, R: set<Mbuf>, w: seq<Mbuf>)
    reads tr.fastq, tr.snd, tr.fastq.contents`nextpkt, tr.snd.contents`nextpkt
    reads R`next, R`dat, R`off, R`len, R`ext, R`extbuf
  {
    tr.Ready() && Described(w, ds, R) && InAll(w, R) && Expected(ws, tr.Waiting(), ds, w)
  }

  ghost predicate Expected(ws: seq<Work>, waiting: seq<Mbuf>, ds: Descs, w: seq<Mbuf>) {
    && (forall m <- waiting :: m in w) && (forall m <- Sends(ws) :: m in w)
    && Once(ws, waiting) && (forall x <- ws :: Headed(x, ds))
  }

  lemma {:induction false} OnceStill(ws: seq<Work>, a: seq<Mbuf>, b: seq<Mbuf>, new_ones: seq<Mbuf>)
    requires Once(ws, a) && (forall x <- b :: x in a || x in new_ones) && forall x <- new_ones :: x !in Sends(ws)
    ensures Once(ws, b)
  {
    if ws == [] {
    } else {
      OnceStill(ws[1..], a, b, new_ones);
    }
  }

  lemma RestExpected(ws: seq<Work>, a: seq<Mbuf>, b: seq<Mbuf>, ds: Descs, w: seq<Mbuf>)
    requires ws != [] && Expected(ws, a, ds, w)
    requires forall x <- b :: x in a || (ws[0].Send? && x == ws[0].m)
    ensures Expected(ws[1..], b, ds, w)
  {
    OnceStill(ws[1..], a, b, if ws[0].Send? then [ws[0].m] else []);
  }

  /** A call of sloutput in a run. */
  method SendWork(form: Form, tr: Transmitter, tp: Tty, x: Work, log: FreeLog, ghost ds: Descs,
                  ghost R: set<Mbuf>, ghost w: seq<Mbuf>)
      returns (errno: nat, ghost txs: seq<Tx>)
    requires tr.Ready() && Described(w, ds, R) && (forall m <- tr.Waiting() :: m in w) && InAll(w, R)
    requires x.Send? && x.m in w && x.m !in tr.Waiting() && Headed(x, ds)
    modifies tr`omcasts, tr`collisions, tr`obytes, tr`noproto, tr`oerrors, tr.fastq, tr.snd, R`nextpkt,
             log, tp`sent, tp.outq
    ensures tr.Ready() && Described(w, ds, R)
    ensures forall m <- tr.Waiting() :: m in old(tr.Waiting()) || m == x.m
    ensures Worked(form, ds, old(QueuesOf(tr)), QueuesOf(tr), old(tp.Wire()), tp.Wire(),
                   EventsOf(x, errno, ds, txs), txs)
  {
    ghost var p0, q0 := tr.Now(tp, log), QueuesOf(tr);
    errno, txs := SendKept(form, tr, tp, x, log, ds, R, w);
    SendWorked(form, ds, txs, p0, tr.Now(tp, log), q0, QueuesOf(tr), errno, x);
  }

  /** One piece of work. */
  method WorkOnce(form: Form, tr: Transmitter, tp: Tty, ws: seq<Work>, log: FreeLog, ghost ds: Descs,
                  ghost R: set<Mbuf>, ghost w: seq<Mbuf>)
      returns (errno: nat, ghost txs: seq<Tx>)
    requires ws != [] && Coming(tr, ws, ds, R, w)
    modifies tr`omcasts, tr`collisions, tr`obytes, tr`noproto, tr`oerrors, tr.fastq, tr.snd, R`nextpkt,
             log, tp`sent, tp.outq
    ensures Coming(tr, ws[1..], ds, R, w)
    ensures Worked(form, ds, old(QueuesOf(tr)), QueuesOf(tr), old(tp.Wire()), tp.Wire(),
                   EventsOf(ws[0], errno, ds, txs), txs)
  {
    ghost var a := tr.Waiting();
    var x := ws[0];
    errno := 0;
    if x.Send? {
      assert x in ws && x.m in Sends(ws);
      errno, txs := SendWork(form, tr, tp, x, log, ds, R, w);
    } else {
      txs := DrainOnce(form, tr, tp, log, ds, R, w);
      assert [] + TakeEvents(|txs|) == TakeEvents(|txs|);
    }
    RestExpected(ws, a, tr.Waiting(), ds, w);
  }

  /** The steps of a run, as events: the packets that are accepted are put in their classes in order, and the
      packets taken are those the events take. */
  method RunSteps(form: Form, tr: Transmitter, tp: Tty, ws: seq<Work>, log: FreeLog, ghost ds: Descs,
                  ghost R: set<Mbuf>, ghost w: seq<Mbuf>)
      returns (errnos: seq<nat>, ghost es: seq<Event>, ghost txs: seq<Tx>)
    requires Coming(tr, ws, ds, R, w)
    modifies tr`omcasts, tr`collisions, tr`obytes, tr`noproto, tr`oerrors, tr.fastq, tr.snd, R`nextpkt,
             log, tp`sent, tp.outq
    ensures tr.Ready() && |errnos| == |ws|
    ensures Worked(form, ds, old(QueuesOf(tr)), QueuesOf(tr), old(tp.Wire()), tp.Wire(), es, txs)
    ensures Puts(es, ds, ws, errnos)
    decreases |ws|
  {
    errnos, es, txs := [], [], [];
    ghost var q0, w0 := QueuesOf(tr), tp.Wire();
    if ws == [] {
      NothingWorked(form, ds, q0, w0);
    } else {
      var errno;
      ghost var first;
      errno, first := WorkOnce(form, tr, tp, ws, log, ds, R, w);
      ghost var e, q1, w1 := EventsOf(ws[0], errno, ds, first), QueuesOf(tr), tp.Wire();
      errnos, es, txs := RunSteps(form, tr, tp, ws[1..], log, ds, R, w);
      WorkedMore(form, ds, q0, q1, QueuesOf(tr), w0, w1, tp.Wire(), e, first, es, txs);
      PutsMore(ws, errno, errnos, ds, es, first);
      errnos, es, txs := [errno] + errnos, e + es, first + txs;
    }
  }

  /** The events put in just the packets accepted, each in its class. */
  ghost predicate Puts(es: seq<Event>, ds: Descs, ws: seq<Work>, errnos: seq<nat>) {
    && |errnos| == |ws| && PutsByClass(es, ds)
    && PutInClass(es, true) == Accepted(ws, errnos, ds, true)
    && PutInClass(es, false) == Accepted(ws, errnos, ds, false)
  }

  predicate PutsByClass(es: seq<Event>, ds: Descs) {
    forall e <- es :: e.Put? ==> e.low == Low(e.m, ds)
  }

  lemma PutsMore(ws: seq<Work>, errno: nat, errnos: seq<nat>, ds: Descs, es: seq<Event>, first: seq<Tx>)
    requires ws != [] && Puts(es, ds, ws[1..], errnos)
    ensures Puts(EventsOf(ws[0], errno, ds, first) + es, ds, ws, [errno] + errnos)
  {
    AcceptedMore(ws, errno, errnos, ds, es, first, true);
    AcceptedMore(ws, errno, errnos, ds, es, first, false);
    assert PutsByClass(EventsOf(ws[0], errno, ds, first), ds);
  }

  /** Those of a class. */
  function OfClass(ms: seq<Mbuf>, ds: Descs, low: bool): seq<Mbuf> {
    if ms == [] then [] else (if Low(ms[0], ds) == low then [ms[0]] else []) + OfClass(ms[1..], ds, low)
  }

  lemma {:induction false} OfClassAppend(a: seq<Mbuf>, b: seq<Mbuf>, ds: Descs, low: bool)
    ensures OfClass(a + b, ds, low) == OfClass(a, ds, low) + OfClass(b, ds, low)
  {
    if a == [] {
      assert a + b == b;
    } else {
      assert (a + b)[1..] == a[1..] + b;
      OfClassAppend(a[1..], b, ds, low);
    }
  }

  /** Each packet waits in the queue of its class. */
  predicate Classed(q: Queues, ds: Descs) {
    (forall m <- q.fast :: Low(m, ds)) && (forall m <- q.slow :: !Low(m, ds))
  }

  /** When each packet is put in by its class, the packets taken from a queue are those taken of its class. */
  lemma {:induction false} TakenByClass(q: Queues, es: seq<Event>, ds: Descs)
    requires Classed(q, ds) && PutsByClass(es, ds)
    ensures OfClass(TakenRun(q, es), ds, true) == FastRun(q, es)
    ensures OfClass(TakenRun(q, es), ds, false) == SlowRun(q, es)
    ensures Classed(AfterAll(q, es), ds)
    decreases |es|
  {
    if es == [] {
    } else {
      var t := After(q, es[0]);
      OneTakenByClass(q, es[0], ds);
      assert PutsByClass(es[1..], ds);
      TakenByClass(t, es[1..], ds);
      OfClassAppend(TakenFast(q, es[0]) + TakenSlow(q, es[0]), TakenRun(t, es[1..]), ds, true);
      OfClassAppend(TakenFast(q, es[0]) + TakenSlow(q, es[0]), TakenRun(t, es[1..]), ds, false);
    }
  }

  lemma OneTakenByClass(q: Queues, e: Event, ds: Descs)
    requires Classed(q, ds) && (e.Put? ==> e.low == Low(e.m, ds))
    ensures Classed(After(q, e), ds)
    ensures OfClass(TakenFast(q, e) + TakenSlow(q, e), ds, true) == TakenFast(q, e)
    ensures OfClass(TakenFast(q, e) + TakenSlow(q, e), ds, false) == TakenSlow(q, e)
  {
    var taken := TakenFast(q, e) + TakenSlow(q, e);
    assert taken != [] ==> taken[1..] == [];
  }

  /** What a run does to one class. */
  ghost predicate ClassIsFifo(ds: Descs, low: bool, q0: seq<Mbuf>, q: seq<Mbuf>,
                              ws: seq<Work>, errnos: seq<nat>, txs: seq<Tx>) {
    |errnos| == |ws| && OfClass(Packets(txs), ds, low) + q == q0 + Accepted(ws, errnos, ds, low)
  }

  /** The classes are told apart by that bit. */
  lemma {:induction false} AcceptedByTos(ws: seq<Work>, errnos: seq<nat>, ds: Descs)
    requires |errnos| == |ws|
    ensures forall m <- Accepted(ws, errnos, ds, true) :: m in ds && |ds[m].head| > 1 && ds[m].head[1] % 32 >= 16
    ensures forall m <- Accepted(ws, errnos, ds, false) ::
              !(m in ds && |ds[m].head| > 1 && ds[m].head[1] % 32 >= 16)
  {
    if ws == [] {
    } else {
      AcceptedByTos(ws[1..], errnos[1..], ds);
      if ws[0].Send? && ws[0].m in ds {
        LowDelayIsBit(ds[ws[0].m].head);
      }
    }
  }

  /** In a run that begins with each packet in the queue of its class, the packets of a class that were taken,
      followed by those that wait, are those that waited, followed by those accepted. */
  lemma RunIsFifo(form: Form, ds: Descs, q0: Queues, q: Queues, w0: seq<byte>, w: seq<byte>,
                  es: seq<Event>, txs: seq<Tx>, ws: seq<Work>, errnos: seq<nat>)
    requires Worked(form, ds, q0, q, w0, w, es, txs) && Puts(es, ds, ws, errnos) && Classed(q0, ds)
    ensures Classed(q, ds)
    ensures ClassIsFifo(ds, true, q0.fast, q.fast, ws, errnos, txs)
    ensures ClassIsFifo(ds, false, q0.slow, q.slow, ws, errnos, txs)
  {
    TakenByClass(q0, es, ds);
    EachClassIsFifo(q0, es);
  }

  /** Any run of calls of sloutput and slstart, in any order, is a run of events: the packets taken, each of
      which is framed or freed, are those the events take, and the wire grows by just what is sent of them.
      Each class is first in, first out, and loses nothing. */
  method RunWork(form: Form, tr: Transmitter, tp: Tty, ws: seq<Work>, log: FreeLog, ghost ds: Descs,
                 ghost R: set<Mbuf>, ghost w: seq<Mbuf>)
      returns (errnos: seq<nat>, ghost es: seq<Event>, ghost txs: seq<Tx>)
    requires Coming(tr, ws, ds, R, w) && Classed(QueuesOf(tr), ds)
    modifies tr`omcasts, tr`collisions, tr`obytes, tr`noproto, tr`oerrors, tr.fastq, tr.snd, R`nextpkt,
             log, tp`sent, tp.outq
    ensures tr.Ready() && Classed(QueuesOf(tr), ds)
    ensures Worked(form, ds, old(QueuesOf(tr)), QueuesOf(tr), old(tp.Wire()), tp.Wire(), es, txs)
    ensures Puts(es, ds, ws, errnos)
    ensures ClassIsFifo(ds, true, old(tr.fastq.contents), tr.fastq.contents, ws, errnos, txs)
    ensures ClassIsFifo(ds, false, old(tr.snd.contents), tr.snd.contents, ws, errnos, txs)
    ensures forall m <- Accepted(ws, errnos, ds, true) :: m in ds && |ds[m].head| > 1 && ds[m].head[1] % 32 >= 16
    ensures forall m <- Accepted(ws, errnos, ds, false) ::
              !(m in ds && |ds[m].head| > 1 && ds[m].head[1] % 32 >= 16)
  {
    ghost var q0, w0 := QueuesOf(tr), tp.Wire();
    errnos, es, txs := RunSteps(form, tr, tp, ws, log, ds, R, w);
    RunIsFifo(form, ds, q0, QueuesOf(tr), w0, tp.Wire(), es, txs, ws, errnos);
    AcceptedByTos(ws, errnos, ds);
  }

  lemma NothingWorked(form: Form, ds: Descs, q: Queues, w: seq<byte>)
    ensures Worked(form, ds, q, q, w, w, [], [])
  {
    assert w + SentBytes([]) == w;
  }

  lemma AcceptedMore(ws: seq<Work>, errno: nat, errnos: seq<nat>, ds: Descs, es: seq<Event>, first: seq<Tx>, low: bool)
    requires ws != [] && |errnos| == |ws| - 1 && PutInClass(es, low) == Accepted(ws[1..], errnos, ds, low)
    ensures PutInClass(EventsOf(ws[0], errno, ds, first) + es, low) == Accepted(ws, [errno] + errnos, ds, low)
  {
    EventsPut(ws[0], errno, ds, first, low);
    PutsAppend(EventsOf(ws[0], errno, ds, first), es, low);
    assert ([errno] + errnos)[1..] == errnos;
  }
}
