/** How a packet gets from its mbuf chain into the tty's output queue (net/if_sl.c, slstart). */
module SlipWire {
  import opened Bytes
  import opened Pieces
  import opened Mbufs
  import opened MbufFree
  import opened SlipCodec

  // ---------- the output queue ----------

  /** What is queued, and how many more bytes the free list can take. */
  datatype Queue = Queue(q: seq<byte>, room: nat)

  /** Appending as much of s as there is room for. */
  function Push(c: Queue, s: seq<byte>): Queue {
    var n := Min(|s|, c.room);
    Queue(c.q + s[..n], c.room - n)
  }

  lemma PushTwice(c: Queue, a: seq<byte>, b: seq<byte>)
    ensures Push(Push(c, a), b) == Push(c, a + b)
  {
    if |a| <= c.room {
      assert a[..|a|] == a;
    }
  }

  class Clist {
    var q: seq<byte>
    var room: nat

    constructor (room: nat)
      ensures q == [] && this.room == room
    {
      q := [];
      this.room := room;
    }

    ghost function State(): Queue
      reads this
    {
      Queue(q, room)
    }

    /** putc: reports failure when there is no room. */
    method Putc(b: byte) returns (failed: bool)
      modifies this
      ensures State() == Push(old(State()), [b])
      ensures failed == (old(room) == 0)
    {
      failed := room == 0;
      if room > 0 {
        q, room := q + [b], room - 1;
      }
      assert [b][..1] == [b];
    }

    /** b_to_q */
    method BToQ(s: seq<byte>)
      modifies this
      ensures State() == Push(old(State()), s)
    {
      var n := Min(|s|, room);
      q, room := q + s[..n], room - n;
    }

    /** unputc: takes the last byte back. */
    method Unputc()
      requires q != []
      modifies this
      ensures q == old(q)[..|old(q)| - 1] && room == old(room) + 1
    {
      q, room := q[..|q| - 1], room + 1;
    }
  }

  // ---------- the body of a frame ----------

  /** What one mbuf puts on the wire.  As written, the scan for a special byte never stops before the
      end of the mbuf, and then everything but the last byte is sent as it is. */
  function PieceWire(form: Form, s: seq<byte>): seq<byte> {
    if form.Repaired? then Escape(s)
    else if s == [] then []
    else s[..|s| - 1]
  }

  /** What one mbuf adds to if_obytes.  As written, its bytes are counted before they are escaped. */
  function PieceCount(form: Form, s: seq<byte>): nat {
    if form.Repaired? then |Escape(s)| else |s|
  }

  function BodyCount(form: Form, ss: Chain): nat {
    if ss == [] then 0 else PieceCount(form, ss[0]) + BodyCount(form, ss[1..])
  }

  /** if_obytes counts the bytes of a body: always, and as written exactly when it has none. */
  lemma {:induction false} CountIsLength(form: Form, ss: Chain)
    ensures BodyCount(form, ss) >= |BodyWire(form, ss)|
    ensures BodyCount(form, ss) == |BodyWire(form, ss)| <==> form.Repaired? || Concat(ss) == []
  {
    if ss == [] {
    } else {
      CountIsLength(form, ss[1..]);
    }
  }

  function BodyWire(form: Form, ss: Chain): seq<byte> {
    if ss == [] then [] else PieceWire(form, ss[0]) + BodyWire(form, ss[1..])
  }

  /** The body of a frame is the escaped packet, however it is cut into mbufs. */
  lemma {:induction false} BodyIsEscaped(ss: Chain)
    ensures BodyWire(Repaired, ss) == Escape(Concat(ss))
  {
    if ss == [] {
    } else {
      BodyIsEscaped(ss[1..]);
      EscapeAppend(ss[0], Concat(ss[1..]));
    }
  }

  lemma {:induction false} BodyAsWrittenIsShort(ss: Chain)
    ensures |BodyWire(AsWritten, ss)| <= Total(ss)
    ensures Total(ss) > 0 ==> |BodyWire(AsWritten, ss)| < Total(ss)
  {
    if ss == [] {
    } else {
      BodyAsWrittenIsShort(ss[1..]);
    }
  }

  /** As written, the body is the escaped packet exactly when the packet is empty. */
  lemma BodyAsWritten(ss: Chain)
    ensures BodyWire(AsWritten, ss) == Escape(Concat(ss)) <==> Concat(ss) == []
  {
    BodyAsWrittenIsShort(ss);
    EscapeShape(Concat(ss));
  }

  /** As written, the body of a packet in one mbuf is all of it but the last byte, as it is. */
  lemma LastByteIsLost(p: seq<byte>, b: byte)
    ensures BodyWire(AsWritten, [p + [b]]) == p
  {
    assert (p + [b])[..|p|] == p && [p + [b]][1..] == [];
    assert p + [] == p;
  }

  lemma {:induction false} EscapePlain(s: seq<byte>)
    requires forall i :: 0 <= i < |s| ==> !Special(s[i])
    ensures Escape(s) == s
  {
    if s == [] {
    } else {
      EscapePlain(s[1..]);
    }
  }

  lemma EscapeOne(b: byte)
    ensures Escape([b]) == EscapeByte(b)
  {
    assert [b][1..] == [];
  }

  /** A run of plain bytes after what has been escaped so far. */
  lemma EscapeRun(s: seq<byte>, i: nat, j: nat)
    requires i <= j <= |s| && forall k :: i <= k < j ==> !Special(s[k])
    ensures Escape(s[..i]) + s[i..j] == Escape(s[..j])
  {
    EscapePlain(s[i..j]);
    EscapeAppend(s[..i], s[i..j]);
    assert s[..i] + s[i..j] == s[..j];
  }

  lemma EscapeNext(s: seq<byte>, j: nat)
    requires j < |s|
    ensures Escape(s[..j]) + EscapeByte(s[j]) == Escape(s[..j + 1])
  {
    EscapeOne(s[j]);
    EscapeAppend(s[..j], [s[j]]);
    assert s[..j] + [s[j]] == s[..j + 1];
  }

  /** The scan to the next special byte, or to the end. */
  method Scan(b: seq<byte>, bp: nat) returns (cp: nat)
    requires bp <= |b|
    ensures bp <= cp <= |b|
    ensures forall i :: bp <= i < cp ==> !Special(b[i])
    ensures cp < |b| ==> Special(b[cp])
  {
    cp := bp;
    while cp < |b| && !Special(b[cp])
      invariant bp <= cp <= |b|
      invariant forall i :: bp <= i < cp ==> !Special(b[i])
    {
      cp := cp + 1;
    }
  }

  /** The loop of slstart over the bytes b of one mbuf. */
  method SendPiece(form: Form, b: seq<byte>, outq: Clist) returns (obytes: nat)
    modifies outq
    ensures outq.State() == Push(old(outq.State()), PieceWire(form, b))
    ensures obytes == PieceCount(form, b)
  {
    ghost var c0 := outq.State();
    obytes := 0;
    if form.AsWritten? {
      // the break leaves only the switch: the scan runs to the end, and nothing is left to escape
      if |b| > 0 {
        outq.BToQ(b[..|b| - 1]);
        obytes := |b|;
      }
      return;
    }
    var cp := 0;
    while cp < |b|
      invariant 0 <= cp <= |b|
      invariant outq.State() == Push(c0, Escape(b[..cp]))
      invariant obytes == |Escape(b[..cp])|
    {
      var bp := cp;
      cp := Scan(b, bp);
      EscapeRun(b, bp, cp);
      PushTwice(c0, Escape(b[..bp]), b[bp..cp]);
      if cp > bp {
        outq.BToQ(b[bp..cp]);
        obytes := obytes + (cp - bp);
      }
      if cp < |b| {
        EscapeNext(b, cp);
        PushTwice(c0, Escape(b[..cp]), EscapeByte(b[cp]));
        SendSpecial(b[cp], outq);
        cp := cp + 1;
        obytes := obytes + 2;
      }
    }
    assert b[..|b|] == b;
  }

  /** The two bytes that stand for a special one. */
  method SendSpecial(b: byte, outq: Clist)
    requires Special(b)
    modifies outq
    ensures outq.State() == Push(old(outq.State()), EscapeByte(b))
  {
    PushTwice(outq.State(), [FRAME_ESCAPE], EscapeByte(b)[1..]);
    assert EscapeByte(b) == [FRAME_ESCAPE] + EscapeByte(b)[1..];
    var failed := outq.Putc(FRAME_ESCAPE);
    if b == FRAME_END {
      failed := outq.Putc(TRANS_FRAME_END);
    } else {
      failed := outq.Putc(TRANS_FRAME_ESCAPE);
    }
  }

  /** What sending a packet has done when k of its mbufs are sent: the output queue, the releases and the
      count, together with what the other mbufs will add, are what the whole packet makes of them. */
  ghost predicate SentTo(form: Form, ss: Chain, xs: seq<Item>, k: nat, c0: Queue, f0: seq<Freed>,
                         c: Queue, f: seq<Freed>, obytes: nat)
    requires k <= |ss| == |xs|
  {
    && Push(c, BodyWire(form, ss[k..])) == Push(c0, BodyWire(form, ss))
    && f + MacroReleases(form, xs[k..]) == f0 + MacroReleases(form, xs)
    && obytes + BodyCount(form, ss[k..]) == BodyCount(form, ss)
  }

  lemma SentMore(form: Form, ss: Chain, xs: seq<Item>, k: nat, c0: Queue, f0: seq<Freed>,
                 c: Queue, f: seq<Freed>, obytes: nat)
    requires k < |ss| == |xs| && SentTo(form, ss, xs, k, c0, f0, c, f, obytes)
    ensures SentTo(form, ss, xs, k + 1, c0, f0, Push(c, PieceWire(form, ss[k])), f + MacroOne(form, xs[k]),
                   obytes + PieceCount(form, ss[k]))
  {
    assert ss[k..][1..] == ss[k + 1..];
    PushTwice(c, PieceWire(form, ss[k]), BodyWire(form, ss[k + 1..]));
    MacroStep(form, xs, k, f);
  }

  /** One mbuf of a packet, which is released when its bytes are queued. */
  method SendNext(form: Form, m: Mbuf, outq: Clist, log: FreeLog, ghost ns: seq<Mbuf>, ghost ss: Chain, ghost k: nat)
      returns (n: Mbuf?, obytes: nat)
    requires Linked(At(ns, 0), ns) && Holds(ns, ss) && k < |ns| && m == ns[k]
    modifies outq, log
    ensures n == At(ns, k + 1) && k < |ss| && obytes == PieceCount(form, ss[k])
    ensures outq.State() == Push(old(outq.State()), PieceWire(form, ss[k]))
    ensures log.freed == old(log.freed) + MacroOne(form, Items(ns)[k])
  {
    assert m.len == |ss[k]| && m.Bytes() == ss[k] && m.next == At(ns, k + 1);
    var b := m.Read(0, m.len, ss[k]);
    assert b == ss[k];
    obytes := SendPiece(form, b, outq);
    n := MFreeMacro(form, m, log);
  }

  /** The loop of slstart over the mbufs of a packet. */
  method SendBody(form: Form, m0: Mbuf, outq: Clist, log: FreeLog, ghost ns: seq<Mbuf>, ghost ss: Chain)
      returns (obytes: nat)
    requires Linked(m0, ns) && Holds(ns, ss)
    modifies outq, log
    ensures obytes == BodyCount(form, ss)
    ensures log.freed == old(log.freed) + MacroReleases(form, Items(ns))
    ensures outq.State() == Push(old(outq.State()), BodyWire(form, ss))
  {
    var m: Mbuf? := m0;
    ghost var k, xs, c0, f0 := 0, Items(ns), outq.State(), log.freed;
    obytes := 0;
    assert ss[0..] == ss && xs[0..] == xs;
    while m != null
      invariant 0 <= k <= |ns| && m == At(ns, k) && |ns| == |ss| == |xs|
      invariant Linked(m0, ns) && Holds(ns, ss) && Items(ns) == xs
      invariant SentTo(form, ss, xs, k, c0, f0, outq.State(), log.freed, obytes)
      decreases |ns| - k
    {
      SentMore(form, ss, xs, k, c0, f0, outq.State(), log.freed, obytes);
      var n;
      m, n := SendNext(form, m, outq, log, ns, ss, k);
      obytes := obytes + n;
      k := k + 1;
    }
    AllSent(form, ss, xs, c0, f0, outq.State(), log.freed, obytes);
  }

  lemma AllSent(form: Form, ss: Chain, xs: seq<Item>, c0: Queue, f0: seq<Freed>, c: Queue, f: seq<Freed>, obytes: nat)
    requires |ss| == |xs| && SentTo(form, ss, xs, |ss|, c0, f0, c, f, obytes)
    ensures c == Push(c0, BodyWire(form, ss)) && f == f0 + MacroReleases(form, xs) && obytes == BodyCount(form, ss)
  {
    assert ss[|ss|..] == [] && xs[|ss|..] == [];
    PushNothing(c);
    assert f + [] == f;
  }

  lemma PushNothing(c: Queue)
    ensures Push(c, []) == c
  {
    assert c.q + [] == c.q;
  }
}
