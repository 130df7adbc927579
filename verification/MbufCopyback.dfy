/** m_copyback (kern/uipc_mbuf.c): writing into a chain, extending it as needed. */
module MbufCopyback {
  import opened Bytes
  import opened Pieces
  import opened Mbufs
  import opened MbufBuild

  // ---------- what it should do to the flat contents ----------

  /** f, filled up with zeros to n bytes when it is shorter. */
  function PadTo(f: seq<byte>, n: nat): seq<byte> {
    if |f| < n then f + Zeros(n - |f|) else f
  }

  /** f with d written at position a, which lies within f or at its end. */
  function Overwrite(f: seq<byte>, a: nat, d: seq<byte>): seq<byte>
    requires a <= |f|
  {
    f[..a] + d + if a + |d| < |f| then f[a + |d|..] else []
  }

  /** The contents after d has been copied back at offset a. */
  function CopiedBack(f: seq<byte>, a: nat, d: seq<byte>): seq<byte> {
    Overwrite(PadTo(f, a), a, d)
  }

  /** What is read back is what was written; every other byte that was there is unchanged; the gap is
      zero; and the length is the larger of the old one and the end of what was written. */
  lemma CopiedBackLaw(f: seq<byte>, a: nat, d: seq<byte>)
    ensures var g := CopiedBack(f, a, d);
            && |g| == (if |f| < a + |d| then a + |d| else |f|)
            && g[a..a + |d|] == d
            && (forall i :: 0 <= i < |f| && (i < a || i >= a + |d|) ==> g[i] == f[i])
            && (forall i :: |f| <= i < a ==> g[i] == 0)
  {
  }

  lemma OverwriteMore(f: seq<byte>, a: nat, d: seq<byte>, e: seq<byte>)
    requires a <= |f|
    ensures a + |d| <= |Overwrite(f, a, d)|
    ensures Overwrite(Overwrite(f, a, d), a + |d|, e) == Overwrite(f, a, d + e)
  {
  }

  // ---------- one mbuf of the chain changes ----------

  lemma Replaced(ss: Chain, k: nat, x: seq<byte>)
    requires k < |ss|
    ensures Concat(ss[k := x]) == Concat(ss[..k]) + (x + Concat(ss[k + 1..]))
  {
    var t := ss[k := x];
    Around(t, k);
    assert t[..k] == ss[..k] && t[k + 1..] == ss[k + 1..];
  }

  /** g is f with d written at position a. */
  predicate IsOverwrite(g: seq<byte>, f: seq<byte>, a: nat, d: seq<byte>) {
    a <= |f| && g == Overwrite(f, a, d)
  }

  lemma WriteAround(ss: Chain, k: nat, o: nat, d: seq<byte>, at: nat)
    requires k < |ss| && o <= |ss[k]| && at == |Concat(ss[..k])| + o
    requires o + |d| <= |ss[k]| || k == |ss| - 1
    ensures IsOverwrite(Concat(ss[k := Overwrite(ss[k], o, d)]), Concat(ss), at, d)
  {
    var x := Overwrite(ss[k], o, d);
    Around(ss, k);
    Replaced(ss, k, x);
    OverwriteMiddle(Concat(ss[..k]), ss[k], Concat(ss[k + 1..]), o, d, Concat(ss), at, Concat(ss[k := x]));
  }

  /** Writing inside an mbuf, or past its end when it is the last, is writing into the contents. */
  lemma WriteInPiece(ss: Chain, k: nat, o: nat, d: seq<byte>)
    requires k < |ss| && o <= |ss[k]|
    requires o + |d| <= |ss[k]| || k == |ss| - 1
    ensures IsOverwrite(Concat(ss[k := Overwrite(ss[k], o, d)]), Concat(ss), Start(ss, k) + o, d)
  {
    StartIsLength(ss, k);
    WriteAround(ss, k, o, d, Start(ss, k) + o);
  }

  lemma OverwriteMiddle(a: seq<byte>, b: seq<byte>, c: seq<byte>, o: nat, d: seq<byte>,
                        f: seq<byte>, at: nat, g: seq<byte>)
    requires o <= |b| && (o + |d| <= |b| || c == []) && f == a + (b + c) && at == |a| + o
    requires g == a + (Overwrite(b, o, d) + c)
    ensures g == Overwrite(f, at, d)
  {
  }

  lemma GrowLast(ss: Chain, n: nat)
    requires ss != []
    ensures Concat(ss[|ss| - 1 := ss[|ss| - 1] + Zeros(n)]) == Concat(ss) + Zeros(n)
  {
    var k := |ss| - 1;
    Around(ss, k);
    Replaced(ss, k, ss[k] + Zeros(n));
    Assoc(Concat(ss[..k]), ss[k], Zeros(n));
  }

  // ---------- the repaired m_copyback on the heap ----------

  lemma WrittenBytes(dat: seq<byte>, off: nat, len: nat, o: nat, d: seq<byte>)
    requires off + len <= |dat| && o <= len && off + o + |d| <= |dat|
    ensures var l := if len < o + |d| then o + |d| else len;
            (dat[..off + o] + d + dat[off + o + |d|..])[off..off + l] == Overwrite(dat[off..off + len], o, d)
  {
    var y, b := dat[..off + o] + d + dat[off + o + |d|..], dat[off..off + len];
    assert b[..o] == dat[off..off + o] && y[off..off + o + |d|] == dat[off..off + o] + d;
    if o + |d| < len {
      assert b[o + |d|..] == dat[off + o + |d|..off + len] == y[off + o + |d|..off + len];
      SliceSplit(y, off, off + o + |d|, off + len);
    }
  }

  /** memset or memcpy to mtod(m) + o, and the m_len that goes with it. */
  method Write(m: Mbuf, o: nat, d: seq<byte>, ghost ns: seq<Mbuf>, ghost ss: Chain, ghost k: nat)
    requires Linked(At(ns, 0), ns) && Holds(ns, ss) && k < |ns| && m == ns[k]
    requires o <= m.len && m.off + o + |d| <= |m.dat|
    modifies m`dat, m`len
    ensures o <= |ss[k]| && Holds(ns, ss[k := Overwrite(ss[k], o, d)])
    ensures |m.dat| == old(|m.dat|)
  {
    assert ns[k].len == |ss[k]| && ns[k].Bytes() == ss[k];
    ghost var x := Overwrite(ss[k], o, d);
    WrittenBytes(m.dat, m.off, m.len, o, d);
    m.dat := m.dat[..m.off + o] + d + m.dat[m.off + o + |d|..];
    if m.len < o + |d| {
      m.len := o + |d|;
    }
    assert m.len == |x| && m.Bytes() == x;
  }

  /** The chain goes on from old nodes to new ones. */
  ghost predicate Extends(ns': seq<Mbuf>, ns: seq<Mbuf>) {
    |ns| <= |ns'| && forall i :: 0 <= i < |ns| ==> ns'[i] == ns[i]
  }

  /** A new last mbuf holding d, which fits it. */
  method AddLast(m0: Mbuf, d: seq<byte>, ghost ns: seq<Mbuf>, ghost ss: Chain)
      returns (m: Mbuf, ghost ns': seq<Mbuf>, ghost ss': Chain)
    requires Linked(m0, ns) && Holds(ns, ss) && |d| <= MLEN
    modifies ns`next, m0`pktlen
    ensures Linked(m0, ns') && Holds(ns', ss') && ss' == ss + [d] && Concat(ss') == Concat(ss) + d
    ensures |ns'| == |ns| + 1 && Extends(ns', ns) && m == ns'[|ns|] && fresh(m)
    ensures |m.dat| == MLEN && m.off == 0 && m.len == |d| && m.next == null
  {
    m := AddMbuf(m0, ns, ss);
    FillLast(m, d, ns, ss);
    ns', ss' := ns + [m], ss + [d];
    ConcatAppend(ss, [d]);
    ConcatOne(d);
  }

  /** The first loop: find the mbuf with the offset.  Repaired: mbufs are skipped by their m_len, not by
      their capacity, and a chain that is too short is filled up with zeros. */
  method Reach(m0: Mbuf, offset0: nat, ghost ns0: seq<Mbuf>, ghost ss0: Chain)
      returns (m: Mbuf, offset: nat, ghost ns: seq<Mbuf>, ghost ss: Chain, ghost k: nat)
    requires Linked(m0, ns0) && Holds(ns0, ss0)
    modifies ns0`next, ns0`dat, ns0`len, m0`pktlen
    ensures Linked(m0, ns) && Holds(ns, ss) && Extends(ns, ns0)
    ensures forall i :: |ns0| <= i < |ns| ==> fresh(ns[i])
    ensures k < |ns| && m == ns[k] && Located(ss, k, offset, offset0)
    ensures Concat(ss) == PadTo(Concat(ss0), offset0)
  {
    m, offset, k := m0, offset0, 0;
    while m.len < offset && m.next != null
      invariant 0 <= k < |ns0| && m == ns0[k]
      invariant Start(ss0, k) + offset == offset0
      decreases |ns0| - k
    {
      offset := offset - m.len;
      m := m.next;
      k := k + 1;
    }
    if offset <= m.len {
      ns, ss := ns0, ss0;
      InsideOne(ss, k, 0, offset);
    } else {
      m, offset, ns, ss, k := ZeroFill(m0, m, offset, offset0, ns0, ss0);
    }
  }

  lemma PadMore(f: seq<byte>, n: nat, at: nat)
    requires |f| + n <= at
    ensures PadTo(f + Zeros(n), at) == PadTo(f, at)
  {
  }

  /** Zeros in what room the last mbuf has, up to n of them. */
  method PadLast(m: Mbuf, n: nat, ghost ns: seq<Mbuf>, ghost ss: Chain, ghost at: nat) returns (ghost ss': Chain)
    requires ns != [] && Linked(At(ns, 0), ns) && Holds(ns, ss) && m == ns[|ns| - 1]
    requires Total(ss) + n == at
    modifies m`dat, m`len
    ensures Holds(ns, ss') && PadTo(Concat(ss'), at) == PadTo(Concat(ss), at)
    ensures Total(ss) <= Total(ss') <= at && Total(ss') - Total(ss) == m.len - old(m.len)
  {
    assert m.len == |ss[|ns| - 1]|;
    var z := Min(n, |m.dat| - m.off - m.len);
    GrowLast(ss, z);
    PadMore(Concat(ss), z, at);
    Write(m, m.len, seq(z, _ => 0), ns, ss, |ns| - 1);
    ss' := ss[|ns| - 1 := ss[|ns| - 1] + Zeros(z)];
    assert Overwrite(ss[|ns| - 1], |ss[|ns| - 1]|, Zeros(z)) == ss'[|ns| - 1];
  }

  /** A new last mbuf holding n zeros. */
  method AddZeros(m0: Mbuf, n: nat, ghost ns: seq<Mbuf>, ghost ss: Chain, ghost at: nat)
      returns (m: Mbuf, ghost ns': seq<Mbuf>, ghost ss': Chain)
    requires Linked(m0, ns) && Holds(ns, ss) && n <= MLEN && Total(ss) + n <= at
    modifies ns`next, m0`pktlen
    ensures Linked(m0, ns') && Holds(ns', ss')
    ensures Total(ss') == Total(ss) + n && PadTo(Concat(ss'), at) == PadTo(Concat(ss), at)
    ensures |ns'| == |ns| + 1 && Extends(ns', ns) && m == ns'[|ns|] && fresh(m) && m.len == n
  {
    PadMore(Concat(ss), n, at);
    m, ns', ss' := AddLast(m0, seq(n, _ => 0), ns, ss);
    assert seq(n, _ => 0) == Zeros(n);
  }

  /** New mbufs of zeros until the contents reach the offset. */
  method FillNew(m0: Mbuf, last: Mbuf, offset0: nat, at: nat, ghost ns0: seq<Mbuf>, ghost ss0: Chain)
      returns (m: Mbuf, offset: nat, ghost ns: seq<Mbuf>, ghost ss: Chain)
    requires Linked(m0, ns0) && Holds(ns0, ss0) && last == ns0[|ns0| - 1]
    requires last.len <= offset0 && Total(ss0) + (offset0 - last.len) == at
    modifies ns0`next, m0`pktlen
    ensures Linked(m0, ns) && Holds(ns, ss) && Extends(ns, ns0) && m == ns[|ns| - 1] && offset == m.len
    ensures forall i :: |ns0| <= i < |ns| ==> fresh(ns[i])
    ensures Total(ss) == at && PadTo(Concat(ss), at) == PadTo(Concat(ss0), at)
  {
    m, offset := last, offset0;
    ns, ss := ns0, ss0;
    while m.len < offset
      invariant ns != [] && m == ns[|ns| - 1] && m.len <= offset
      invariant Linked(m0, ns) && Holds(ns, ss) && Extends(ns, ns0)
      invariant forall i :: |ns0| <= i < |ns| ==> fresh(ns[i])
      invariant PadTo(Concat(ss), at) == PadTo(Concat(ss0), at)
      invariant Total(ss) + (offset - m.len) == at
      decreases offset - m.len
    {
      offset := offset - m.len;
      m, ns, ss := AddZeros(m0, Min(offset, MLEN), ns, ss, at);
    }
  }

  /** At the last mbuf, short of the offset: zeros in what room it has, and then in new mbufs. */
  method ZeroFill(m0: Mbuf, last: Mbuf, offset1: nat, at: nat, ghost ns0: seq<Mbuf>, ghost ss0: Chain)
      returns (m: Mbuf, offset: nat, ghost ns: seq<Mbuf>, ghost ss: Chain, ghost k: nat)
    requires Linked(m0, ns0) && Holds(ns0, ss0) && last == ns0[|ns0| - 1]
    requires last.len < offset1 && Start(ss0, |ss0| - 1) + offset1 == at
    modifies ns0`next, ns0`dat, ns0`len, m0`pktlen
    ensures Linked(m0, ns) && Holds(ns, ss) && Extends(ns, ns0)
    ensures forall i :: |ns0| <= i < |ns| ==> fresh(ns[i])
    ensures k < |ns| && m == ns[k] && Located(ss, k, offset, at)
    ensures Concat(ss) == PadTo(Concat(ss0), at)
  {
    StartEnd(ss0);
    ss := PadLast(last, offset1 - last.len, ns0, ss0, at);
    m, offset, ns, ss := FillNew(m0, last, offset1, at, ns0, ss);
    k := |ns| - 1;
    StartEnd(ss);
  }

  // ---------- the second loop ----------

  /** When the last mbuf is full, a new one goes behind it. */
  method MakeRoom(m0: Mbuf, m1: Mbuf, offset1: nat, ghost at: nat, ghost ns: seq<Mbuf>, ghost ss: Chain, ghost k: nat)
      returns (m: Mbuf, offset: nat, ghost ns': seq<Mbuf>, ghost ss': Chain, ghost k': nat)
    requires Linked(m0, ns) && Holds(ns, ss) && k < |ns| && m1 == ns[k] && Located(ss, k, offset1, at)
    modifies ns`next, m0`pktlen
    ensures Linked(m0, ns') && Holds(ns', ss') && Extends(ns', ns) && k' < |ns'| && m == ns'[k']
    ensures forall i :: |ns| <= i < |ns'| ==> fresh(ns'[i])
    ensures Concat(ss') == Concat(ss) && Located(ss', k', offset, at)
    ensures |ns'| - k' <= |ns| - k && (m.next == null ==> offset < |m.dat| - m.off)
  {
    m, offset, k', ns', ss' := m1, offset1, k, ns, ss;
    assert m.len == |ss[k]|;
    if m.next == null && offset == |m.dat| - m.off {
      StartEnd(ss);
      m, ns', ss' := AddLast(m0, [], ns, ss);
      offset, k' := 0, |ns|;
      assert Concat(ss) + [] == Concat(ss);
      StartEnd(ss');
    }
  }

  lemma {:induction false} StartOfUpdated(ss: Chain, k: nat, x: seq<byte>, j: nat)
    requires j <= k < |ss|
    ensures Start(ss[k := x], j) == Start(ss, j)
  {
    if j == 0 {
    } else {
      StartOfUpdated(ss, k, x, j - 1);
    }
  }

  /** One turn of the copy loop.  Repaired: an mbuf that others follow takes no more than it holds; cp
      moves on with what is copied. */
  method Turn(m1: Mbuf, offset1: nat, cp: seq<byte>, ghost at: nat, ghost ns: seq<Mbuf>, ghost ss: Chain, ghost k: nat)
      returns (m: Mbuf, offset: nat, n: nat, ghost ss': Chain, ghost k': nat)
    requires Linked(At(ns, 0), ns) && Holds(ns, ss) && k < |ns| && m1 == ns[k]
    requires cp != [] && Located(ss, k, offset1, at) && (m1.next == null ==> offset1 < |m1.dat| - m1.off)
    modifies m1`dat, m1`len
    ensures Holds(ns, ss') && k' < |ns| && m == ns[k']
    ensures n <= |cp| && at <= Total(ss) && Concat(ss') == Overwrite(Concat(ss), at, cp[..n])
    ensures Located(ss', k', offset, at + n)
    ensures n > 0 || k' > k
    ensures k <= k'
  {
    assert m1.len == |ss[k]|;
    m, k' := m1, k;
    var room := if m.next == null then |m.dat| - m.off else m.len;
    n := Min(room - offset1, |cp|);
    WriteInPiece(ss, k, offset1, cp[..n]);
    ghost var x := Overwrite(ss[k], offset1, cp[..n]);
    StartOfUpdated(ss, k, x, k);
    Write(m, offset1, cp[..n], ns, ss, k);
    ss' := ss[k := x];
    offset := offset1 + n;
    if n < |cp| && m.next != null {
      m, offset, k' := m.next, 0, k + 1;
    }
  }

  /** A whole turn: make room, write, move cp on. */
  method CopyTurn(m0: Mbuf, m1: Mbuf, offset1: nat, cp: seq<byte>, ghost at: nat,
                  ghost ns: seq<Mbuf>, ghost ss: Chain, ghost k: nat)
      returns (m: Mbuf, offset: nat, cp': seq<byte>, ghost at': nat,
               ghost ns': seq<Mbuf>, ghost ss': Chain, ghost k': nat)
    requires Linked(m0, ns) && Holds(ns, ss) && k < |ns| && m1 == ns[k] && Located(ss, k, offset1, at)
    requires cp != [] && at <= Total(ss)
    modifies ns`next, ns`dat, ns`len, m0`pktlen
    ensures Linked(m0, ns') && Holds(ns', ss') && Extends(ns', ns)
    ensures forall i :: |ns| <= i < |ns'| ==> fresh(ns'[i])
    ensures k' < |ns'| && m == ns'[k'] && Located(ss', k', offset, at')
    ensures at' <= Total(ss') && Overwrite(Concat(ss'), at', cp') == Overwrite(Concat(ss), at, cp)
    ensures |cp'| < |cp| || (|cp'| == |cp| && |ns'| - k' < |ns| - k)
  {
    var n;
    m, offset, ns', ss', k' := MakeRoom(m0, m1, offset1, at, ns, ss, k);
    m, offset, n, ss', k' := Turn(m, offset, cp, at, ns', ss', k');
    OverwriteMore(Concat(ss), at, cp[..n], cp[n..]);
    assert cp == cp[..n] + cp[n..];
    at', cp' := at + n, cp[n..];
  }

  /** The copy loop. */
  method CopyIn(m0: Mbuf, m1: Mbuf, offset1: nat, cp0: seq<byte>, ghost at0: nat,
                ghost ns0: seq<Mbuf>, ghost ss0: Chain, ghost k0: nat)
      returns (ghost ns: seq<Mbuf>, ghost ss: Chain)
    requires Linked(m0, ns0) && Holds(ns0, ss0) && k0 < |ns0| && m1 == ns0[k0] && Located(ss0, k0, offset1, at0)
    requires at0 <= Total(ss0)
    modifies ns0`next, ns0`dat, ns0`len, m0`pktlen
    ensures Linked(m0, ns) && Holds(ns, ss) && Extends(ns, ns0)
    ensures Concat(ss) == Overwrite(Concat(ss0), at0, cp0)
  {
    var m, offset, cp := m1, offset1, cp0;
    ghost var k: nat, at: nat := k0, at0;
    ns, ss := ns0, ss0;
    while cp != []
      invariant Linked(m0, ns) && Holds(ns, ss) && Extends(ns, ns0)
      invariant forall i :: |ns0| <= i < |ns| ==> fresh(ns[i])
      invariant k < |ns| && m == ns[k] && Located(ss, k, offset, at)
      invariant at <= Total(ss) && Overwrite(Concat(ss), at, cp) == Overwrite(Concat(ss0), at0, cp0)
      decreases |cp|, |ns| - k
    {
      m, offset, cp, at, ns, ss, k := CopyTurn(m0, m, offset, cp, at, ns, ss, k);
    }
    assert Overwrite(Concat(ss), at, []) == Concat(ss);
  }

  /** m_copyback, repaired as marked in its parts; and the packet header is brought up to date, which
      the source leaves to nobody. */
  method MCopyback(m: Mbuf, offset: nat, cp: seq<byte>, ghost ns0: seq<Mbuf>, ghost ss0: Chain)
      returns (ghost ns: seq<Mbuf>, ghost ss: Chain)
    requires Linked(m, ns0) && Holds(ns0, ss0)
    modifies ns0`next, ns0`dat, ns0`len, m`pktlen
    ensures Linked(m, ns) && Holds(ns, ss) && Extends(ns, ns0)
    ensures Concat(ss) == CopiedBack(Concat(ss0), offset, cp)
    ensures HeaderAgrees(m, ss)
  {
    ghost var k;
    var at, o;
    at, o, ns, ss, k := Reach(m, offset, ns0, ss0);
    assert offset <= |PadTo(Concat(ss0), offset)|;
    ns, ss := CopyIn(m, at, o, cp, offset, ns, ss, k);
    var total := MTotalLen(m, ns, ss);
    SetPktLen(m, total, ns, ss);
  }

  /** What m_copyback puts in, m_copydata takes out. */
  method CopybackCopydata(m: Mbuf, offset: nat, cp: seq<byte>, ghost ns0: seq<Mbuf>, ghost ss0: Chain)
      returns (r: seq<byte>)
    requires Linked(m, ns0) && Holds(ns0, ss0)
    modifies ns0`next, ns0`dat, ns0`len, m`pktlen
    ensures r == cp
  {
    ghost var ns, ss := MCopyback(m, offset, cp, ns0, ss0);
    CopiedBackLaw(Concat(ss0), offset, cp);
    r := MCopydata(m, offset, |cp|, ns, ss);
  }
}
