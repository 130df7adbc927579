/** What the mbuf operations do to the pieces of a chain, as functions on values, and what that means
    for the flat byte sequence the chain stands for (kern/uipc_mbuf.c). */
module Pieces {
  import opened Bytes

  type Chain = seq<seq<byte>>

  function Total(ss: Chain): nat {
    |Concat(ss)|
  }

  // ---------- walking a chain: the loops that skip whole mbufs ----------

  /** From mbuf k on, skip every mbuf shorter than what is left of n: where the walk stops, and what is
      then left.  A walk off the chain stops at |ss|. */
  function Walk(ss: Chain, k: nat, n: nat): (r: (nat, nat))
    ensures k <= |ss| ==> r.0 <= |ss|
    ensures r.0 < |ss| ==> r.1 <= |ss[r.0]|
    decreases |ss| - k
  {
    if k < |ss| && |ss[k]| < n then Walk(ss, k + 1, n - |ss[k]|) else (k, n)
  }

  lemma {:induction false} WalkOfTail(ss: Chain, k: nat, n: nat)
    requires ss != []
    ensures Walk(ss, k + 1, n) == (Walk(ss[1..], k, n).0 + 1, Walk(ss[1..], k, n).1)
    decreases |ss| - k
  {
    if k < |ss| - 1 && |ss[1..][k]| < n {
      WalkOfTail(ss, k + 1, n - |ss[1..][k]|);
    }
  }

  /** A walk on a chain and on a longer one is the same as far as the first goes. */
  lemma {:induction false} WalkPrefix(ss: Chain, ts: Chain, k: nat, n: nat)
    requires k <= |ss|
    ensures var w := Walk(ss, k, n); Walk(ss + ts, k, n) == Walk(ss + ts, w.0, w.1)
    decreases |ss| - k
  {
    if k < |ss| && |ss[k]| < n {
      WalkPrefix(ss, ts, k + 1, n - |ss[k]|);
    }
  }

  /** Where the k-th mbuf starts in the flat contents. */
  function Start(ss: Chain, k: nat): nat
    requires k <= |ss|
  {
    if k == 0 then 0 else Start(ss, k - 1) + |ss[k - 1]|
  }

  lemma {:induction false} StartIsLength(ss: Chain, k: nat)
    requires k <= |ss|
    ensures Start(ss, k) == Total(ss[..k]) <= Total(ss)
  {
    if k == 0 {
    } else {
      StartIsLength(ss, k - 1);
      assert ss[..k] == ss[..k - 1] + [ss[k - 1]];
      ConcatAppend(ss[..k - 1], [ss[k - 1]]);
      ConcatOne(ss[k - 1]);
    }
    assert ss == ss[..k] + ss[k..];
    ConcatAppend(ss[..k], ss[k..]);
  }

  lemma StartEnd(ss: Chain)
    ensures Start(ss, |ss|) == Total(ss)
  {
    StartIsLength(ss, |ss|);
    assert ss[..|ss|] == ss;
  }

  lemma {:induction false} StartMonotone(ss: Chain, j: nat, k: nat)
    requires j <= k <= |ss|
    ensures Start(ss, j) <= Start(ss, k)
    decreases k
  {
    if j < k {
      StartMonotone(ss, j, k - 1);
    }
  }

  lemma {:induction false} WalkFrom(ss: Chain, k: nat, n: nat)
    requires k < |ss|
    ensures var w := Walk(ss, k, n);
            && Start(ss, w.0) + w.1 == Start(ss, k) + n
            && (w.0 == |ss| ==> w.1 > 0)
    decreases |ss| - k
  {
    if |ss[k]| < n && k + 1 < |ss| {
      WalkFrom(ss, k + 1, n - |ss[k]|);
    }
  }

  /** A walk over no more than the whole chain stops inside it, n bytes from the start. */
  lemma WalkMeasures(ss: Chain, n: nat)
    requires ss != []
    ensures var w := Walk(ss, 0, n);
            && Start(ss, w.0) + w.1 == n
            && (w.0 < |ss| <==> n <= Total(ss))
  {
    WalkFrom(ss, 0, n);
    StartEnd(ss);
    var w := Walk(ss, 0, n);
    if w.0 < |ss| {
      InsideOne(ss, w.0, 0, w.1);
    }
  }

  /** Bytes o to o + n of the k-th mbuf, as a stretch of the flat contents. */
  lemma InsideOne(ss: Chain, k: nat, o: nat, n: nat)
    requires k < |ss| && o + n <= |ss[k]|
    ensures Start(ss, k) + o + n <= Total(ss)
    ensures Concat(ss)[Start(ss, k) + o..Start(ss, k) + o + n] == ss[k][o..o + n]
  {
    StartIsLength(ss, k);
    Around(ss, k);
    Embedded(Concat(ss), Concat(ss[..k]), ss[k], Concat(ss[k + 1..]), o, n);
  }

  lemma Around(ss: Chain, k: nat)
    requires k < |ss|
    ensures Concat(ss) == Concat(ss[..k]) + (ss[k] + Concat(ss[k + 1..]))
  {
    SplitAt(ss, k);
    ConcatAppend(ss[..k], [ss[k]] + ss[k + 1..]);
    ConcatCons(ss[k], ss[k + 1..]);
  }

  lemma Embedded(flat: seq<byte>, a: seq<byte>, b: seq<byte>, c: seq<byte>, o: nat, n: nat)
    requires flat == a + (b + c) && o + n <= |b|
    ensures |a| + o + n <= |flat| && flat[|a| + o..|a| + o + n] == b[o..o + n]
  {
  }

  // ---------- trimming the head: m_adj with a positive length ----------

  function TrimHead(ss: Chain, n: nat): (r: Chain)
    ensures |r| == |ss|
  {
    if ss == [] then []
    else if |ss[0]| < n then [[]] + TrimHead(ss[1..], n - |ss[0]|)
    else [ss[0][n..]] + ss[1..]
  }

  lemma {:induction false} TrimHeadDrops(ss: Chain, n: nat)
    requires n <= Total(ss)
    ensures Concat(TrimHead(ss, n)) == Concat(ss)[n..]
  {
    if ss == [] {
    } else {
      var rest := ss[1..];
      if |ss[0]| < n {
        TrimHeadDrops(rest, n - |ss[0]|);
        assert TrimHead(ss, n)[1..] == TrimHead(rest, n - |ss[0]|);
      } else {
        assert TrimHead(ss, n)[1..] == rest;
      }
    }
  }

  // ---------- trimming the tail: m_adj with a negative length ----------

  lemma {:induction false} TrimHeadAt(ss: Chain, n: nat, j: nat)
    requires j < |ss|
    ensures var w := Walk(ss, 0, n);
            TrimHead(ss, n)[j] == if j < w.0 then [] else if j == w.0 then ss[j][w.1..] else ss[j]
  {
    if |ss[0]| < n {
      var rest, more := ss[1..], n - |ss[0]|;
      WalkOfTail(ss, 0, more);
      assert TrimHead(ss, n)[1..] == TrimHead(rest, more);
      if j > 0 {
        TrimHeadAt(rest, more, j - 1);
        assert TrimHead(ss, n)[j] == TrimHead(rest, more)[j - 1] && ss[j] == rest[j - 1];
      }
    }
  }

  function Empties(n: nat): Chain {
    seq(n, _ => [])
  }

  lemma {:induction false} ConcatEmpties(n: nat)
    ensures Concat(Empties(n)) == []
  {
    if n == 0 {
    } else {
      assert Empties(n)[1..] == Empties(n - 1);
      ConcatEmpties(n - 1);
    }
  }

  /** Repaired: keep the first n bytes of the chain and empty every mbuf after them. */
  function Keep(ss: Chain, n: nat): (r: Chain)
    ensures |r| == |ss|
  {
    if ss == [] then []
    else if |ss[0]| < n then [ss[0]] + Keep(ss[1..], n - |ss[0]|)
    else [ss[0][..n]] + Empties(|ss| - 1)
  }

  lemma {:induction false} KeepTakes(ss: Chain, n: nat)
    requires n <= Total(ss)
    ensures Concat(Keep(ss, n)) == Concat(ss)[..n]
  {
    if ss == [] {
    } else {
      if |ss[0]| < n {
        KeepTakes(ss[1..], n - |ss[0]|);
        assert Keep(ss, n)[1..] == Keep(ss[1..], n - |ss[0]|);
      } else {
        ConcatEmpties(|ss| - 1);
        assert Keep(ss, n)[1..] == Empties(|ss| - 1);
      }
    }
  }

  lemma {:induction false} KeepAt(ss: Chain, n: nat, j: nat)
    requires j < |ss|
    ensures var w := Walk(ss, 0, n);
            Keep(ss, n)[j] == if j < w.0 then ss[j] else if j == w.0 then ss[j][..w.1] else []
  {
    if |ss[0]| < n {
      var rest, more := ss[1..], n - |ss[0]|;
      WalkOfTail(ss, 0, more);
      assert Keep(ss, n)[1..] == Keep(rest, more);
      if j > 0 {
        KeepAt(rest, more, j - 1);
        assert Keep(ss, n)[j] == Keep(rest, more)[j - 1] && ss[j] == rest[j - 1];
      }
    }
  }

  /** As written: the first mbuf that holds what is left of n loses that much of its own tail. */
  function CutFirstFit(ss: Chain, n: nat): (r: Chain)
    ensures |r| == |ss|
  {
    if ss == [] then []
    else if |ss[0]| < n then [ss[0]] + CutFirstFit(ss[1..], n - |ss[0]|)
    else [ss[0][..|ss[0]| - n]] + ss[1..]
  }

  lemma {:induction false} CutFirstFitAt(ss: Chain, n: nat, j: nat)
    requires j < |ss|
    ensures var w := Walk(ss, 0, n);
            CutFirstFit(ss, n)[j] == if j == w.0 then ss[j][..|ss[j]| - w.1] else ss[j]
  {
    if |ss[0]| < n {
      var rest, more := ss[1..], n - |ss[0]|;
      WalkOfTail(ss, 0, more);
      assert CutFirstFit(ss, n)[1..] == CutFirstFit(rest, more);
      if j > 0 {
        CutFirstFitAt(rest, more, j - 1);
        assert CutFirstFit(ss, n)[j] == CutFirstFit(rest, more)[j - 1] && ss[j] == rest[j - 1];
      }
    }
  }

  function Lengths(ss: Chain): (ls: seq<nat>)
    ensures |ls| == |ss|
  {
    seq(|ss|, i requires 0 <= i < |ss| => |ss[i]|)
  }

  function Sum(ls: seq<nat>): nat {
    if ls == [] then 0 else ls[0] + Sum(ls[1..])
  }

  lemma {:induction false} TotalIsSum(ss: Chain)
    ensures Total(ss) == Sum(Lengths(ss))
  {
    if ss == [] {
    } else {
      TotalIsSum(ss[1..]);
      assert Lengths(ss)[1..] == Lengths(ss[1..]);
    }
  }

  lemma {:induction false} SumZero(ls: seq<nat>)
    ensures Sum(ls) == 0 <==> forall i :: 0 <= i < |ls| ==> ls[i] == 0
  {
    if ls == [] {
    } else {
      SumZero(ls[1..]);
      assert forall i :: 1 <= i < |ls| ==> ls[i] == ls[1..][i - 1];
    }
  }

  predicate AtMostOneNonEmpty(ls: seq<nat>) {
    forall i, j :: 0 <= i < j < |ls| ==> ls[i] == 0 || ls[j] == 0
  }

  lemma NonEmptyTail(ls: seq<nat>)
    requires ls != []
    ensures AtMostOneNonEmpty(ls) <==> if ls[0] == 0 then AtMostOneNonEmpty(ls[1..]) else Sum(ls[1..]) == 0
  {
    SumZero(ls[1..]);
    assert forall i :: 1 <= i < |ls| ==> ls[i] == ls[1..][i - 1];
  }

  /** The tail trim does its work on every chain with mbufs of these lengths. */
  ghost predicate CutsTheTail(ls: seq<nat>, n: nat) {
    forall ss: Chain :: Lengths(ss) == ls && n <= Total(ss) ==>
      Concat(CutFirstFit(ss, n)) == Concat(ss)[..Total(ss) - n]
  }

  /** A chain with mbufs of the given lengths, the first non-empty one holding zeros and the rest ones. */
  function Marked(ls: seq<nat>, seen: bool): (ss: Chain)
    ensures Lengths(ss) == ls
  {
    if ls == [] then []
    else
      var rest := Marked(ls[1..], seen || ls[0] > 0);
      var r := [seq(ls[0], _ => if seen then 1 else 0)] + rest;
      assert forall i :: 1 <= i < |r| ==> |r[i]| == Lengths(rest)[i - 1];
      r
  }

  lemma {:induction false} MarkedOnes(ls: seq<nat>)
    ensures forall i :: 0 <= i < Total(Marked(ls, true)) ==> Concat(Marked(ls, true))[i] == 1
  {
    if ls == [] {
    } else {
      MarkedOnes(ls[1..]);
      assert Marked(ls, true)[1..] == Marked(ls[1..], true);
    }
  }

  lemma {:induction false} CutKeepsLength(ss: Chain, n: nat)
    ensures Total(CutFirstFit(ss, n)) <= Total(ss) <= Total(CutFirstFit(ss, n)) + n
  {
    if ss == [] {
    } else {
      if |ss[0]| < n {
        CutKeepsLength(ss[1..], n - |ss[0]|);
        assert CutFirstFit(ss, n)[1..] == CutFirstFit(ss[1..], n - |ss[0]|);
      } else {
        assert CutFirstFit(ss, n)[1..] == ss[1..];
      }
    }
  }

  lemma {:induction false} LoneMbufIsCut(ss: Chain, n: nat)
    requires AtMostOneNonEmpty(Lengths(ss)) && 0 < n <= Total(ss)
    ensures Concat(CutFirstFit(ss, n)) == Concat(ss)[..Total(ss) - n]
  {
    NonEmptyTail(Lengths(ss));
    assert Lengths(ss)[1..] == Lengths(ss[1..]);
    if |ss[0]| == 0 {
      LoneMbufIsCut(ss[1..], n);
      assert CutFirstFit(ss, n)[1..] == CutFirstFit(ss[1..], n);
    } else {
      TotalIsSum(ss[1..]);
      assert CutFirstFit(ss, n)[1..] == ss[1..];
    }
  }

  lemma ZerosThenOnesIsMisCut(a: seq<byte>, rest: Chain, n: nat)
    requires 0 < n <= |a| + Total(rest) && |a| > 0 && Total(rest) > 0
    requires forall i :: 0 <= i < |a| ==> a[i] == 0
    requires forall i :: 0 <= i < Total(rest) ==> Concat(rest)[i] == 1
    ensures Concat(CutFirstFit([a] + rest, n)) != Concat([a] + rest)[..Total([a] + rest) - n]
  {
    var ss, cut := [a] + rest, CutFirstFit([a] + rest, n);
    assert ss[1..] == rest;
    if |a| < n {
      CutKeepsLength(rest, n - |a|);
      assert cut[1..] == CutFirstFit(rest, n - |a|);
    } else {
      assert cut[1..] == rest;
      assert Concat(cut)[|a| - n] == Concat(rest)[0];
      assert Concat(ss)[|a| - n] == a[|a| - n];
    }
  }

  lemma LeadingEmpty(rest: Chain, n: nat)
    requires n > 0
    ensures Concat([[]] + rest) == Concat(rest)
    ensures Concat(CutFirstFit([[]] + rest, n)) == Concat(CutFirstFit(rest, n))
  {
    var ss: Chain := [[]] + rest;
    assert ss[0] == [] && ss[1..] == rest;
    assert CutFirstFit(ss, n)[1..] == CutFirstFit(rest, n);
  }

  /** The tail trim goes wrong here. */
  predicate MisCut(ss: Chain, n: nat) {
    n <= Total(ss) && Concat(CutFirstFit(ss, n)) != Concat(ss)[..Total(ss) - n]
  }

  lemma MisCutBehindEmpty(rest: Chain, n: nat)
    requires n > 0 && MisCut(rest, n)
    ensures MisCut([[]] + rest, n)
  {
    LeadingEmpty(rest, n);
  }

  /** On the marked chain the cut goes wrong as soon as two mbufs are non-empty. */
  lemma {:induction false} MarkedIsMisCut(ls: seq<nat>, n: nat)
    requires !AtMostOneNonEmpty(ls) && 0 < n <= Sum(ls)
    ensures MisCut(Marked(ls, false), n)
  {
    NonEmptyTail(ls);
    if ls[0] == 0 {
      MarkedIsMisCut(ls[1..], n);
      MisCutBehindEmpty(Marked(ls[1..], false), n);
      assert Marked(ls, false) == [[]] + Marked(ls[1..], false);
    } else {
      FrontIsMisCut(ls, n);
    }
  }

  lemma FrontIsMisCut(ls: seq<nat>, n: nat)
    requires ls != [] && ls[0] > 0 && Sum(ls[1..]) > 0 && 0 < n <= Sum(ls)
    ensures MisCut(Marked(ls, false), n)
  {
    TotalIsSum(Marked(ls, false));
    MarkedOnes(ls[1..]);
    TotalIsSum(Marked(ls[1..], true));
    ZerosThenOnesIsMisCut(seq(ls[0], _ => 0 as byte), Marked(ls[1..], true), n);
  }

  /** As written, m_adj with a negative length trims the tail of every chain of a given shape exactly
      when at most one of its mbufs is non-empty. */
  lemma TailTrimAsWritten(ls: seq<nat>, n: nat)
    requires 0 < n <= Sum(ls)
    ensures CutsTheTail(ls, n) <==> AtMostOneNonEmpty(ls)
  {
    if AtMostOneNonEmpty(ls) {
      forall ss: Chain | Lengths(ss) == ls && n <= Total(ss)
        ensures Concat(CutFirstFit(ss, n)) == Concat(ss)[..Total(ss) - n]
      {
        LoneMbufIsCut(ss, n);
      }
    } else {
      MarkedIsMisCut(ls, n);
      assert Lengths(Marked(ls, false)) == ls;
    }
  }

  // ---------- cutting a buffer into mbufs: m_devget ----------

  /** The pieces of a buffer: at most `first` bytes in the first mbuf, at most c in each later one. */
  function Chunks(data: seq<byte>, first: nat, c: nat): (r: Chain)
    requires first > 0 && c > 0
    ensures r != []
    decreases |data|
  {
    if |data| <= first then [data] else [data[..first]] + Chunks(data[first..], c, c)
  }

  lemma {:induction false} ChunksConcat(data: seq<byte>, first: nat, c: nat)
    requires first > 0 && c > 0
    ensures Concat(Chunks(data, first, c)) == data
    decreases |data|
  {
    if |data| <= first {
      ConcatOne(data);
    } else {
      ChunksConcat(data[first..], c, c);
      assert Chunks(data, first, c)[1..] == Chunks(data[first..], c, c);
    }
  }

  /** Every mbuf but the last is full, and the last is not empty unless the buffer is. */
  lemma {:induction false} ChunksFill(data: seq<byte>, first: nat, c: nat)
    requires first > 0 && c > 0
    ensures var r := Chunks(data, first, c);
            && (forall i :: 0 <= i < |r| - 1 ==> |r[i]| == if i == 0 then first else c)
            && |r[|r| - 1]| <= (if |r| == 1 then first else c)
            && (|data| > 0 ==> |r[|r| - 1]| > 0)
    decreases |data|
  {
    if |data| > first {
      ChunksFill(data[first..], c, c);
    }
  }

  /** The number of mbufs: one, and beyond the first as many as c-byte mbufs are needed for the rest. */
  lemma {:induction false} ChunksCount(data: seq<byte>, first: nat, c: nat)
    requires first > 0 && c > 0
    ensures var n := |Chunks(data, first, c)| - 1;
            if |data| <= first then n == 0 else (n - 1) * c < |data| - first <= n * c
    decreases |data|
  {
    if |data| > first {
      ChunksCount(data[first..], c, c);
    }
  }

  /** What the bytes left over add to the chain. */
  function MoreChunks(p: seq<byte>, c: nat): Chain
    requires c > 0
  {
    if p == [] then [] else Chunks(p, c, c)
  }

  lemma ChunksStep(p: seq<byte>, first: nat, c: nat)
    requires first > 0 && c > 0
    ensures var n := Min(|p|, first); Chunks(p, first, c) == [p[..n]] + MoreChunks(p[n..], c)
  {
    if |p| <= first {
      assert p[..|p|] == p;
    }
  }

  // ---------- copying a stretch of a chain: m_copym ----------

  /** How much of mbuf k one turn of m_copym copies, from byte o on, into a new mbuf with this room.
      As written, everything there that is asked for; repaired, no more than there is room for. */
  function TakeLen(form: Form, ss: Chain, k: nat, o: nat, len: nat, room: nat): nat
    requires k < |ss| && o <= |ss[k]|
  {
    var n := Min(|ss[k]| - o, len);
    if form.Repaired? then Min(n, room) else n
  }

  /** One piece is as long as can be: all that is left of the source mbuf, or of what is asked for, or, repaired,
      all that fits the new mbuf. */
  lemma TakesAllItCan(form: Form, ss: Chain, k: nat, o: nat, len: nat, room: nat)
    requires k < |ss| && o <= |ss[k]|
    ensures var n := TakeLen(form, ss, k, o, len, room);
            && o + n <= |ss[k]| && n <= len && (form.Repaired? ==> n <= room)
            && (o + n == |ss[k]| || n == len || (form.Repaired? && n == room))
  {
  }

  /** The pieces m_copym makes of len bytes from byte o of mbuf k on. */
  function Copies(form: Form, ss: Chain, k: nat, o: nat, len: nat, room: nat, more: nat): Chain
    requires k < |ss| ==> o <= |ss[k]|
    requires room > 0 && more > 0
    decreases |ss| - k, len
  {
    if len == 0 || k >= |ss| then []
    else
      var n := TakeLen(form, ss, k, o, len, room);
      [ss[k][o..o + n]] +
      if form.AsWritten? || o + n == |ss[k]| then Copies(form, ss, k + 1, 0, len - n, more, more)
      else Copies(form, ss, k, o + n, len - n, more, more)
  }

  /** Position `at` of the flat contents is byte o of the k-th mbuf. */
  ghost predicate Located(ss: Chain, k: nat, o: int, at: int) {
    k < |ss| && 0 <= o <= |ss[k]| && Start(ss, k) + o == at
  }

  lemma PieceAt(ss: Chain, k: nat, o: nat, n: nat, at: nat)
    requires Located(ss, k, o, at) && o + n <= |ss[k]|
    ensures at + n <= Total(ss) && Concat(ss)[at..at + n] == ss[k][o..o + n]
    ensures n < |ss[k]| - o ==> Located(ss, k, o + n, at + n)
    ensures n == |ss[k]| - o && at + n < Total(ss) ==> Located(ss, k + 1, 0, at + n)
  {
    InsideOne(ss, k, o, n);
    StartEnd(ss);
  }

  /** One turn: what it copies, and where it goes on. */
  lemma CopyTurn(form: Form, ss: Chain, k: nat, o: nat, len: nat, room: nat, more: nat, at: nat)
      returns (n: nat, k': nat, o': nat)
    requires len > 0 && Located(ss, k, o, at)
    requires room > 0 && more > 0 && at + len <= Total(ss)
    ensures n <= len && n <= |ss[k]| - o && Concat(ss)[at..at + n] == ss[k][o..o + n]
    ensures k' < |ss| ==> o' <= |ss[k']|
    ensures Copies(form, ss, k, o, len, room, more) == [ss[k][o..o + n]] + Copies(form, ss, k', o', len - n, more, more)
    ensures k < k' || (k == k' && n > 0)
    ensures n < len ==> Located(ss, k', o', at + n)
    ensures n == TakeLen(form, ss, k, o, len, room)
    ensures form.AsWritten? || o + n == |ss[k]| ==> k' == k + 1 && o' == 0
    ensures form.Repaired? && o + n < |ss[k]| ==> k' == k && o' == o + n
  {
    n := TakeLen(form, ss, k, o, len, room);
    PieceAt(ss, k, o, n, at);
    if form.AsWritten? || o + n == |ss[k]| {
      k', o' := k + 1, 0;
    } else {
      k', o' := k, o + n;
    }
  }

  /** These pieces together are bytes a to b. */
  predicate Makes(ps: Chain, flat: seq<byte>, a: nat, b: nat) {
    a <= b <= |flat| && Concat(ps) == flat[a..b]
  }

  /** One turn: when the others make up the rest of the stretch, all do. */
  lemma CopyGlued(form: Form, ss: Chain, k: nat, o: nat, len: nat, room: nat, more: nat, at: nat, end: nat)
      returns (n: nat, k': nat, o': nat)
    requires len > 0 && Located(ss, k, o, at)
    requires room > 0 && more > 0 && at + len == end <= Total(ss)
    ensures n <= len && (k < k' || (k == k' && n > 0)) && (k' < |ss| ==> o' <= |ss[k']|)
    ensures n < len ==> Located(ss, k', o', at + n)
    ensures Makes(Copies(form, ss, k', o', len - n, more, more), Concat(ss), at + n, end) ==>
              Makes(Copies(form, ss, k, o, len, room, more), Concat(ss), at, end)
  {
    n, k', o' := CopyTurn(form, ss, k, o, len, room, more, at);
    var rest := Copies(form, ss, k', o', len - n, more, more);
    if Makes(rest, Concat(ss), at + n, end) {
      GlueTo(Copies(form, ss, k, o, len, room, more), Concat(ss), at, at + n, end, ss[k][o..o + n], rest);
    }
  }

  /** The pieces together are the stretch asked for. */
  lemma {:induction false} CopiesConcat(form: Form, ss: Chain, k: nat, o: nat, len: nat, room: nat, more: nat,
                                        at: nat, end: nat)
    requires len > 0 ==> Located(ss, k, o, at)
    requires k < |ss| ==> o <= |ss[k]|
    requires room > 0 && more > 0 && at + len == end <= Total(ss)
    ensures Makes(Copies(form, ss, k, o, len, room, more), Concat(ss), at, end)
    decreases |ss| - k, len
  {
    if len == 0 {
      assert Concat(ss)[at..end] == [];
    } else {
      var n, k', o' := CopyGlued(form, ss, k, o, len, room, more, at, end);
      CopiesConcat(form, ss, k', o', len - n, more, more, at + n, end);
    }
  }

  lemma GlueTo(all: Chain, flat: seq<byte>, a: nat, b: nat, c: nat, piece: seq<byte>, rest: Chain)
    requires a <= b <= c <= |flat| && piece == flat[a..b] && Concat(rest) == flat[b..c] && all == [piece] + rest
    ensures Concat(all) == flat[a..c]
  {
    ConcatCons(piece, rest);
    SliceSplit(flat, a, b, c);
  }

  /** Repaired, every piece fits the mbuf it goes to. */
  lemma {:induction false} CopiesFit(ss: Chain, k: nat, o: nat, len: nat, room: nat, more: nat)
    requires k < |ss| ==> o <= |ss[k]|
    requires room > 0 && more > 0
    ensures AllFit(Copies(Repaired, ss, k, o, len, room, more), room, more)
    decreases |ss| - k, len
  {
    if len > 0 && k < |ss| {
      var n := TakeLen(Repaired, ss, k, o, len, room);
      if o + n == |ss[k]| {
        CopiesFit(ss, k + 1, 0, len - n, more, more);
      } else {
        CopiesFit(ss, k, o + n, len - n, more, more);
      }
    }
  }

  /** The first piece fits in `room` bytes, the others in `more`. */
  predicate AllFit(ps: Chain, room: nat, more: nat) {
    forall i :: 0 <= i < |ps| ==> |ps[i]| <= if i == 0 then room else more
  }

  lemma AllFitCons(p: seq<byte>, ps: Chain, room: nat, more: nat)
    ensures AllFit([p] + ps, room, more) <==> |p| <= room && AllFit(ps, more, more)
  {
    var all := [p] + ps;
    assert all[0] == p && forall i {:trigger ps[i]} :: 0 <= i < |ps| ==> all[i + 1] == ps[i];
  }

  /** What a stretch up to `end` takes of the j-th mbuf fits in `more` bytes. */
  predicate PartFits(ss: Chain, j: nat, end: nat, more: nat)
    requires j < |ss|
  {
    Start(ss, j) < end ==> Min(|ss[j]|, end - Start(ss, j)) <= more
  }

  predicate LaterFit(ss: Chain, k: nat, end: nat, more: nat) {
    forall j :: k < j < |ss| ==> PartFits(ss, j, end, more)
  }

  /** As written, each piece is all that the stretch takes of one mbuf; so the pieces fit exactly when
      that much of the first mbuf fits in `room` bytes and of each later one in `more`. */
  lemma {:induction false} CopiesFitAsWritten(ss: Chain, k: nat, o: nat, len: nat, room: nat, more: nat, at: nat)
    requires len > 0 && Located(ss, k, o, at) && at + len <= Total(ss)
    requires room > 0 && more > 0
    ensures AllFit(Copies(AsWritten, ss, k, o, len, room, more), room, more)
       <==> Min(|ss[k]| - o, len) <= room && LaterFit(ss, k, at + len, more)
    decreases |ss| - k
  {
    var n, k', o' := CopyTurn(AsWritten, ss, k, o, len, room, more, at);
    AllFitCons(ss[k][o..o + n], Copies(AsWritten, ss, k', o', len - n, more, more), room, more);
    if n < len {
      CopiesFitAsWritten(ss, k + 1, 0, len - n, more, more, at + n);
      LaterFitStep(ss, k, at + len, more);
    } else {
      NothingLater(ss, k, at + len, more);
    }
  }

  lemma LaterFitStep(ss: Chain, k: nat, end: nat, more: nat)
    requires k + 1 < |ss|
    ensures LaterFit(ss, k, end, more) <==> PartFits(ss, k + 1, end, more) && LaterFit(ss, k + 1, end, more)
  {
  }

  lemma NothingLater(ss: Chain, k: nat, end: nat, more: nat)
    requires k < |ss| && end <= Start(ss, k + 1)
    ensures LaterFit(ss, k, end, more)
  {
    forall j | k < j < |ss|
      ensures PartFits(ss, j, end, more)
    {
      StartMonotone(ss, k + 1, j);
    }
  }

  // ---------- stretches beyond the end of a chain ----------

  function Zeros(n: nat): seq<byte> {
    seq(n, _ => 0)
  }

  /** As many mbufs of c zeros as are needed for n bytes. */
  function ZeroMbufs(n: int, c: nat): Chain
    requires c > 0
  {
    if n <= 0 then [] else [Zeros(c)] + ZeroMbufs(n - c, c)
  }

  lemma {:induction false} ZeroMbufsReach(n: int, c: nat)
    requires c > 0
    ensures forall j :: 0 <= j < |ZeroMbufs(n, c)| ==> ZeroMbufs(n, c)[j] == Zeros(c)
    ensures n <= Total(ZeroMbufs(n, c)) < if n <= 0 then 1 else n + c
    ensures Concat(ZeroMbufs(n, c)) == Zeros(Total(ZeroMbufs(n, c)))
  {
    if n <= 0 {
    } else {
      ZeroMbufsReach(n - c, c);
      assert ZeroMbufs(n, c)[1..] == ZeroMbufs(n - c, c);
    }
  }

  /** The first n bytes, with zeros where there are no more. */
  function Padded(s: seq<byte>, n: nat): (r: seq<byte>)
    ensures |r| == n
  {
    if n <= |s| then s[..n] else s + Zeros(n - |s|)
  }

  lemma PaddedMore(s: seq<byte>, n: nat, m: nat, a: nat)
    requires a <= n <= m
    ensures Padded(s, m)[a..n] == Padded(s, n)[a..n]
  {
  }
}
