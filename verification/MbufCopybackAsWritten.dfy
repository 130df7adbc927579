/** m_copyback as the text of the source has it (kern/uipc_mbuf.c), on values, and exactly when it does its work. */
module MbufCopybackAsWritten {
  import opened Bytes
  import opened Mbufs
  import opened Pieces
  import opened MbufCopyback

  // ---------- the code ----------

  /** M_PKTHDR, M_EXT, and whether any other flag is set. */
  datatype Flags = Flags(pkthdr: bool, ext: bool, other: bool)

  /** get_total_len.  It compares m_flags as a whole, and looks at nothing else. */
  function TotalLen(f: Flags): (n: nat)
    ensures n > 0
  {
    if f == Flags(true, false, false) then MHLEN
    else if f == Flags(false, true, false) then MCLBYTES
    else MLEN
  }

  /** An mbuf: its flags, what is stored from m_data on to the end of the area, and m_len. */
  datatype Node = Node(flags: Flags, dat: seq<byte>, len: nat) {
    predicate Valid() {
      len <= |dat|
    }

    function Cap(): (n: nat)
      ensures n > 0
    {
      TotalLen(flags)
    }

    function Bytes(): seq<byte>
      requires Valid()
    {
      dat[..len]
    }
  }

  predicate AllValid(ns: seq<Node>) {
    forall i :: 0 <= i < |ns| ==> ns[i].Valid()
  }

  function Flat(ns: seq<Node>): seq<byte>
    requires AllValid(ns)
  {
    if ns == [] then [] else ns[0].Bytes() + Flat(ns[1..])
  }

  /** How many bytes one turn of the second loop copies. */
  function Width(n: Node, offset: nat, len: nat): nat
    requires offset <= n.Cap()
  {
    Min(n.Cap() - offset, len)
  }

  /** What is written, and what m_len then claims, lies in the area. */
  predicate Holding(n: Node, offset: nat, len: nat) {
    offset <= n.Cap() && offset + Width(n, offset, len) <= |n.dat|
  }

  /** What m_len then is. */
  function NewLen(cap: nat, len: nat, offset: nat, n: nat): nat {
    if len < offset + n then Min(cap, offset + n) else len
  }

  /** What one turn of the second loop does to an mbuf: only an empty one has its gap zeroed, and the
      bytes always come from the start of d. */
  function Put(n: Node, offset: nat, d: seq<byte>, len: nat): (r: Node)
    requires n.Valid() && 0 < len <= |d| && Holding(n, offset, len)
    ensures r.Valid() && r.len == NewLen(n.Cap(), n.len, offset, len)
  {
    var dat := if n.len == 0 then Zeros(offset) + n.dat[offset..] else n.dat;
    var w := Width(n, offset, len);
    Node(n.flags, dat[..offset] + d[..w] + dat[offset + w..], NewLen(n.Cap(), n.len, offset, len))
  }

  /** The mbuf the second loop works on: a new one, with its full length, when none is left. */
  function Head(ns: seq<Node>): (n: Node)
    requires AllValid(ns)
    ensures n.Valid()
  {
    if ns == [] then Node(Flags(false, false, false), Zeros(MLEN), MLEN) else ns[0]
  }

  function Tail(ns: seq<Node>): (r: seq<Node>)
    requires AllValid(ns)
    ensures AllValid(r)
  {
    if ns == [] then [] else ns[1..]
  }

  /** Every turn of the second loop stays inside its mbuf. */
  predicate Inside(ns: seq<Node>, offset: nat, len: nat)
    requires AllValid(ns)
    decreases len, offset
  {
    len == 0 || (Holding(Head(ns), offset, len) && Inside(Tail(ns), 0, len - Width(Head(ns), offset, len)))
  }

  /** The second loop: d never moves on. */
  function Loop(ns: seq<Node>, offset: nat, d: seq<byte>, len: nat): (r: seq<Node>)
    requires AllValid(ns) && len <= |d| && Inside(ns, offset, len)
    ensures AllValid(r)
    decreases len, offset
  {
    if len == 0 then ns
    else [Put(Head(ns), offset, d, len)] + Loop(Tail(ns), 0, d, len - Width(Head(ns), offset, len))
  }

  /** No number of bytes to copy is negative, and every write stays inside an mbuf. */
  predicate Defined(ns: seq<Node>, offset: nat, len: nat)
    requires AllValid(ns)
  {
    if ns != [] && ns[0].Cap() < offset then Defined(ns[1..], offset - ns[0].Cap(), len)
    else Inside(ns, offset, len)
  }

  /** m_copyback: the first loop skips mbufs by what get_total_len says. */
  function Copyback(ns: seq<Node>, offset: nat, d: seq<byte>): (r: seq<Node>)
    requires AllValid(ns) && Defined(ns, offset, |d|)
    ensures AllValid(r)
  {
    if ns != [] && ns[0].Cap() < offset then [ns[0]] + Copyback(ns[1..], offset - ns[0].Cap(), d)
    else Loop(ns, offset, d, |d|)
  }

  /** It does its work on this input. */
  predicate Right(ns: seq<Node>, offset: nat, d: seq<byte>)
    requires AllValid(ns)
  {
    Defined(ns, offset, |d|) && Flat(Copyback(ns, offset, d)) == CopiedBack(Flat(ns), offset, d)
  }

  /** A header mbuf with another flag set, as of a broadcast packet, counts as a plain one: when its 72 bytes
      are full, m_copyback behind them writes outside of it. */
  lemma MarkedHeaderOverruns(dat: seq<byte>, d: seq<byte>)
    requires |dat| == MHLEN && |d| > 0
    ensures !Right([Node(Flags(true, false, true), dat, MHLEN)], MHLEN, d)
  {
    assert !Holding(Node(Flags(true, false, true), dat, MHLEN), MHLEN, |d|);
  }

  // ---------- when it works ----------

  /** The flags of an mbuf, how much room there is from m_data on, and m_len. */
  datatype Cell = Cell(flags: Flags, room: nat, len: nat) {
    function Cap(): (n: nat)
      ensures n > 0
    {
      TotalLen(flags)
    }
  }

  predicate ValidShape(cs: seq<Cell>) {
    forall i :: 0 <= i < |cs| ==> cs[i].len <= cs[i].room
  }

  function Shape(ns: seq<Node>): (r: seq<Cell>)
    ensures |r| == |ns|
  {
    if ns == [] then [] else [Cell(ns[0].flags, |ns[0].dat|, ns[0].len)] + Shape(ns[1..])
  }

  predicate Empty(cs: seq<Cell>) {
    cs == [] || (cs[0].len == 0 && Empty(cs[1..]))
  }

  /** How many mbufs the first loop passes. */
  function Passed(cs: seq<Cell>, offset: nat): (k: nat)
    ensures k <= |cs|
  {
    if cs != [] && cs[0].Cap() < offset then 1 + Passed(cs[1..], offset - cs[0].Cap()) else 0
  }

  /** What is then left of the offset. */
  function Left(cs: seq<Cell>, offset: nat): nat {
    if cs != [] && cs[0].Cap() < offset then Left(cs[1..], offset - cs[0].Cap()) else offset
  }

  function Lens(cs: seq<Cell>): nat {
    if cs == [] then 0 else cs[0].len + Lens(cs[1..])
  }

  /** All n bytes go into one mbuf and stay inside it, with no gap behind data it has, and either into bytes it
      has or with no data behind it. */
  predicate InOne(c: Cell, rest: seq<Cell>, offset: nat, n: nat) {
    && n <= c.Cap() - offset && offset + n <= c.room
    && (offset <= c.len || c.len == 0) && (offset + n <= c.len || Empty(rest))
  }

  /** An mbuf before these has lost its last k bytes, fewer than n: then the first of these must gain just as
      many, or all that is left is overwritten. */
  predicate MakesUp(cs: seq<Cell>, n: nat, k: nat) {
    if cs == [] then n == MLEN
    else n <= cs[0].Cap() && n <= cs[0].room
         && (cs[0].len + k == n || (Empty(cs[1..]) && cs[0].len + k <= n))
  }

  /** The second loop does its work.  Either all bytes go into one mbuf, or they just fill a new one; but when
      the offset is at the end of the first mbuf, that one takes nothing, is filled up with zeros if it is
      empty, and cut off there if it has more data. */
  predicate Takes(cs: seq<Cell>, offset: nat, n: nat) {
    if cs == [] then offset + n == MLEN || (offset == MLEN && n == MLEN)
    else
      var c, rest := cs[0], cs[1..];
      if offset < c.Cap() then InOne(c, rest, offset, n)
      else offset == c.Cap() <= c.room
           && if c.len == 0 then Empty(rest) && Takes(rest, 0, n)
              else if c.len == offset then Takes(rest, 0, n)
              else offset < c.len < offset + n && MakesUp(rest, n, c.len - offset)
  }

  /** The first of these has the offset at its end, and so much data behind it that it is left as it is. */
  predicate LeftAsIs(cs: seq<Cell>, offset: nat, n: nat) {
    cs != [] && offset == cs[0].Cap() && cs[0].len >= offset + n
  }

  /** Where the second loop puts the first byte. */
  function Lands(cs: seq<Cell>, offset: nat, n: nat): nat {
    if LeftAsIs(cs, offset, n) then cs[0].len else offset
  }

  /** The mbufs passed hold as many bytes as get_total_len says, together, so that the first byte lands at the
      offset, and the second loop does its work from there on. */
  predicate Works(cs: seq<Cell>, offset: nat, n: nat) {
    var k, at := Passed(cs, offset), Left(cs, offset);
    && Lens(cs[..k]) + Lands(cs[k..], at, n) == offset
    && if LeftAsIs(cs[k..], at, n) then Takes(cs[k + 1..], 0, n) else Takes(cs[k..], at, n)
  }

  // ---------- flat contents ----------

  lemma FlatCons(n: Node, ns: seq<Node>)
    requires n.Valid() && AllValid(ns)
    ensures AllValid([n] + ns) && Flat([n] + ns) == n.Bytes() + Flat(ns)
  {
    assert ([n] + ns)[1..] == ns;
  }

  lemma {:induction false} EmptyIsFlat(ns: seq<Node>)
    requires AllValid(ns)
    ensures Empty(Shape(ns)) <==> Flat(ns) == []
  {
    if ns == [] {
    } else {
      EmptyIsFlat(ns[1..]);
      assert Shape(ns)[1..] == Shape(ns[1..]);
    }
  }

  /** Behind a prefix that the offset is past, copying back is copying back into the rest. */
  lemma BehindPrefix(x: seq<byte>, f: seq<byte>, a: nat, d: seq<byte>)
    requires |x| <= a
    ensures CopiedBack(x + f, a, d) == x + CopiedBack(f, a - |x|, d)
  {
    assert PadTo(x + f, a) == x + PadTo(f, a - |x|);
    OverwriteBehind(x, PadTo(f, a - |x|), a, d, x + PadTo(f, a - |x|));
  }

  lemma OverwriteBehind(x: seq<byte>, p: seq<byte>, a: nat, d: seq<byte>, xp: seq<byte>)
    requires xp == x + p && |x| <= a <= |xp|
    ensures Overwrite(xp, a, d) == x + Overwrite(p, a - |x|, d)
  {
    assert xp[..a] == x + p[..a - |x|];
    if a + |d| < |xp| {
      assert xp[a + |d|..] == p[a - |x| + |d|..];
    }
  }

  lemma AfterPrefix(x: seq<byte>, f: seq<byte>, g: seq<byte>, xf: seq<byte>, xg: seq<byte>,
                    a: nat, at: nat, d: seq<byte>)
    requires xf == x + f && xg == x + g && a == |x| + at
    ensures xg == CopiedBack(xf, a, d) <==> g == CopiedBack(f, at, d)
  {
    BehindPrefix(x, f, a, d);
    Cancel(x, g, CopiedBack(f, at, d));
  }

  /** At the start. */
  lemma CopiedBackAtStart(f: seq<byte>, d: seq<byte>)
    ensures CopiedBack(f, 0, d) == d + if |d| < |f| then f[|d|..] else []
  {
  }

  lemma CopiedBackOnNothing(a: nat, d: seq<byte>)
    ensures CopiedBack([], a, d) == Zeros(a) + d
  {
  }

  lemma ByteOfCopy(f: seq<byte>, a: nat, d: seq<byte>, i: nat)
    requires i < |d|
    ensures a + i < |CopiedBack(f, a, d)| && CopiedBack(f, a, d)[a + i] == d[i]
  {
    CopiedBackLaw(f, a, d);
    assert CopiedBack(f, a, d)[a..a + |d|][i] == d[i];
  }

  /** One turn of the second loop. */
  lemma OneTurn(ns: seq<Node>, a: nat, d: seq<byte>, len: nat)
    requires AllValid(ns) && 0 < len <= |d| && Inside(ns, a, len)
    ensures var w := Width(Head(ns), a, len);
            Flat(Loop(ns, a, d, len)) == Put(Head(ns), a, d, len).Bytes() + Flat(Loop(Tail(ns), 0, d, len - w))
  {
    FlatCons(Put(Head(ns), a, d, len), Loop(Tail(ns), 0, d, len - Width(Head(ns), a, len)));
  }

  /** What an mbuf holds after a turn, byte by byte. */
  lemma PutByte(n: Node, a: nat, d: seq<byte>, len: nat, i: nat)
    requires n.Valid() && 0 < len <= |d| && Holding(n, a, len) && i < Put(n, a, d, len).len
    ensures var w := Width(n, a, len);
            Put(n, a, d, len).Bytes()[i]
            == if i < a then (if n.len == 0 then 0 else n.dat[i]) else if i < a + w then d[i - a] else n.dat[i]
  {
  }

  /** The first mbuf that is passed, and the others. */
  lemma PassOne(ns: seq<Node>, a: nat, d: seq<byte>)
    requires AllValid(ns) && ns != [] && ns[0].Cap() < a && Defined(ns, a, |d|)
    ensures Flat(Copyback(ns, a, d)) == ns[0].Bytes() + Flat(Copyback(ns[1..], a - ns[0].Cap(), d))
  {
    FlatCons(ns[0], Copyback(ns[1..], a - ns[0].Cap(), d));
  }

  lemma {:induction false} FlatAppend(xs: seq<Node>, ys: seq<Node>)
    requires AllValid(xs) && AllValid(ys)
    ensures AllValid(xs + ys) && Flat(xs + ys) == Flat(xs) + Flat(ys)
  {
    if xs == [] {
      NoPart(ys);
    } else {
      FlatAppend(xs[1..], ys);
      TailOfAppend(xs, ys);
      Assoc(xs[0].Bytes(), Flat(xs[1..]), Flat(ys));
    }
  }

  lemma FlatSplit(ns: seq<Node>, k: nat)
    requires AllValid(ns) && k <= |ns|
    ensures Flat(ns) == Flat(ns[..k]) + Flat(ns[k..])
  {
    PartsJoin(ns, k);
    FlatAppend(ns[..k], ns[k..]);
  }

  lemma {:induction false} FlatLength(ns: seq<Node>)
    requires AllValid(ns)
    ensures |Flat(ns)| == Lens(Shape(ns))
  {
    if ns == [] {
    } else {
      FlatLength(ns[1..]);
      assert Shape(ns)[1..] == Shape(ns[1..]);
    }
  }

  lemma {:induction false} ShapeSplit(ns: seq<Node>, k: nat)
    requires k <= |ns|
    ensures Shape(ns[..k]) == Shape(ns)[..k] && Shape(ns[k..]) == Shape(ns)[k..]
  {
    if k == 0 {
      assert ns[..0] == [] && ns[0..] == ns;
    } else {
      ShapeSplit(ns[1..], k - 1);
      assert ns[..k][0] == ns[0] && ns[..k][1..] == ns[1..][..k - 1] && ns[k..] == ns[1..][k - 1..];
    }
  }

  /** The second loop does its work behind contents of x, of which the offset counts a - at. */
  predicate RightBehind(x: seq<byte>, ns: seq<Node>, a: nat, at: nat, d: seq<byte>)
    requires AllValid(ns)
  {
    Inside(ns, at, |d|) && x + Flat(Loop(ns, at, d, |d|)) == CopiedBack(x + Flat(ns), a, d)
  }

  /** The second loop works on the mbufs that are not passed. */
  lemma {:induction false} PassDefined(ns: seq<Node>, a: nat, n: nat)
    requires AllValid(ns)
    ensures Defined(ns, a, n) <==> Inside(ns[Passed(Shape(ns), a)..], Left(Shape(ns), a), n)
  {
    if ns != [] && ns[0].Cap() < a {
      PassDefined(ns[1..], a - ns[0].Cap(), n);
      assert Shape(ns)[1..] == Shape(ns[1..]);
      assert ns[Passed(Shape(ns), a)..] == ns[1..][Passed(Shape(ns), a) - 1..];
    } else {
      assert ns[0..] == ns;
    }
  }

  lemma PassNone(ns: seq<Node>, a: nat, d: seq<byte>)
    requires AllValid(ns) && Inside(ns, a, |d|) && !(ns != [] && ns[0].Cap() < a)
    ensures Copyback(ns, a, d) == ns[..0] + Loop(ns[0..], a, d, |d|)
  {
    NoPart(ns);
    NoPart(Loop(ns, a, d, |d|));
  }

  /** The mbufs passed stay as they are. */
  lemma {:induction false} PassAll(ns: seq<Node>, a: nat, d: seq<byte>, k: nat, at: nat)
    requires AllValid(ns) && k == Passed(Shape(ns), a) && at == Left(Shape(ns), a)
    requires Defined(ns, a, |d|) && Inside(ns[k..], at, |d|)
    ensures Copyback(ns, a, d) == ns[..k] + Loop(ns[k..], at, d, |d|)
  {
    if ns != [] && ns[0].Cap() < a {
      var rest, j := ns[1..], k - 1;
      assert Shape(ns)[1..] == Shape(rest);
      FirstOfParts(ns, j);
      PassAll(rest, a - ns[0].Cap(), d, j, at);
      assert Copyback(ns, a, d) == [ns[0]] + (rest[..j] + Loop(ns[k..], at, d, |d|));
      Assoc([ns[0]], rest[..j], Loop(ns[k..], at, d, |d|));
    } else {
      PassNone(ns, a, d);
    }
  }

  lemma RightIsBehind(ns: seq<Node>, a: nat, d: seq<byte>)
    requires AllValid(ns)
    ensures var k := Passed(Shape(ns), a);
            && Right(ns, a, d) <==> RightBehind(Flat(ns[..k]), ns[k..], a, Left(Shape(ns), a), d)
  {
    var k := Passed(Shape(ns), a);
    PassDefined(ns, a, |d|);
    if Defined(ns, a, |d|) {
      PassAll(ns, a, d, k, Left(Shape(ns), a));
      FlatAppend(ns[..k], Loop(ns[k..], Left(Shape(ns), a), d, |d|));
    }
    FlatSplit(ns, k);
  }

  // ---------- the second loop by itself ----------

  /** The second loop does its work from this offset on. */
  predicate RightHere(ns: seq<Node>, a: nat, d: seq<byte>)
    requires AllValid(ns)
  {
    Inside(ns, a, |d|) && Flat(Loop(ns, a, d, |d|)) == CopiedBack(Flat(ns), a, d)
  }

  /** An mbuf that held something and takes all bytes. */
  lemma PutAll(n: Node, a: nat, d: seq<byte>)
    requires n.Valid() && n.len > 0 && d != [] && a + |d| <= n.Cap() && a + |d| <= |n.dat|
    ensures var r := Put(n, a, d, |d|);
            && r.dat == n.dat[..a] + d + n.dat[a + |d|..]
            && r.len == if n.len < a + |d| then a + |d| else n.len
  {
    assert d[..|d|] == d;
  }

  /** An mbuf that held nothing and takes all bytes. */
  lemma PutFirst(n: Node, a: nat, d: seq<byte>)
    requires n.Valid() && n.len == 0 && d != [] && a + |d| <= n.Cap() && a + |d| <= |n.dat|
    ensures Put(n, a, d, |d|).Bytes() == Zeros(a) + d
  {
    var m := Zeros(a) + n.dat[a..];
    assert d[..|d|] == d && m[..a] == Zeros(a);
  }

  lemma Within(x: seq<byte>, l: nat, a: nat, d: seq<byte>, f: seq<byte>)
    requires a + |d| <= l <= |x|
    ensures (x[..a] + d + x[a + |d|..])[..l] + f == CopiedBack(x[..l] + f, a, d)
  {
    var g := x[..l] + f;
    assert g[..a] == x[..a] && g[a + |d|..] == x[a + |d|..l] + f;
    assert (x[..a] + d + x[a + |d|..])[..l] == x[..a] + d + x[a + |d|..l];
  }

  lemma Beyond(x: seq<byte>, l: nat, a: nat, d: seq<byte>)
    requires a <= l <= |x| && l < a + |d| <= |x|
    ensures (x[..a] + d + x[a + |d|..])[..a + |d|] == CopiedBack(x[..l], a, d)
  {
    assert x[..l][..a] == x[..a];
  }

  /** Bytes that go into one mbuf. */
  lemma InOneMbuf(n: Node, a: nat, d: seq<byte>, f: seq<byte>)
    requires n.Valid() && d != [] && a + |d| <= n.Cap() && a + |d| <= |n.dat|
    requires (a <= n.len || n.len == 0) && (a + |d| <= n.len || f == [])
    ensures Put(n, a, d, |d|).Bytes() + f == CopiedBack(n.Bytes() + f, a, d)
  {
    if n.len == 0 {
      PutFirst(n, a, d);
      CopiedBackOnNothing(a, d);
      assert n.Bytes() + f == [];
    } else {
      PutAll(n, a, d);
      if a + |d| <= n.len {
        Within(n.dat, n.len, a, d, f);
      } else {
        Beyond(n.dat, n.len, a, d);
        assert n.Bytes() + f == n.Bytes();
      }
    }
  }

  /** A turn that takes all bytes is the last. */
  lemma LastTurn(ns: seq<Node>, a: nat, d: seq<byte>)
    requires AllValid(ns) && d != [] && a + |d| <= Head(ns).Cap() && a + |d| <= |Head(ns).dat|
    ensures Inside(ns, a, |d|) && Flat(Loop(ns, a, d, |d|)) == Put(Head(ns), a, d, |d|).Bytes() + Flat(Tail(ns))
  {
    OneTurn(ns, a, d, |d|);
  }

  /** What an mbuf with the offset at its end holds when it is cut off there, or filled up. */
  function AtTheEnd(n: Node): (r: seq<byte>)
    requires n.Valid() && n.Cap() <= |n.dat|
    ensures |r| == n.Cap()
  {
    if n.len == 0 then Zeros(n.Cap()) else n.dat[..n.Cap()]
  }

  /** What it holds after its turn, with so many bytes to copy. */
  function AfterTurn(n: Node, len: nat): seq<byte>
    requires n.Valid() && n.Cap() <= |n.dat|
  {
    if n.len < n.Cap() + len then AtTheEnd(n) else n.Bytes()
  }

  lemma NothingPut(x: seq<byte>, k: nat, d: seq<byte>)
    requires k <= |x|
    ensures x[..k] + d[..0] + x[k..] == x
  {
  }

  lemma PutNothing(n: Node, d: seq<byte>)
    requires n.Valid() && d != [] && n.Cap() <= |n.dat|
    ensures Put(n, n.Cap(), d, |d|).Bytes() == AfterTurn(n, |d|)
  {
    var x := if n.len == 0 then Zeros(n.Cap()) + n.dat[n.Cap()..] else n.dat;
    NothingPut(x, n.Cap(), d);
    assert n.len == 0 ==> x[..n.Cap()] == Zeros(n.Cap());
  }

  /** An mbuf with the offset at its end takes nothing, and the next one begins with d. */
  lemma EmptyTurn(ns: seq<Node>, d: seq<byte>)
    requires AllValid(ns) && d != []
    ensures var n := Head(ns);
            && (Inside(ns, n.Cap(), |d|) <==> n.Cap() <= |n.dat| && Inside(Tail(ns), 0, |d|))
            && (Inside(ns, n.Cap(), |d|) ==>
                  Flat(Loop(ns, n.Cap(), d, |d|)) == AfterTurn(n, |d|) + Flat(Loop(Tail(ns), 0, d, |d|)))
  {
    var n := Head(ns);
    if Inside(ns, n.Cap(), |d|) {
      OneTurn(ns, n.Cap(), d, |d|);
      PutNothing(n, d);
    }
  }

  // ---------- the condition suffices ----------

  lemma NewMbufTakes(a: nat, d: seq<byte>)
    requires d != [] && Takes([], a, |d|)
    ensures RightHere([], a, d)
  {
    if a == MLEN {
      NewMbufTakes(0, d);
      EmptyTurn([], d);
      CopiedBackOnNothing(MLEN, d);
      CopiedBackOnNothing(0, d);
      assert AtTheEnd(Head([])) == Zeros(MLEN) && Zeros(0) + d == d;
    } else {
      LastTurn([], a, d);
      PutAll(Head([]), a, d);
      CopiedBackOnNothing(a, d);
      assert Zeros(MLEN)[..a] == Zeros(a) && Zeros(MLEN)[a + |d|..] == [];
      assert Put(Head([]), a, d, |d|).Bytes() + [] == Zeros(a) + d;
    }
  }

  /** An mbuf with fewer bytes than d holds just d when d is put at its start. */
  lemma TakesD(n: Node, d: seq<byte>)
    requires n.Valid() && d != [] && n.len < |d| && |d| <= n.Cap() && |d| <= |n.dat|
    ensures Put(n, 0, d, |d|).Bytes() == d
  {
    assert d[..|d|] == d;
  }

  lemma CoversStart(x: seq<byte>, y: seq<byte>, f: seq<byte>, d: seq<byte>)
    requires |x| + |y| == |d| || (f == [] && |x| + |y| <= |d|)
    ensures d + f == CopiedBack(x + (y + f), 0, d)
  {
    CopiedBackAtStart(x + (y + f), d);
    Assoc(x, y, f);
    if |x| + |y| == |d| {
      assert |d| < |(x + y) + f| ==> ((x + y) + f)[|d|..] == f;
    }
  }

  /** The mbuf before these has been cut off, and that is made up for. */
  lemma MadeUp(ns: seq<Node>, lost: seq<byte>, d: seq<byte>)
    requires AllValid(ns) && d != [] && 0 < |lost| < |d| && MakesUp(Shape(ns), |d|, |lost|)
    ensures Inside(ns, 0, |d|) && Flat(Loop(ns, 0, d, |d|)) == CopiedBack(lost + Flat(ns), 0, d)
  {
    if ns == [] {
      NewMbufTakes(0, d);
      CopiedBackOnNothing(0, d);
      CoversStart(lost, [], [], d);
    } else {
      assert Shape(ns)[1..] == Shape(ns[1..]);
      EmptyIsFlat(ns[1..]);
      LastTurn(ns, 0, d);
      TakesD(ns[0], d);
      CoversStart(lost, ns[0].Bytes(), Flat(ns[1..]), d);
    }
  }

  /** An mbuf with the offset at its end is cut off there. */
  lemma CutOff(ns: seq<Node>, lost: seq<byte>, d: seq<byte>)
    requires AllValid(ns) && ns != [] && ns[0].Cap() < ns[0].len < ns[0].Cap() + |d|
    requires lost == ns[0].dat[ns[0].Cap()..ns[0].len]
    ensures RightHere(ns, ns[0].Cap(), d) <==>
            Inside(ns[1..], 0, |d|) && Flat(Loop(ns[1..], 0, d, |d|)) == CopiedBack(lost + Flat(ns[1..]), 0, d)
  {
    var n, f := ns[0], Flat(ns[1..]);
    SliceSplit(n.dat, 0, n.Cap(), n.len);
    Assoc(AtTheEnd(n), lost, f);
    EmptyTurn(ns, d);
    if Inside(ns[1..], 0, |d|) {
      var g := Flat(Loop(ns[1..], 0, d, |d|));
      AfterPrefix(AtTheEnd(n), lost + f, g, Flat(ns), Flat(Loop(ns, n.Cap(), d, |d|)), n.Cap(), 0, d);
    }
  }

  /** An mbuf with the offset at its end is full, or empty with nothing behind it: it goes as it would without
      that mbuf. */
  lemma BehindFirst(ns: seq<Node>, d: seq<byte>)
    requires AllValid(ns) && ns != [] && d != [] && ns[0].Cap() <= |ns[0].dat|
    requires ns[0].len == ns[0].Cap() || (ns[0].len == 0 && Flat(ns[1..]) == [])
    ensures RightHere(ns, ns[0].Cap(), d) <==> RightHere(ns[1..], 0, d)
  {
    var n := ns[0];
    EmptyTurn(ns, d);
    if Inside(ns[1..], 0, |d|) {
      var g := Flat(Loop(ns[1..], 0, d, |d|));
      if n.len == 0 {
        EmptyBefore(n.Cap(), g, d);
      } else {
        AfterPrefix(n.Bytes(), Flat(ns[1..]), g, Flat(ns), Flat(Loop(ns, n.Cap(), d, |d|)), n.Cap(), 0, d);
      }
    }
  }

  lemma EmptyBefore(k: nat, g: seq<byte>, d: seq<byte>)
    ensures Zeros(k) + g == CopiedBack([] + [], k, d) <==> g == CopiedBack([], 0, d)
  {
    CopiedBackOnNothing(k, d);
    CopiedBackOnNothing(0, d);
    Cancel(Zeros(k), g, d);
    assert Zeros(0) + d == d;
  }

  lemma TakesCutOff(ns: seq<Node>, d: seq<byte>)
    requires AllValid(ns) && ns != [] && ns[0].Cap() < ns[0].len < ns[0].Cap() + |d|
    requires MakesUp(Shape(ns[1..]), |d|, ns[0].len - ns[0].Cap())
    ensures RightHere(ns, ns[0].Cap(), d)
  {
    var lost := ns[0].dat[ns[0].Cap()..ns[0].len];
    MadeUp(ns[1..], lost, d);
    CutOff(ns, lost, d);
  }

  lemma TakesInOne(ns: seq<Node>, a: nat, d: seq<byte>)
    requires AllValid(ns) && ns != [] && d != [] && a < ns[0].Cap()
    requires InOne(Shape(ns)[0], Shape(ns[1..]), a, |d|)
    ensures RightHere(ns, a, d)
  {
    EmptyIsFlat(ns[1..]);
    LastTurn(ns, a, d);
    InOneMbuf(ns[0], a, d, Flat(ns[1..]));
  }

  lemma {:induction false} TakesSuffices(ns: seq<Node>, a: nat, d: seq<byte>)
    requires AllValid(ns) && d != [] && Takes(Shape(ns), a, |d|)
    ensures RightHere(ns, a, d)
    decreases |ns|
  {
    if ns == [] {
      NewMbufTakes(a, d);
    } else {
      assert Shape(ns)[1..] == Shape(ns[1..]);
      if a < ns[0].Cap() {
        TakesInOne(ns, a, d);
      } else if ns[0].len == 0 || ns[0].len == a {
        EmptyIsFlat(ns[1..]);
        TakesSuffices(ns[1..], 0, d);
        BehindFirst(ns, d);
      } else {
        TakesCutOff(ns, d);
      }
    }
  }

  lemma AfterTwo(x: seq<byte>, y: seq<byte>, f: seq<byte>, g: seq<byte>, yf: seq<byte>, yg: seq<byte>,
                 a: nat, d: seq<byte>)
    requires yf == y + f && yg == y + g && a == |x| + |y|
    ensures x + yg == CopiedBack(x + yf, a, d) <==> g == CopiedBack(f, 0, d)
  {
    Assoc(x, y, g);
    Assoc(x, y, f);
    AfterPrefix(x + y, f, g, x + yf, x + yg, a, 0, d);
  }

  lemma TurnLeaves(ns: seq<Node>, d: seq<byte>)
    requires AllValid(ns) && ns != [] && d != [] && ns[0].len >= ns[0].Cap() + |d|
    ensures Inside(ns, ns[0].Cap(), |d|) <==> Inside(ns[1..], 0, |d|)
    ensures Inside(ns[1..], 0, |d|) ==>
              Flat(Loop(ns, ns[0].Cap(), d, |d|)) == ns[0].Bytes() + Flat(Loop(ns[1..], 0, d, |d|))
  {
    EmptyTurn(ns, d);
  }

  lemma LandedBehind(x: seq<byte>, ns: seq<Node>, a: nat, d: seq<byte>)
    requires AllValid(ns) && ns != [] && d != [] && ns[0].len >= ns[0].Cap() + |d| && a == |x| + ns[0].len
    ensures RightBehind(x, ns, a, ns[0].Cap(), d) <==> RightHere(ns[1..], 0, d)
  {
    TurnLeaves(ns, d);
    if Inside(ns[1..], 0, |d|) {
      var f, g := Flat(ns[1..]), Flat(Loop(ns[1..], 0, d, |d|));
      AfterTwo(x, ns[0].Bytes(), f, g, Flat(ns), Flat(Loop(ns, ns[0].Cap(), d, |d|)), a, d);
    }
  }

  lemma LandedHere(x: seq<byte>, ns: seq<Node>, a: nat, at: nat, d: seq<byte>)
    requires AllValid(ns) && a == |x| + at
    ensures RightBehind(x, ns, a, at, d) <==> RightHere(ns, at, d)
  {
    if Inside(ns, at, |d|) {
      var f, g := Flat(ns), Flat(Loop(ns, at, d, |d|));
      AfterPrefix(x, f, g, x + f, x + g, a, at, d);
    }
  }

  /** When the first byte lands at the offset, it all depends on what comes from there on. */
  lemma Landed(x: seq<byte>, ns: seq<Node>, a: nat, at: nat, d: seq<byte>)
    requires AllValid(ns) && d != [] && |x| + Lands(Shape(ns), at, |d|) == a
    ensures LeftAsIs(Shape(ns), at, |d|) ==> (RightBehind(x, ns, a, at, d) <==> RightHere(ns[1..], 0, d))
    ensures !LeftAsIs(Shape(ns), at, |d|) ==> (RightBehind(x, ns, a, at, d) <==> RightHere(ns, at, d))
  {
    if LeftAsIs(Shape(ns), at, |d|) {
      LandedBehind(x, ns, a, d);
    } else {
      LandedHere(x, ns, a, at, d);
    }
  }

  // ---------- the condition is necessary ----------

  function Same(n: nat, b: byte): (r: seq<byte>)
    ensures |r| == n
  {
    seq(n, _ => b)
  }

  function NodeOf(c: Cell, b: byte): (n: Node)
    requires c.len <= c.room
    ensures n.Valid()
  {
    Node(c.flags, Same(c.room, b), c.len)
  }

  /** A chain of this shape with the same byte everywhere. */
  function Nodes(cs: seq<Cell>, b: byte): (r: seq<Node>)
    requires ValidShape(cs)
    ensures AllValid(r) && Shape(r) == cs
  {
    if cs == [] then [] else
    var rest := Nodes(cs[1..], b);
    var r := [NodeOf(cs[0], b)] + rest;
    assert r[1..] == rest;
    r
  }

  predicate All(s: seq<byte>, b: byte) {
    forall i :: 0 <= i < |s| ==> s[i] == b
  }

  lemma {:induction false} NodesHold(cs: seq<Cell>, b: byte)
    requires ValidShape(cs)
    ensures All(Flat(Nodes(cs, b)), b)
  {
    if cs == [] {
    } else {
      NodesHold(cs[1..], b);
      FlatCons(NodeOf(cs[0], b), Nodes(cs[1..], b));
    }
  }

  /** A chain with one more mbuf in front. */
  function Grown(c: Cell, b: byte, ns: seq<Node>): (r: seq<Node>)
    requires AllValid(ns) && c.len <= c.room
    ensures AllValid(r) && Shape(r) == [c] + Shape(ns) && r[1..] == ns && r[0] == NodeOf(c, b)
  {
    var r := [NodeOf(c, b)] + ns;
    assert r[1..] == ns;
    r
  }

  /** Where the loop begins an mbuf at its start, it begins d anew. */
  lemma StartsOver(ns: seq<Node>, d: seq<byte>, len: nat)
    requires AllValid(ns) && 0 < len <= |d| && Inside(ns, 0, len)
    ensures var f := Flat(Loop(ns, 0, d, len)); f != [] && f[0] == d[0]
  {
    OneTurn(ns, 0, d, len);
    PutByte(Head(ns), 0, d, len, 0);
  }

  /** Bytes that do not fit the rest of an mbuf: behind it comes the first of them again, or what it held. */
  lemma SpillGives(ns: seq<Node>, a: nat, d: seq<byte>)
    requires AllValid(ns) && d != [] && Inside(ns, a, |d|) && a < Head(ns).Cap() < a + |d|
    ensures var f, cap := Flat(Loop(ns, a, d, |d|)), Head(ns).Cap();
            cap < |f| && f[cap] == if Head(ns).len < a + |d| then d[0] else Head(ns).dat[cap]
  {
    var n := Head(ns);
    var r := Put(n, a, d, |d|);
    OneTurn(ns, a, d, |d|);
    if n.len < a + |d| {
      StartsOver(Tail(ns), d, |d| - (n.Cap() - a));
    } else {
      PutByte(n, a, d, |d|, n.Cap());
    }
  }

  /** d whose first byte is 1 and whose others are 0. */
  function OneFirst(n: nat): (d: seq<byte>)
    requires n > 0
    ensures |d| == n && d[0] == 1 && forall i :: 1 <= i < n ==> d[i] == 0
  {
    [1] + Same(n - 1, 0)
  }

  lemma SpillIsWrong(ns: seq<Node>, a: nat, d: seq<byte>, f: seq<byte>)
    requires AllValid(ns) && |d| > 0 && d == OneFirst(|d|) && Inside(ns, a, |d|) && a < Head(ns).Cap() < a + |d|
    requires Head(ns).len >= a + |d| ==> Head(ns).dat[Head(ns).Cap()] == 1
    ensures Flat(Loop(ns, a, d, |d|)) != CopiedBack(f, a, d)
  {
    SpillGives(ns, a, d);
    ByteOfCopy(f, a, d, Head(ns).Cap() - a);
  }

  /** An mbuf that grows in the middle of a chain moves the data behind it. */
  lemma GrowthIsWrong(ns: seq<Node>, a: nat, d: seq<byte>)
    requires AllValid(ns) && ns != [] && d != [] && a + |d| <= ns[0].Cap() && a + |d| <= |ns[0].dat|
    requires a + |d| > ns[0].len && Flat(ns[1..]) != []
    ensures !RightHere(ns, a, d)
  {
    LastTurn(ns, a, d);
    CopiedBackLaw(Flat(ns), a, d);
  }

  lemma GapByte(x: seq<byte>, f: seq<byte>, a: nat, d: seq<byte>)
    requires |x| < a && All(f, 0)
    ensures |x| < |CopiedBack(x + f, a, d)| && CopiedBack(x + f, a, d)[|x|] == 0
  {
    CopiedBackLaw(x + f, a, d);
    assert f != [] ==> (x + f)[|x|] == f[0];
  }

  /** The bytes between the data of an mbuf and the offset are not zeroed. */
  lemma GapIsWrong(ns: seq<Node>, a: nat, d: seq<byte>)
    requires AllValid(ns) && ns != [] && d != [] && 0 < ns[0].len < a
    requires Inside(ns, a, |d|) ==> ns[0].dat[ns[0].len] == 1
    requires All(Flat(ns[1..]), 0)
    ensures !RightHere(ns, a, d)
  {
    if Inside(ns, a, |d|) {
      OneTurn(ns, a, d, |d|);
      PutByte(ns[0], a, d, |d|, ns[0].len);
      GapByte(ns[0].Bytes(), Flat(ns[1..]), a, d);
      assert Flat(Loop(ns, a, d, |d|))[ns[0].len] == Put(ns[0], a, d, |d|).Bytes()[ns[0].len];
    }
  }

  /** An empty mbuf is filled up although there is data behind it. */
  lemma FillIsWrong(ns: seq<Node>, d: seq<byte>)
    requires AllValid(ns) && ns != [] && d != [] && ns[0].len == 0
    requires Flat(ns[1..]) != [] && All(Flat(ns[1..]), 1)
    ensures !RightHere(ns, ns[0].Cap(), d)
  {
    EmptyTurn(ns, d);
    CopiedBackLaw(Flat(ns), ns[0].Cap(), d);
    assert Flat(ns) == Flat(ns[1..]);
    if Inside(ns, ns[0].Cap(), |d|) {
      assert Flat(Loop(ns, ns[0].Cap(), d, |d|))[0] == 0;
    }
  }

  /** An mbuf with much data behind the offset at its end is left as it is, and the bytes come too late. */
  lemma TooLateIsWrong(ns: seq<Node>, d: seq<byte>)
    requires AllValid(ns) && ns != [] && d != [] && d[0] == 1 && ns[0].len >= ns[0].Cap() + |d|
    requires All(ns[0].dat, 0)
    ensures !RightHere(ns, ns[0].Cap(), d)
  {
    var cap := ns[0].Cap();
    EmptyTurn(ns, d);
    ByteOfCopy(Flat(ns), cap, d, 0);
    if Inside(ns, cap, |d|) {
      assert Flat(Loop(ns, cap, d, |d|))[cap] == ns[0].dat[cap];
    }
  }

  /** When no mbuf is left, anything but a full new mbuf is wrong, also behind one that was cut off. */
  lemma NewMbufFails(a: nat, n: nat, lost: seq<byte>) returns (d: seq<byte>)
    requires n > 0 && a < MLEN && a + n != MLEN && |lost| <= a + n
    ensures |d| == n && d == OneFirst(n)
    ensures Inside([], a, |d|) ==> Flat(Loop([], a, d, |d|)) != CopiedBack(lost, a, d)
  {
    d := OneFirst(n);
    if Inside([], a, |d|) {
      CopiedBackLaw(lost, a, d);
      if a + n > MLEN {
        SpillIsWrong([], a, d, lost);
      } else {
        LastTurn([], a, d);
      }
    }
  }

  /** The same when the offset is at the end of the new mbuf, or beyond. */
  lemma NewMbufsFail(a: nat, n: nat) returns (d: seq<byte>)
    requires n > 0 && !Takes([], a, n)
    ensures |d| == n && !RightHere([], a, d)
  {
    if a < MLEN {
      d := NewMbufFails(a, n, []);
    } else if a == MLEN {
      d := NewMbufFails(0, n, []);
      EmptyTurn([], d);
      CopiedBackOnNothing(MLEN, d);
      CopiedBackOnNothing(0, d);
      assert AtTheEnd(Head([])) == Zeros(MLEN) && Zeros(0) + d == d;
      if Inside([], 0, |d|) {
        Cancel(Zeros(MLEN), Flat(Loop([], 0, d, |d|)), d);
      }
    } else {
      d := OneFirst(n);
      assert !Holding(Head([]), a, |d|);
    }
  }

  /** An mbuf that was cut off, when that is not made up for. */
  lemma NotMadeUp(cs: seq<Cell>, n: nat, lost: seq<byte>) returns (ns: seq<Node>, d: seq<byte>)
    requires ValidShape(cs) && 0 < |lost| < n && !MakesUp(cs, n, |lost|)
    ensures AllValid(ns) && Shape(ns) == cs && |d| == n
    ensures Inside(ns, 0, n) ==> Flat(Loop(ns, 0, d, n)) != CopiedBack(lost + Flat(ns), 0, d)
  {
    d := OneFirst(n);
    ns := Nodes(cs, 1);
    if Inside(ns, 0, n) {
      if cs == [] {
        assert lost + [] == lost;
        var e := NewMbufFails(0, n, lost);
      } else if n > cs[0].Cap() {
        SpillIsWrong(ns, 0, d, lost + Flat(ns));
      } else {
        LengthNotMadeUp(ns, lost, d);
      }
    }
  }

  lemma LengthNotMadeUp(ns: seq<Node>, lost: seq<byte>, d: seq<byte>)
    requires AllValid(ns) && ns != [] && Inside(ns, 0, |d|) && 0 < |lost| < |d| <= ns[0].Cap()
    requires !MakesUp(Shape(ns), |d|, |lost|)
    ensures Flat(Loop(ns, 0, d, |d|)) != CopiedBack(lost + Flat(ns), 0, d)
  {
    assert Shape(ns)[1..] == Shape(ns[1..]);
    EmptyIsFlat(ns[1..]);
    LastTurn(ns, 0, d);
    CopiedBackAtStart(lost + Flat(ns), d);
  }

  /** Contents, and bytes, for which the second loop goes wrong in the first mbuf. */
  lemma FailsInOne(cs: seq<Cell>, a: nat, n: nat) returns (ns: seq<Node>, d: seq<byte>)
    requires ValidShape(cs) && n > 0 && cs != [] && a < cs[0].Cap() && !InOne(cs[0], cs[1..], a, n)
    ensures AllValid(ns) && Shape(ns) == cs && |d| == n && !RightHere(ns, a, d)
  {
    var c, rest := cs[0], cs[1..];
    assert cs == [c] + rest;
    var zeros, ones := Nodes(rest, 0), Nodes(rest, 1);
    NodesHold(rest, 0);
    NodesHold(rest, 1);
    EmptyIsFlat(ones);
    d := OneFirst(n);
    if n > c.Cap() - a {
      ns := Grown(c, 1, zeros);
      if Inside(ns, a, n) {
        SpillIsWrong(ns, a, d, Flat(ns));
      }
    } else if a + n > c.room {
      ns := Grown(c, 0, zeros);
      assert !Holding(ns[0], a, n);
    } else if 0 < c.len < a {
      ns := Grown(c, 1, zeros);
      GapIsWrong(ns, a, d);
    } else {
      ns := Grown(c, 0, ones);
      GrowthIsWrong(ns, a, d);
    }
  }

  /** Contents, and bytes, for which the second loop goes wrong. */
  lemma {:induction false} TakesIsNeeded(cs: seq<Cell>, a: nat, n: nat) returns (ns: seq<Node>, d: seq<byte>)
    requires ValidShape(cs) && n > 0 && !Takes(cs, a, n)
    ensures AllValid(ns) && Shape(ns) == cs && |d| == n && !RightHere(ns, a, d)
    decreases |cs|
  {
    if cs == [] {
      ns := [];
      d := NewMbufsFail(a, n);
    } else if a < cs[0].Cap() {
      ns, d := FailsInOne(cs, a, n);
    } else if a > cs[0].Cap() || cs[0].Cap() > cs[0].room {
      ns, d := Nodes(cs, 0), OneFirst(n);
      assert !Holding(ns[0], a, n);
    } else if (cs[0].len == 0 && Empty(cs[1..])) || cs[0].len == a {
      ns, d := TakesIsNeeded(cs[1..], 0, n);
      assert cs == [cs[0]] + cs[1..];
      EmptyIsFlat(ns);
      ns := Grown(cs[0], 0, ns);
      BehindFirst(ns, d);
    } else {
      ns, d := FailsAtTheEnd(cs, n);
    }
  }

  /** The offset is at the end of an mbuf that is neither full, nor empty with nothing behind it. */
  lemma FailsAtTheEnd(cs: seq<Cell>, n: nat) returns (ns: seq<Node>, d: seq<byte>)
    requires ValidShape(cs) && n > 0 && cs != [] && !Takes(cs, cs[0].Cap(), n)
    requires cs[0].Cap() <= cs[0].room && cs[0].len != cs[0].Cap() && !(cs[0].len == 0 && Empty(cs[1..]))
    ensures AllValid(ns) && Shape(ns) == cs && |d| == n && !RightHere(ns, cs[0].Cap(), d)
  {
    var c, rest := cs[0], cs[1..];
    var cap := c.Cap();
    assert cs == [c] + rest;
    NodesHold(rest, 0);
    NodesHold(rest, 1);
    d := OneFirst(n);
    if c.len == 0 {
      EmptyIsFlat(Nodes(rest, 1));
      ns := Grown(c, 0, Nodes(rest, 1));
      FillIsWrong(ns, d);
    } else if c.len < cap {
      ns := Grown(c, 1, Nodes(rest, 0));
      GapIsWrong(ns, cap, d);
    } else if c.len >= cap + n {
      ns := Grown(c, 0, Nodes(rest, 0));
      TooLateIsWrong(ns, d);
    } else {
      ns, d := CutOffFails(c, rest, n);
    }
  }

  lemma CutOffFails(c: Cell, rest: seq<Cell>, n: nat) returns (ns: seq<Node>, d: seq<byte>)
    requires ValidShape(rest) && c.Cap() < c.len <= c.room && c.len < c.Cap() + n && !MakesUp(rest, n, c.len - c.Cap())
    ensures AllValid(ns) && Shape(ns) == [c] + rest && |d| == n && !RightHere(ns, c.Cap(), d)
  {
    var lost := Same(c.room, 0)[c.Cap()..c.len];
    ns, d := NotMadeUp(rest, n, lost);
    ns := Grown(c, 0, ns);
    CutOff(ns, lost, d);
  }

  // ---------- displacement ----------

  /** The first 2 in s. */
  predicate FirstTwo(s: seq<byte>, p: nat) {
    p < |s| && s[p] == 2 && forall i :: 0 <= i < p ==> s[i] == 0
  }

  lemma NotBothFirst(s: seq<byte>, p: nat, t: seq<byte>, q: nat)
    requires FirstTwo(s, p) && FirstTwo(t, q) && p != q
    ensures s != t
  {
  }

  predicate AllNodes(ns: seq<Node>, b: byte) {
    forall i :: 0 <= i < |ns| ==> All(ns[i].dat, b)
  }

  lemma TwoBehind(x: seq<byte>, s: seq<byte>, p: nat, f: seq<byte>)
    requires All(x, 0) && FirstTwo(s, p) && f == x + s
    ensures FirstTwo(f, |x| + p)
  {
  }

  lemma LandsInside(ns: seq<Node>, a: nat, d: seq<byte>)
    requires AllValid(ns) && d != [] && All(d, 2) && All(Head(ns).dat, 0) && Inside(ns, a, |d|) && a < Head(ns).Cap()
    ensures FirstTwo(Flat(Loop(ns, a, d, |d|)), a)
  {
    var r := Put(Head(ns), a, d, |d|);
    forall i | 0 <= i <= a
      ensures i < |r.Bytes()| && r.Bytes()[i] == if i == a then 2 else 0
    {
      PutByte(Head(ns), a, d, |d|, i);
    }
    OneTurn(ns, a, d, |d|);
  }

  lemma ZerosAfterTurn(n: Node, len: nat)
    requires n.Valid() && n.Cap() <= |n.dat| && All(n.dat, 0)
    ensures All(AfterTurn(n, len), 0)
  {
  }

  lemma LandsBehind(ns: seq<Node>, d: seq<byte>)
    requires AllValid(ns) && d != [] && All(d, 2) && All(Head(ns).dat, 0) && Inside(ns, Head(ns).Cap(), |d|)
    ensures FirstTwo(Flat(Loop(ns, Head(ns).Cap(), d, |d|)), |AfterTurn(Head(ns), |d|)|)
  {
    var n, g := Head(ns), Flat(Loop(Tail(ns), 0, d, |d|));
    EmptyTurn(ns, d);
    StartsOver(Tail(ns), d, |d|);
    ZerosAfterTurn(n, |d|);
    TwoBehind(AfterTurn(n, |d|), g, 0, Flat(Loop(ns, n.Cap(), d, |d|)));
  }

  lemma LandsThere(ns: seq<Node>, a: nat, d: seq<byte>)
    requires AllValid(ns) && d != [] && All(d, 2) && AllNodes(ns, 0) && Inside(ns, a, |d|)
    ensures FirstTwo(Flat(Loop(ns, a, d, |d|)), Lands(Shape(ns), a, |d|))
  {
    assert All(Head(ns).dat, 0);
    if a < Head(ns).Cap() {
      LandsInside(ns, a, d);
    } else {
      LandsBehind(ns, d);
    }
  }

  lemma {:induction false} NodesAll(cs: seq<Cell>, b: byte)
    requires ValidShape(cs)
    ensures AllNodes(Nodes(cs, b), b)
  {
    if cs == [] {
    } else {
      NodesAll(cs[1..], b);
      assert forall i :: 1 <= i < |cs| ==> Nodes(cs, b)[i] == Nodes(cs[1..], b)[i - 1];
    }
  }

  lemma FirstTwoOfCopy(f: seq<byte>, a: nat, d: seq<byte>)
    requires All(f, 0) && d != [] && All(d, 2)
    ensures FirstTwo(CopiedBack(f, a, d), a)
  {
    CopiedBackLaw(f, a, d);
    ByteOfCopy(f, a, d, 0);
  }

  /** On a chain of zeros, the bytes are seen to land elsewhere. */
  lemma DisplacedHere(x: seq<byte>, ns: seq<Node>, a: nat, at: nat, d: seq<byte>)
    requires AllValid(ns) && d != [] && All(d, 2) && AllNodes(ns, 0) && All(x, 0) && All(Flat(ns), 0)
    requires |x| + Lands(Shape(ns), at, |d|) != a
    ensures !RightBehind(x, ns, a, at, d)
  {
    if Inside(ns, at, |d|) {
      LandsThere(ns, at, d);
      var f := x + Flat(Loop(ns, at, d, |d|));
      TwoBehind(x, Flat(Loop(ns, at, d, |d|)), Lands(Shape(ns), at, |d|), f);
      FirstTwoOfCopy(x + Flat(ns), a, d);
      NotBothFirst(f, |x| + Lands(Shape(ns), at, |d|), CopiedBack(x + Flat(ns), a, d), a);
    }
  }

  lemma AllParts(s: seq<byte>, x: seq<byte>, y: seq<byte>, b: byte)
    requires s == x + y && All(s, b)
    ensures All(x, b) && All(y, b)
  {
    assert forall i :: 0 <= i < |x| ==> x[i] == s[i];
    assert forall i :: 0 <= i < |y| ==> y[i] == s[|x| + i];
  }

  lemma Displaced(cs: seq<Cell>, a: nat, n: nat) returns (ns: seq<Node>, d: seq<byte>)
    requires ValidShape(cs) && n > 0
    requires var k := Passed(cs, a); Lens(cs[..k]) + Lands(cs[k..], Left(cs, a), n) != a
    ensures AllValid(ns) && Shape(ns) == cs && |d| == n && !Right(ns, a, d)
  {
    ns, d := Nodes(cs, 0), Same(n, 2);
    var k := Passed(cs, a);
    ShapeSplit(ns, k);
    FlatLength(ns[..k]);
    NodesHold(cs, 0);
    NodesAll(cs, 0);
    FlatSplit(ns, k);
    AllParts(Flat(ns), Flat(ns[..k]), Flat(ns[k..]), 0);
    DisplacedHere(Flat(ns[..k]), ns[k..], a, Left(cs, a), d);
    RightIsBehind(ns, a, d);
  }

  // ---------- the theorem ----------

  /** A chain with more mbufs in front. */
  function Behind(cs: seq<Cell>, ns: seq<Node>): (r: seq<Node>)
    requires ValidShape(cs) && AllValid(ns)
    ensures AllValid(r) && Shape(r) == cs + Shape(ns) && |r| == |cs| + |ns| && r[|cs|..] == ns
  {
    if cs == [] then ns
    else
      var r := Grown(cs[0], 0, Behind(cs[1..], ns));
      assert [cs[0]] + (cs[1..] + Shape(ns)) == cs + Shape(ns);
      assert r[|cs|..] == r[1..][|cs| - 1..];
      r
  }

  /** Where the second loop has to do its work. */
  function From(cs: seq<Cell>, a: nat, n: nat): (r: (nat, nat))
    ensures r.0 <= |cs|
  {
    var k, at := Passed(cs, a), Left(cs, a);
    if LeftAsIs(cs[k..], at, n) then (k + 1, 0) else (k, at)
  }

  /** The bytes land where they should: it all depends on what comes from there on. */
  lemma RightFrom(ns: seq<Node>, a: nat, d: seq<byte>)
    requires AllValid(ns) && d != []
    requires var k := Passed(Shape(ns), a);
             Lens(Shape(ns)[..k]) + Lands(Shape(ns)[k..], Left(Shape(ns), a), |d|) == a
    ensures var (j, at) := From(Shape(ns), a, |d|);
            Right(ns, a, d) <==> RightHere(ns[j..], at, d)
  {
    var k, at := Passed(Shape(ns), a), Left(Shape(ns), a);
    ShapeSplit(ns, k);
    FlatLength(ns[..k]);
    RightIsBehind(ns, a, d);
    Landed(Flat(ns[..k]), ns[k..], a, at, d);
    if LeftAsIs(Shape(ns[k..]), at, |d|) {
      assert ns[k..][1..] == ns[k + 1..];
    }
  }

  lemma WorksSuffices(ns: seq<Node>, a: nat, d: seq<byte>)
    requires AllValid(ns) && d != [] && Works(Shape(ns), a, |d|)
    ensures Right(ns, a, d)
  {
    var (j, at) := From(Shape(ns), a, |d|);
    ShapeSplit(ns, j);
    TakesSuffices(ns[j..], at, d);
    RightFrom(ns, a, d);
  }

  /** A chain of this shape, and bytes, for which it goes wrong. */
  lemma WorksIsNeeded(cs: seq<Cell>, a: nat, n: nat) returns (ns: seq<Node>, d: seq<byte>)
    requires ValidShape(cs) && n > 0 && !Works(cs, a, n)
    ensures AllValid(ns) && Shape(ns) == cs && |d| == n && !Right(ns, a, d)
  {
    var k := Passed(cs, a);
    if Lens(cs[..k]) + Lands(cs[k..], Left(cs, a), n) != a {
      ns, d := Displaced(cs, a, n);
    } else {
      var (j, at) := From(cs, a, n);
      ns, d := TakesIsNeeded(cs[j..], at, n);
      assert cs == cs[..j] + cs[j..];
      ns := Behind(cs[..j], ns);
      RightFrom(ns, a, d);
    }
  }

  /** It does its work on every chain of this shape, whatever bytes are in it and are copied back. */
  ghost predicate AlwaysRight(cs: seq<Cell>, offset: nat, n: nat) {
    forall ns, d {:trigger Right(ns, offset, d)} :: AllValid(ns) && Shape(ns) == cs && |d| == n ==> Right(ns, offset, d)
  }

  /** As written, m_copyback of at least one byte does its work on all chains of a shape, without writing outside
      of an mbuf, exactly when the shape, the offset and the number of bytes meet the condition.  There must be
      a chain: new mbufs are linked behind its head, which the source does not test. */
  lemma CopybackAsWritten(cs: seq<Cell>, offset: nat, n: nat)
    requires ValidShape(cs) && cs != [] && n > 0
    ensures AlwaysRight(cs, offset, n) <==> Works(cs, offset, n)
  {
    if Works(cs, offset, n) {
      forall ns, d | AllValid(ns) && Shape(ns) == cs && |d| == n
        ensures Right(ns, offset, d)
      {
        WorksSuffices(ns, offset, d);
      }
    } else {
      var ns, d := WorksIsNeeded(cs, offset, n);
      assert !Right(ns, offset, d);
    }
  }

  /** Of no bytes: nothing is done, and the chain is not filled up to the offset. */
  lemma CopybackOfNothing(ns: seq<Node>, a: nat)
    requires AllValid(ns)
    ensures Right(ns, a, []) <==> a <= |Flat(ns)|
  {
    RightIsBehind(ns, a, []);
    FlatSplit(ns, Passed(Shape(ns), a));
    CopiedBackLaw(Flat(ns), a, []);
    if a <= |Flat(ns)| {
      PartsJoin(Flat(ns), a);
      assert CopiedBack(Flat(ns), a, []) == Flat(ns);
    }
  }

  // ---------- the packet header ----------

  /** The header length after m_copyback, when it was right before: m_cat counts each new mbuf, and nothing
      else is counted. */
  function HeaderAfter(ns: seq<Node>, offset: nat, d: seq<byte>): int
    requires AllValid(ns) && Defined(ns, offset, |d|)
  {
    |Flat(ns)| + MLEN * (|Copyback(ns, offset, d)| - |ns|)
  }

  /** By how much the mbufs that were there get longer; one that is cut off gets shorter. */
  function Gained(cs: seq<Cell>, offset: nat, n: nat): int {
    if cs == [] || n == 0 then 0
    else if cs[0].Cap() < offset then Gained(cs[1..], offset - cs[0].Cap(), n)
    else NewLen(cs[0].Cap(), cs[0].len, offset, n) - cs[0].len
         + Gained(cs[1..], 0, n - Min(cs[0].Cap() - offset, n))
  }

  function Growth(ns: seq<Node>, r: seq<Node>): int
    requires AllValid(ns) && AllValid(r)
  {
    |Flat(r)| - |Flat(ns)| - MLEN * (|r| - |ns|)
  }

  lemma TurnLengths(ns: seq<Node>, a: nat, d: seq<byte>, len: nat)
    requires AllValid(ns) && 0 < len <= |d| && Inside(ns, a, len)
    ensures var r, t := Loop(ns, a, d, len), Loop(Tail(ns), 0, d, len - Width(Head(ns), a, len));
            |r| == 1 + |t| && |Flat(r)| == NewLen(Head(ns).Cap(), Head(ns).len, a, len) + |Flat(t)|
  {
    OneTurn(ns, a, d, len);
  }

  lemma GrowthOfTurn(ns: seq<Node>, a: nat, d: seq<byte>, len: nat)
    requires AllValid(ns) && 0 < len <= |d| && Inside(ns, a, len)
    ensures Growth(ns, Loop(ns, a, d, len))
            == NewLen(Head(ns).Cap(), Head(ns).len, a, len) - Head(ns).len
               + Growth(Tail(ns), Loop(Tail(ns), 0, d, len - Width(Head(ns), a, len)))
  {
    TurnLengths(ns, a, d, len);
    var r, t := Loop(ns, a, d, len), Loop(Tail(ns), 0, d, len - Width(Head(ns), a, len));
    if ns == [] {
      assert MLEN * |r| == MLEN + MLEN * |t|;
    } else {
      assert |r| - |ns| == |t| - |Tail(ns)|;
    }
  }

  lemma GainedOfTurn(ns: seq<Node>, a: nat, len: nat)
    requires AllValid(ns) && 0 < len && a <= Head(ns).Cap()
    ensures Gained(Shape(ns), a, len) == NewLen(Head(ns).Cap(), Head(ns).len, a, len) - Head(ns).len
                                         + Gained(Shape(Tail(ns)), 0, len - Width(Head(ns), a, len))
  {
    if ns != [] {
      assert Shape(ns)[1..] == Shape(Tail(ns));
    }
  }

  lemma {:induction false} LoopGrowth(ns: seq<Node>, a: nat, d: seq<byte>, len: nat)
    requires AllValid(ns) && len <= |d| && Inside(ns, a, len)
    ensures Growth(ns, Loop(ns, a, d, len)) == Gained(Shape(ns), a, len)
    decreases len, a
  {
    if len == 0 {
      assert Loop(ns, a, d, 0) == ns;
    } else {
      LoopGrowth(Tail(ns), 0, d, len - Width(Head(ns), a, len));
      GrowthOfTurn(ns, a, d, len);
      GainedOfTurn(ns, a, len);
    }
  }

  lemma {:induction false} CopybackGrowth(ns: seq<Node>, a: nat, d: seq<byte>)
    requires AllValid(ns) && Defined(ns, a, |d|) && d != []
    ensures Growth(ns, Copyback(ns, a, d)) == Gained(Shape(ns), a, |d|)
    decreases |ns|
  {
    if ns != [] && ns[0].Cap() < a {
      CopybackGrowth(ns[1..], a - ns[0].Cap(), d);
      PassOne(ns, a, d);
      assert Shape(ns)[1..] == Shape(ns[1..]);
    } else {
      LoopGrowth(ns, a, d, |d|);
    }
  }

  /** As written, m_copyback leaves the header length right exactly when the mbufs that were there do not get
      longer, together. */
  lemma CopybackHeaderAsWritten(ns: seq<Node>, a: nat, d: seq<byte>)
    requires AllValid(ns) && ns != [] && d != [] && Defined(ns, a, |d|)
    ensures HeaderAfter(ns, a, d) == |Flat(Copyback(ns, a, d))| <==> Gained(Shape(ns), a, |d|) == 0
  {
    CopybackGrowth(ns, a, d);
  }

  /** No mbuf that was there gets longer. */
  predicate NoneGrows(cs: seq<Cell>, offset: nat, n: nat) {
    if cs == [] || n == 0 then true
    else if cs[0].Cap() < offset then NoneGrows(cs[1..], offset - cs[0].Cap(), n)
    else Min(cs[0].Cap(), offset + n) <= cs[0].len && NoneGrows(cs[1..], 0, n - Min(cs[0].Cap() - offset, n))
  }

  /** When no mbuf holds more than get_total_len says, that is when none of them gets longer. */
  lemma {:induction false} GainedIsGrowth(cs: seq<Cell>, a: nat, n: nat)
    requires forall i :: 0 <= i < |cs| ==> cs[i].len <= cs[i].Cap()
    ensures Gained(cs, a, n) >= 0 && (Gained(cs, a, n) == 0 <==> NoneGrows(cs, a, n))
    decreases |cs|
  {
    if cs == [] || n == 0 {
    } else if cs[0].Cap() < a {
      GainedIsGrowth(cs[1..], a - cs[0].Cap(), n);
    } else {
      GainedIsGrowth(cs[1..], 0, n - Min(cs[0].Cap() - a, n));
    }
  }
}
