/** Joining, prepending, copying out of and building mbuf chains (kern/uipc_mbuf.c). */
module MbufBuild {
  import opened Bytes
  import opened Pieces
  import opened Mbufs

  // ---------- m_cat ----------

  /** m_cat.  When m is a packet header the source looks at n's flags, so n must then exist. */
  method MCat(m: Mbuf, n: Mbuf?, ghost ms: seq<Mbuf>, ghost ss: Chain, ghost ns: seq<Mbuf>, ghost ts: Chain)
    requires Linked(m, ms) && Holds(ms, ss)
    requires Linked(n, ns) && Holds(ns, ts)
    requires forall x <- ms :: x !in ns
    requires m.pkthdr ==> n != null
    modifies ms`next, m`pktlen
    ensures Linked(m, ms + ns) && Holds(ms + ns, ss + ts)
    ensures m.pktlen == old(m.pktlen) + if !m.pkthdr then 0 else if n.pkthdr then old(n.pktlen) else Total(ts)
    ensures old(HeaderAgrees(m, ss) && HeaderAgrees(n, ts)) ==> HeaderAgrees(m, ss + ts)
  {
    ConcatAppend(ss, ts);
    var add := AddedLength(m, n, ns, ts);
    Join(m, n, ms, ss, ns, ts);
    SetPktLen(m, m.pktlen + add, ms + ns, ss + ts);
  }

  method Join(m: Mbuf, n: Mbuf?, ghost ms: seq<Mbuf>, ghost ss: Chain, ghost ns: seq<Mbuf>, ghost ts: Chain)
    requires Linked(m, ms) && Holds(ms, ss)
    requires Linked(n, ns) && Holds(ns, ts)
    requires forall x <- ms :: x !in ns
    modifies ms`next
    ensures Linked(m, ms + ns) && Holds(ms + ns, ss + ts)
  {
    LinkLast(m, n, ms, ns);
    HoldsAppend(ms, ss, ns, ts);
  }

  /** What m_cat adds to the header length of m. */
  method AddedLength(m: Mbuf, n: Mbuf?, ghost ns: seq<Mbuf>, ghost ts: Chain) returns (add: int)
    requires Linked(n, ns) && Holds(ns, ts)
    requires m.pkthdr ==> n != null
    ensures add == if !m.pkthdr then 0 else if n.pkthdr then n.pktlen else Total(ts)
  {
    add := 0;
    if m.pkthdr {
      if n.pkthdr {
        add := n.pktlen;
      } else {
        add := MTotalLen(n, ns, ts);
      }
    }
  }

  /** The walk of m_cat to the last mbuf, and its link. */
  method LinkLast(m: Mbuf, n: Mbuf?, ghost ms: seq<Mbuf>, ghost ns: seq<Mbuf>)
    requires Linked(m, ms) && Linked(n, ns)
    requires forall x <- ms :: x !in ns
    modifies ms`next
    ensures Linked(m, ms + ns)
  {
    var last := m;
    ghost var k := 0;
    while last.next != null
      invariant 0 <= k < |ms| && last == ms[k]
      decreases |ms| - k
    {
      last := last.next;
      k := k + 1;
    }
    assert last in ms;
    last.next := n;
    LinkedAppend(m, ms, n, ns);
  }

  // ---------- m_prepend ----------

  /** The data of a new mbuf in front: at the end of 72 bytes, but for what a multiple of 4 takes, or, when it does
      not fit before that end, at the beginning. */
  ghost predicate AtEnd(m: Mbuf, n: nat)
    reads m`off, m`pkthdr
  {
    var o := m.off - if m.pkthdr then 16 else 0;
    if n < 72 then o % 4 == 0 && 68 < o + n <= 72 else o == 0
  }

  /** m_prepend: a new head of len bytes (whatever its storage holds), to which the packet header moves. */
  method MPrependSlow(m: Mbuf, len: nat, ghost ns: seq<Mbuf>, ghost ss: Chain) returns (mn: Mbuf)
    requires Linked(m, ns) && Holds(ns, ss)
    modifies m`pkthdr
    ensures fresh(mn) && mn.len == len && Linked(mn, [mn] + ns) && Holds(ns, ss)
    ensures mn.Fits() <==> len <= Capacity(old(m.pkthdr))
    ensures mn.Fits() ==> Holds([mn] + ns, [mn.Bytes()] + ss)
    ensures mn.pkthdr == old(m.pkthdr) && !m.pkthdr && !mn.ext && mn.mtype == m.mtype
    ensures mn.pkthdr ==>
              && mn.pktlen == old(m.pktlen) && mn.rcvif == old(m.rcvif) && mn.off >= PKTHDR
              && mn.bcast == m.bcast && mn.mcast == m.mcast && mn.eor == m.eor
    ensures AtEnd(mn, len)
  {
    mn := new Mbuf.InFront(m, len);
    ClearPkthdr(m, ns, ss);
    LinkedCons(mn, m, ns);
    if mn.Fits() {
      HoldsCons(mn, ns, ss);
    }
  }

  function Capacity(pkthdr: bool): nat {
    if pkthdr then MHLEN else MLEN
  }

  /** M_LEADINGSPACE */
  function LeadingSpace(m: Mbuf): int
    reads m
  {
    if m.ext then 0 else if m.pkthdr then m.off - PKTHDR else m.off
  }

  /** There is room for len more bytes in front of m, or in a new mbuf. */
  predicate HasRoom(m: Mbuf, len: nat)
    reads m
  {
    LeadingSpace(m) > len || len <= Capacity(m.pkthdr)
  }

  /** M_PREPEND: room for len more bytes in front, and the header length brought up to date.  Nothing
      keeps a caller from asking for more than an mbuf holds; then the new head claims more bytes than
      its storage has, and the rest of the chain is still behind it. */
  method MPrepend(m: Mbuf, len: nat, ghost ns: seq<Mbuf>, ghost ss: Chain)
      returns (r: Mbuf, ghost rs: seq<Mbuf>, ghost ts: Chain)
    requires Linked(m, ns) && Holds(ns, ss)
    modifies m
    ensures forall x <- rs :: x in ns || fresh(x)
    ensures Linked(r, rs) && r.pkthdr == old(m.pkthdr)
    ensures r.pkthdr ==> r.rcvif == old(m.rcvif) && r.pktlen == old(m.pktlen) + len
    ensures if old(HasRoom(m, len))
            then Holds(rs, ts) && Total(ts) == len + Total(ss) && Concat(ts)[len..] == Concat(ss)
            else rs == [r] + ns && r.len == len && !r.Fits() && Holds(ns, ss)
    ensures old(HasRoom(m, len) && HeaderAgrees(m, ss)) ==> HeaderAgrees(r, ts)
    ensures r == m <==> !old(m.ext) && old(m.off) > len + if old(m.pkthdr) then 16 else 0
    ensures r == m ==> rs == ns && m.off == old(m.off) - len && m.len == old(m.len) + len
    ensures r != m ==> fresh(r) && rs == [r] + ns && r.len == len && AtEnd(r, len)
  {
    if LeadingSpace(m) > len {
      ghost var junk := GrowFront(m, len, ns, ss);
      PushFront(junk, ss);
      r, rs, ts := m, ns, ss[0 := junk + ss[0]];
    } else {
      r := MPrependSlow(m, len, ns, ss);
      rs, ts := [r] + ns, [];
      if r.Fits() {
        ts := [r.Bytes()] + ss;
        assert ts[1..] == ss;
      }
    }
    AddPktLen(r, len, rs);
  }

  /** The last line of M_PREPEND. */
  method AddPktLen(r: Mbuf, len: nat, ghost rs: seq<Mbuf>)
    requires Linked(r, rs)
    modifies r`pktlen
    ensures Linked(r, rs) && r.pktlen == old(r.pktlen) + if r.pkthdr then len else 0
  {
    if r.pkthdr {
      r.pktlen := r.pktlen + len;
    }
  }

  method GrowFront(m: Mbuf, len: nat, ghost ns: seq<Mbuf>, ghost ss: Chain) returns (ghost junk: seq<byte>)
    requires Linked(m, ns) && Holds(ns, ss)
    requires m.off >= len
    modifies m`off, m`len
    ensures |junk| == len && Linked(m, ns) && Holds(ns, ss[0 := junk + ss[0]])
    ensures m.off == old(m.off) - len && m.len == old(m.len) + len
  {
    assert m == ns[0] && ns[0].len == |ss[0]| && ns[0].Bytes() == ss[0];
    junk := m.dat[m.off - len..m.off];
    SliceSplit(m.dat, m.off - len, m.off, m.off + m.len);
    m.off := m.off - len;
    m.len := m.len + len;
  }

  lemma PushFront(junk: seq<byte>, ss: Chain)
    requires ss != []
    ensures Concat(ss[0 := junk + ss[0]]) == junk + Concat(ss)
  {
    assert ss[0 := junk + ss[0]][1..] == ss[1..];
  }

  /** Making room in front and trimming as much again leaves the contents and the header as they were. */
  method PrependThenTrim(m: Mbuf, len: nat, ghost ns: seq<Mbuf>, ghost ss: Chain)
      returns (r: Mbuf, ghost rs: seq<Mbuf>, ghost ts: Chain)
    requires Linked(m, ns) && Holds(ns, ss)
    requires 0 < len && HasRoom(m, len)
    modifies ns
    ensures forall x <- rs :: x in ns || fresh(x)
    ensures Linked(r, rs) && Holds(rs, ts) && Concat(ts) == Concat(ss)
    ensures r.pkthdr == old(m.pkthdr) && (r.pkthdr ==> r.pktlen == old(m.pktlen))
  {
    ghost var us;
    r, rs, us := MPrepend(m, len, ns, ss);
    ts := Adjusted(Repaired, us, len);
    TrimHeadDrops(us, len);
    assert forall i :: 0 <= i < |rs| ==> rs[i] in ns || fresh(rs[i]);
    assert r == rs[0];
    MAdj(Repaired, r, len, rs, us);
  }

  // ---------- m_copydata ----------

  /** The loop that skips whole mbufs, as in m_copydata and m_copym. */
  method SkipTo(m0: Mbuf?, offset0: nat, ghost ns: seq<Mbuf>, ghost ss: Chain)
      returns (m: Mbuf?, offset: nat, ghost k: nat)
    requires Linked(m0, ns) && Holds(ns, ss)
    ensures Walk(ss, 0, offset0) == (k, offset) && k <= |ns| && m == At(ns, k)
  {
    m, offset, k := m0, offset0, 0;
    while m != null && m.len < offset
      invariant 0 <= k <= |ns| && m == At(ns, k)
      invariant Walk(ss, 0, offset0) == Walk(ss, k, offset)
      decreases |ns| - k
    {
      offset := offset - m.len;
      m := m.next;
      k := k + 1;
    }
  }

  /** m_copydata.  What is asked for must be there: the source would run off the chain.  The bytes
      written to the caller's buffer are the result. */
  method MCopydata(m0: Mbuf?, offset0: nat, len0: nat, ghost ns: seq<Mbuf>, ghost ss: Chain) returns (cp: seq<byte>)
    requires Linked(m0, ns) && Holds(ns, ss)
    requires len0 > 0 ==> offset0 + len0 <= Total(ss)
    ensures |cp| == len0
    ensures len0 > 0 ==> cp == Concat(ss)[offset0..offset0 + len0]
  {
    cp := [];
    var m, offset, k := SkipTo(m0, offset0, ns, ss);
    if len0 == 0 {
      return;
    }
    WalkMeasures(ss, offset0);
    var len := len0;
    ghost var end := offset0;
    while len > 0
      invariant 0 <= len <= len0 && end == offset0 + len0 - len && |cp| == len0 - len
      invariant 0 <= k <= |ns| && m == At(ns, k)
      invariant len > 0 ==> Located(ss, k, offset, end)
      invariant cp == Concat(ss)[offset0..end]
      decreases |ns| - k
    {
      var n := Min(m.len - offset, len);
      NextPiece(ss, k, offset, len, offset0, end, n);
      var src := m.Read(offset, n, ss[k]);
      cp := cp + src;
      end := end + n;
      len := len - n;
      offset := 0;
      m := m.next;
      k := k + 1;
    }
  }

  /** One step of copying a stretch of the flat contents, mbuf by mbuf: what is copied so far ends at
      `end`, and len bytes remain. */
  lemma NextPiece(ss: Chain, k: nat, offset: nat, len: nat, start: nat, end: nat, n: nat)
    requires Located(ss, k, offset, end) && 0 < len && start <= end && end + len <= Total(ss)
    requires n == Min(|ss[k]| - offset, len)
    ensures Concat(ss)[start..end] + ss[k][offset..offset + n] == Concat(ss)[start..end + n]
    ensures n < len ==> Located(ss, k + 1, 0, end + n)
  {
    InsideOne(ss, k, offset, n);
    StartEnd(ss);
  }

  // ---------- building a chain mbuf by mbuf ----------

  /** memcpy of a piece into a new last mbuf, and its m_len. */
  method FillLast(m: Mbuf, piece: seq<byte>, ghost ns: seq<Mbuf>, ghost ss: Chain)
    requires Linked(At(ns + [m], 0), ns + [m]) && Holds(ns + [m], ss + [[]])
    requires m.off + |piece| <= |m.dat|
    modifies m`dat, m`len
    ensures Holds(ns + [m], ss + [piece])
    ensures m.len == |piece| && m.off + |piece| <= |m.dat| && |m.dat| == old(|m.dat|)
  {
    ghost var all := ns + [m];
    assert all[|ns|] == m;
    assert forall i :: 0 <= i < |ns| ==> all[i] != m && all[i].len == |ss[i]| && all[i].Bytes() == ss[i];
    m.dat := m.dat[..m.off] + piece + m.dat[m.off + |piece|..];
    m.len := |piece|;
    assert m.Bytes() == piece;
  }

  // ---------- m_devget ----------

  /** A chain, and the same with more mbufs behind it. */
  ghost predicate Longer(a: seq<Mbuf>, b: seq<Mbuf>) {
    |a| <= |b| && forall i {:trigger a[i]} {:trigger b[i]} :: 0 <= i < |a| ==> b[i] == a[i]
  }

  /** The capacity of the mbufs after the first. */
  function Rest(len: nat): nat {
    if len >= MINCLSIZE then MCLBYTES else MLEN
  }

  /** A new empty mbuf. */
  ghost predicate Blank(m: Mbuf)
    reads m`next, m`dat, m`off, m`len, m`pkthdr
  {
    Linked(m, [m]) && Holds([m], [[]]) && m.off == 0 && !m.pkthdr
  }

  /** A new plain mbuf, from m_get. */
  method NewPlain() returns (m: Mbuf)
    ensures fresh(m) && Blank(m) && |m.dat| == MLEN && !m.ext
  {
    m := new Mbuf.Get();
    assert Holds([m], [[]]) by { HoldsCons(m, [], []); }
  }

  /** A new mbuf with a cluster, from m_getclr. */
  method NewCluster(form: Form, pool: Clusters) returns (m: Mbuf)
    modifies pool
    ensures fresh(m) && Blank(m) && |m.dat| == MCLBYTES && m.ext
    ensures pool.next == old(pool.next) + 1 && m.extbuf == ClusterAt(form, old(pool.next))
  {
    var addr := pool.Malloc();
    m := new Mbuf.GetCluster(form, addr);
    assert Holds([m], [[]]) by { HoldsCons(m, [], []); }
  }

  /** What ext_buf holds for the cluster at this address. */
  function ClusterAt(form: Form, addr: nat): Pointer {
    if form.Repaired? then Address(addr) else Unset
  }

  /** m becomes the last mbuf. */
  method LinkNew(old_m: Mbuf, m: Mbuf, ghost ns: seq<Mbuf>, ghost ss: Chain)
    requires Linked(old_m, ns) && Holds(ns, ss) && Blank(m) && m !in ns
    modifies ns`next, old_m`pktlen
    ensures Linked(old_m, ns + [m]) && Holds(ns + [m], ss + [[]])
    ensures old_m.pktlen == old(old_m.pktlen)
  {
    MCat(old_m, m, ns, ss, [m], [[]]);
  }

  /** A new last mbuf, plain and empty. */
  method AddMbuf(old_m: Mbuf, ghost ns: seq<Mbuf>, ghost ss: Chain) returns (m: Mbuf)
    requires Linked(old_m, ns) && Holds(ns, ss)
    modifies ns`next, old_m`pktlen
    ensures fresh(m) && Linked(old_m, ns + [m]) && Holds(ns + [m], ss + [[]])
    ensures m.off == m.len == 0 && |m.dat| == MLEN && m.next == null
    ensures !m.ext && !m.pkthdr && old_m.pktlen == old(old_m.pktlen)
  {
    m := NewPlain();
    LinkNew(old_m, m, ns, ss);
    assert (ns + [m])[|ns|] == m;
  }

  /** m, which is new, becomes the last mbuf, with these bytes. */
  method AddPiece(old_m: Mbuf, m: Mbuf, piece: seq<byte>, ghost ns: seq<Mbuf>, ghost ss: Chain)
    requires Linked(old_m, ns) && Holds(ns, ss) && old_m.pkthdr && !old_m.ext
    requires Blank(m) && m !in ns && |piece| <= |m.dat|
    modifies ns`next, old_m`pktlen, m`dat, m`len
    ensures Linked(old_m, ns + [m]) && Holds(ns + [m], ss + [piece]) && Concat(ss + [piece]) == Concat(ss) + piece
    ensures old_m.pktlen == old(old_m.pktlen)
  {
    LinkNew(old_m, m, ns, ss);
    FillLast(m, piece, ns, ss);
    ConcatAppend(ss, [piece]);
    ConcatOne(piece);
  }

  /** A new packet header mbuf with these bytes. */
  method HeaderPiece(piece: seq<byte>) returns (m: Mbuf)
    requires |piece| <= MHLEN
    ensures fresh(m) && Linked(m, [m]) && Holds([m], [piece])
    ensures m.pkthdr && !m.ext && m.pktlen == 0 && m.len == |piece|
  {
    m := new Mbuf.GetHdr();
    assert Holds([m], [[]]) by { HoldsCons(m, [], []); }
    FillLast(m, piece, [], []);
  }

  /** The mbufs that m_devget has added since there were n0: all of a kind, and their clusters are those handed
      out from `first` on. */
  ghost predicate Added(form: Form, ns: seq<Mbuf>, n0: nat, cluster: bool, first: nat, next: nat)
    reads ns`ext, ns`extbuf, ns`pkthdr
  {
    && n0 <= |ns| && next == first + (if cluster then |ns| - n0 else 0)
    && (forall i {:trigger ns[i].ext} :: n0 <= i < |ns| ==> ns[i].ext == cluster)
    && (forall i {:trigger ns[i].pkthdr} :: n0 <= i < |ns| ==> !ns[i].pkthdr)
    && (cluster ==>
          forall i {:trigger ns[i].extbuf} :: n0 <= i < |ns| ==> ns[i].extbuf == ClusterAt(form, first + i - n0))
  }

  /** A new mbuf of the kind that m_devget needs. */
  method NewFor(form: Form, cluster: bool, pool: Clusters, ghost ns: seq<Mbuf>, ghost n0: nat, ghost first: nat)
      returns (m: Mbuf)
    requires Added(form, ns, n0, cluster, first, pool.next)
    modifies pool
    ensures fresh(m) && Blank(m) && |m.dat| == if cluster then MCLBYTES else MLEN
    ensures Added(form, ns + [m], n0, cluster, first, pool.next)
  {
    if cluster {
      m := NewCluster(form, pool);
    } else {
      m := NewPlain();
    }
  }

  /** A later turn of the loop of m_devget. */
  method DevgetTurn(form: Form, old_m: Mbuf, piece: seq<byte>, has_cluster: bool, pool: Clusters,
                    ghost ns: seq<Mbuf>, ghost ss: Chain, ghost n0: nat, ghost first: nat)
      returns (ghost m: Mbuf)
    requires Linked(old_m, ns) && Holds(ns, ss) && old_m.pkthdr && !old_m.ext
    requires Added(form, ns, n0, has_cluster, first, pool.next)
    requires |piece| <= if has_cluster then MCLBYTES else MLEN
    modifies ns`next, old_m`pktlen, pool
    ensures fresh(m) && Linked(old_m, ns + [m]) && Holds(ns + [m], ss + [piece])
    ensures Added(form, ns + [m], n0, has_cluster, first, pool.next)
    ensures old_m.pktlen == old(old_m.pktlen) + |piece|
  {
    var n := NewFor(form, has_cluster, pool, ns, n0, first);
    AddPiece(old_m, n, piece, ns, ss);
    old_m.pktlen := old_m.pktlen + |piece|;
    m := n;
  }

  /** The later turns of the loop of m_devget: each adds an mbuf with the next bytes. */
  method DevgetRest(form: Form, old_m: Mbuf, p0: seq<byte>, has_cluster: bool, pool: Clusters,
                    ghost ns0: seq<Mbuf>, ghost ss0: Chain)
      returns (ghost ns: seq<Mbuf>, ghost ss: Chain)
    requires Linked(old_m, ns0) && Holds(ns0, ss0) && old_m.pkthdr && !old_m.ext
    modifies ns0`next, old_m`pktlen, pool
    ensures Linked(old_m, ns) && Holds(ns, ss)
    ensures ss == ss0 + MoreChunks(p0, if has_cluster then MCLBYTES else MLEN)
    ensures old_m.pktlen == old(old_m.pktlen) + |p0|
    ensures Longer(ns0, ns) && forall i :: |ns0| <= i < |ns| ==> fresh(ns[i])
    ensures Added(form, ns, |ns0|, has_cluster, old(pool.next), pool.next)
  {
    var room := if has_cluster then MCLBYTES else MLEN;
    var p := p0;
    ns, ss := ns0, ss0;
    ghost var goal := ss0 + MoreChunks(p0, room);
    while |p| > 0
      invariant |p| <= |p0| && old_m.pktlen == old(old_m.pktlen) + |p0| - |p|
      invariant Linked(old_m, ns) && Holds(ns, ss)
      invariant Longer(ns0, ns) && forall i :: |ns0| <= i < |ns| ==> fresh(ns[i])
      invariant Added(form, ns, |ns0|, has_cluster, old(pool.next), pool.next)
      invariant ss + MoreChunks(p, room) == goal
    {
      var copy_len := Min(|p|, room);
      ChunksStep(p, room, room);
      Assoc(ss, [p[..copy_len]], MoreChunks(p[copy_len..], room));
      ghost var m := DevgetTurn(form, old_m, p[..copy_len], has_cluster, pool, ns, ss, |ns0|, old(pool.next));
      ns, ss := ns + [m], ss + [p[..copy_len]];
      p := p[copy_len..];
    }
  }

  /** m_devget: a new packet holding len bytes of buf from off on.  `p` is what is left to copy. */
  method MDevget(form: Form, buf: seq<byte>, len: nat, off: nat, pool: Clusters)
      returns (old_m: Mbuf, ghost ns: seq<Mbuf>, ghost ss: Chain)
    requires off + len <= |buf|
    modifies pool
    ensures Linked(old_m, ns) && Holds(ns, ss)
    ensures ss == Chunks(buf[off..off + len], MHLEN, Rest(len)) && Concat(ss) == buf[off..off + len]
    ensures forall i :: 0 <= i < |ss| - 1 ==> |ss[i]| == if i == 0 then 72 else if len >= 160 then 2048 else 88
    ensures len > 0 ==> |ss[|ss| - 1]| > 0
    ensures old_m.pkthdr && !old_m.ext && old_m.pktlen == len
    ensures forall i :: 0 <= i < |ns| ==> fresh(ns[i])
    ensures Added(form, ns, 1, len >= MINCLSIZE, old(pool.next), pool.next)
  {
    var p := buf[off..off + len];
    ChunksConcat(p, MHLEN, Rest(len));
    ChunksFill(p, MHLEN, Rest(len));
    ChunksStep(p, MHLEN, Rest(len));
    // the first turn of the loop fills the header mbuf
    var copy_len := Min(|p|, MHLEN);
    old_m := HeaderPiece(p[..copy_len]);
    old_m.pktlen := old_m.pktlen + copy_len;
    ns, ss := DevgetRest(form, old_m, p[copy_len..], len >= MINCLSIZE, pool, [old_m], [p[..copy_len]]);
  }

  // ---------- m_copym ----------

  /** The source chain as m_copym leaves it: with mbufs of MLEN zeros at its end, when the stretch goes
      beyond it, as many as it takes. */
  function Extended(ss: Chain, offset: nat, len: nat): Chain {
    ss + if len == 0 then [] else ZeroMbufs(offset + len - Total(ss), MLEN)
  }

  /** full is ss with as many mbufs of zeros behind it as are needed to reach `end`. */
  predicate ReachesTo(full: Chain, ss: Chain, end: nat) {
    && |ss| <= |full| && full[..|ss|] == ss
    && (forall j :: |ss| <= j < |full| ==> full[j] == Zeros(MLEN))
    && (|full| > |ss| ==> Start(full, |full| - 1) < end)
    && (end <= Total(ss) ==> full == ss)
    && Concat(full) == Padded(Concat(ss), Total(full)) && Total(full) >= Total(ss)
  }

  lemma ReachesAlready(ss: Chain, end: nat)
    ensures ReachesTo(ss, ss, end)
  {
    assert ss[..|ss|] == ss && Padded(Concat(ss), Total(ss)) == Concat(ss);
  }

  lemma ReachesWithZeros(ss: Chain, end: nat)
    ensures var full := ss + ZeroMbufs(end - Total(ss), MLEN); ReachesTo(full, ss, end) && end <= Total(full)
  {
    var n := end - Total(ss);
    ZeroMbufsReach(n, MLEN);
    ZerosBehind(ss, ZeroMbufs(n, MLEN), MLEN);
    if n <= 0 {
      assert ss + ZeroMbufs(n, MLEN) == ss;
    }
  }

  lemma ExtendedReaches(ss: Chain, offset: nat, len: nat)
    ensures var full := Extended(ss, offset, len);
            && ReachesTo(full, ss, offset + len)
            && (len > 0 ==> offset + len <= Total(full)) && (len == 0 ==> full == ss)
  {
    if len > 0 {
      ReachesWithZeros(ss, offset + len);
    } else {
      assert ss + [] == ss;
      ReachesAlready(ss, offset);
    }
  }

  /** A chain with mbufs of c zeros behind it. */
  lemma ZerosBehind(ss: Chain, more: Chain, c: nat)
    requires forall j :: 0 <= j < |more| ==> more[j] == Zeros(c)
    requires Concat(more) == Zeros(Total(more))
    ensures var full := ss + more;
            && full[..|ss|] == ss && (forall j :: |ss| <= j < |full| ==> full[j] == Zeros(c))
            && Total(full) == Total(ss) + Total(more) && Concat(full) == Padded(Concat(ss), Total(full))
            && (more != [] ==> Start(full, |full| - 1) == Total(full) - c)
  {
    ConcatAppend(ss, more);
    assert forall j :: |ss| <= j < |ss + more| ==> (ss + more)[j] == more[j - |ss|];
    StartEnd(ss + more);
  }

  /** No more mbufs are added than the stretch needs. */
  lemma AllGrown(ss: Chain, offset: nat, len: nat, n: nat)
    requires var full := Extended(ss, offset, len);
             |ss| <= n <= |full| && (len > 0 ==> offset + len <= Start(full, n))
    ensures n == |Extended(ss, offset, len)|
  {
    var full := Extended(ss, offset, len);
    ExtendedReaches(ss, offset, len);
    if n < |full| {
      StartMonotone(full, n, |full| - 1);
    }
  }

  /** The pieces m_copym makes of a stretch of the contents. */
  function Copied(form: Form, ss: Chain, offset: nat, len: nat): Chain {
    var w := Walk(ss, 0, offset);
    if len == 0 then [[]] else Copies(form, ss, w.0, w.1, len, MHLEN, MLEN)
  }

  lemma CopiedMakes(form: Form, ss: Chain, offset: nat, len: nat)
    requires ss != []
    ensures Concat(Copied(form, Extended(ss, offset, len), offset, len))
         == Padded(Concat(ss), offset + len)[offset..offset + len]
  {
    ExtendedReaches(ss, offset, len);
    if len > 0 {
      CopiesMake(form, Extended(ss, offset, len), Concat(ss), offset, len);
    } else {
      ConcatOne<byte>([]);
    }
  }

  lemma CopiesMake(form: Form, full: Chain, f: seq<byte>, offset: nat, len: nat)
    requires full != [] && len > 0 && offset + len <= Total(full) && Concat(full) == Padded(f, Total(full))
    ensures Concat(Copied(form, full, offset, len)) == Padded(f, offset + len)[offset..offset + len]
  {
    WalkMeasures(full, offset);
    var w := Walk(full, 0, offset);
    CopiesConcat(form, full, w.0, w.1, len, MHLEN, MLEN, offset, offset + len);
    MakesPadded(Copies(form, full, w.0, w.1, len, MHLEN, MLEN), Concat(full), f, offset, offset + len);
  }

  lemma MakesPadded(ps: Chain, full: seq<byte>, f: seq<byte>, a: nat, b: nat)
    requires Makes(ps, full, a, b) && full == Padded(f, |full|)
    ensures Concat(ps) == Padded(f, b)[a..b]
  {
    PaddedMore(f, b, |full|, a);
  }

  /** The pieces are the stretch asked for, with zeros for what is beyond the contents. */
  lemma CopiedConcat(form: Form, ss: Chain, offset: nat, len: nat)
    requires ss != []
    ensures var ps := Copied(form, Extended(ss, offset, len), offset, len);
            && Concat(ps) == Padded(Concat(ss), offset + len)[offset..offset + len]
            && (form.Repaired? ==> AllFit(ps, MHLEN, MLEN))
  {
    CopiedMakes(form, ss, offset, len);
    if len > 0 && form.Repaired? {
      var full := Extended(ss, offset, len);
      ExtendedReaches(ss, offset, len);
      WalkMeasures(full, offset);
      var w := Walk(full, 0, offset);
      CopiesFit(full, w.0, w.1, len, MHLEN, MLEN);
    }
  }

  /** What m_copym, as written, needs: it must not start further beyond the contents than one new mbuf
      reaches, and what it takes of one mbuf must fit into one: of the first into the header mbuf, of each
      later one into a plain mbuf. */
  predicate CopymFits(ss: Chain, offset: nat, len: nat) {
    len > 0 ==>
      var full := Extended(ss, offset, len);
      var w := Walk(full, 0, offset);
      && offset <= Total(ss) + MLEN
      && w.0 < |full| && Min(|full[w.0]| - w.1, len) <= MHLEN
      && LaterFit(full, w.0, offset + len, MLEN)
  }

  /** As written, each piece fits the mbuf it is copied to exactly under that condition. */
  lemma CopymAsWritten(ss: Chain, offset: nat, len: nat)
    requires ss != [] && (len > 0 ==> offset <= Total(ss) + MLEN)
    ensures AllFit(Copied(AsWritten, Extended(ss, offset, len), offset, len), MHLEN, MLEN)
       <==> CopymFits(ss, offset, len)
  {
    if len > 0 {
      var full := Extended(ss, offset, len);
      ExtendedReaches(ss, offset, len);
      WalkMeasures(full, offset);
      var w := Walk(full, 0, offset);
      CopiesFitAsWritten(full, w.0, w.1, len, MHLEN, MLEN, offset);
    }
  }

  /** A plain mbuf that is full cannot be copied whole: its 88 bytes go into a header mbuf of 72. */
  lemma FullMbufOverruns(s: seq<byte>)
    requires |s| == MLEN
    ensures !CopymFits([s], 0, MLEN) && Copied(AsWritten, Extended([s], 0, MLEN), 0, MLEN) == [s]
    ensures !AllFit(Copied(AsWritten, Extended([s], 0, MLEN), 0, MLEN), MHLEN, MLEN)
  {
    ConcatOne(s);
    ExtendedReaches([s], 0, MLEN);
    assert s[0..MLEN] == s && Copies(AsWritten, [s], 1, 0, 0, MLEN, MLEN) == [];
    CopymAsWritten([s], 0, MLEN);
  }

  /** The source of a copy: the chain is as long as it has been made so far. */
  ghost predicate Source(m0: Mbuf, ns: seq<Mbuf>, full: Chain)
    reads ns`next, ns`dat, ns`off, ns`len
  {
    && Linked(m0, ns) && |ns| <= |full| && Holds(ns, full[..|ns|])
    && (forall j :: |ns| <= j < |full| ==> full[j] == Zeros(MLEN))
  }

  /** What the header length of the source is, when it has grown from n0 to n mbufs. */
  ghost predicate Grown(m0: Mbuf, full: Chain, n0: nat, n: nat, pktlen0: int)
    reads m0`pkthdr, m0`pktlen
  {
    && n0 <= n <= |full|
    && m0.pktlen == pktlen0 + if m0.pkthdr then Total(full[..n]) - Total(full[..n0]) else 0
  }

  /** When the source is used up, another mbuf of zeros is put at its end. */
  method GrowSource(m0: Mbuf, ghost ns: seq<Mbuf>, ghost full: Chain, ghost n0: nat, ghost pktlen0: int)
      returns (m: Mbuf, ghost ns': seq<Mbuf>)
    requires Source(m0, ns, full) && |ns| < |full| && Grown(m0, full, n0, |ns|, pktlen0)
    modifies ns`next, m0`pktlen
    ensures fresh(m) && ns' == ns + [m] && Source(m0, ns', full)
    ensures Grown(m0, full, n0, |ns'|, pktlen0)
  {
    m := ZeroMbuf();
    ns' := ns + [m];
    ConcatOne(Zeros(MLEN));
    TotalOfPrefix(full, |ns|);
    MCat(m0, m, ns, full[..|ns|], [m], [Zeros(MLEN)]);
    assert full[..|ns'|] == full[..|ns|] + [Zeros(MLEN)];
  }

  method ZeroMbuf() returns (m: Mbuf)
    ensures fresh(m) && Linked(m, [m]) && Holds([m], [Zeros(MLEN)]) && !m.pkthdr
  {
    m := new Mbuf.Get();
    assert Holds([m], [[]]) by { HoldsCons(m, [], []); }
    FillLast(m, Zeros(MLEN), [], []);
  }

  /** On to the mbuf with the offset, beyond the end of the source if need be.  As written, nothing is
      skipped there: the offset lies in the first mbuf that is added. */
  method Reach(m0: Mbuf, m1: Mbuf?, offset1: nat, ghost k1: nat, ghost ns1: seq<Mbuf>, ghost full: Chain,
               ghost offset0: nat, ghost pktlen0: int)
      returns (m: Mbuf, offset: nat, ghost k: nat, ghost ns: seq<Mbuf>)
    requires Source(m0, ns1, full) && k1 <= |ns1| && m1 == At(ns1, k1)
    requires Walk(full, 0, offset0) == Walk(full, k1, offset1) && Walk(full, 0, offset0).0 < |full|
    requires Grown(m0, full, |ns1|, |ns1|, pktlen0)
    modifies ns1`next, m0`pktlen
    ensures Source(m0, ns, full) && ns1 <= ns && (forall i :: |ns1| <= i < |ns| ==> fresh(ns[i]))
    ensures Walk(full, 0, offset0) == (k, offset) && k < |ns| && m == ns[k]
    ensures Grown(m0, full, |ns1|, |ns|, pktlen0)
  {
    var p := m1;
    offset, k, ns := offset1, k1, ns1;
    while p == null || p.len < offset
      invariant Source(m0, ns, full) && ns1 <= ns && (forall i :: |ns1| <= i < |ns| ==> fresh(ns[i]))
      invariant k <= |ns| && p == At(ns, k) && Walk(full, 0, offset0) == Walk(full, k, offset)
      invariant Grown(m0, full, |ns1|, |ns|, pktlen0)
      decreases |full| - k, |full| - |ns|
    {
      if p == null {
        p, ns := GrowSource(m0, ns, full, |ns1|, pktlen0);
      } else {
        assert p.len == |full[..|ns|][k]|;
        offset := offset - p.len;
        p := p.next;
        k := k + 1;
      }
    }
    m := p;
    assert m.len == |full[..|ns|][k]|;
  }

  /** The copy goes on at byte `offset` of m, the k-th mbuf, with len bytes from position `at` on still to
      be copied; the source has been made long enough for those before. */
  ghost predicate CopyFrom(m: Mbuf?, ns: seq<Mbuf>, full: Chain, k: nat, offset: nat, len: nat, at: nat) {
    && k <= |ns| <= |full| && m == At(ns, k) && (k < |full| ==> offset <= |full[k]|)
    && (len > 0 ==> Located(full, k, offset, at)) && at + len <= Total(full)
    && at <= Start(full, |ns|)
  }

  /** The first piece of the copy is src, and the others are those from there on. */
  ghost predicate FirstTaken(form: Form, full: Chain, k: nat, o: nat, len: nat, room: nat,
                             src: seq<byte>, k': nat, o': nat, len': nat)
  {
    && room > 0 && (k < |full| ==> o <= |full[k]|) && (k' < |full| ==> o' <= |full[k']|)
    && Copies(form, full, k, o, len, room, MLEN) == [src] + Copies(form, full, k', o', len', MLEN, MLEN)
  }

  /** Where one turn goes on. */
  lemma TurnFrom(form: Form, ns: seq<Mbuf>, full: Chain, k: nat, o: nat, len: nat, room: nat, at: nat)
      returns (n: nat, k': nat, o': nat)
    requires k < |ns| <= |full| && len > 0 && room > 0 && Located(full, k, o, at) && at + len <= Total(full)
    ensures n <= len && n == TakeLen(form, full, k, o, len, room)
    ensures form.AsWritten? || o + n == |full[k]| ==> k' == k + 1 && o' == 0
    ensures form.Repaired? && o + n < |full[k]| ==> k' == k && o' == o + n
    ensures k < k' || (k == k' && n > 0)
    ensures CopyFrom(At(ns, k'), ns, full, k', o', len - n, at + (len - (len - n)))
    ensures FirstTaken(form, full, k, o, len, room, full[k][o..o + n], k', o', len - n)
  {
    n, k', o' := CopyTurn(form, full, k, o, len, room, MLEN, at);
    StartMonotone(full, k + 1, |ns|);
  }

  /** What one turn of the copy loop of m_copym takes.  Repaired: no more than the new mbuf holds. */
  method TakeFrom(form: Form, m: Mbuf, offset: nat, len: nat, room: nat,
                  ghost ns: seq<Mbuf>, ghost full: Chain, ghost k: nat)
      returns (src: seq<byte>, ended: bool)
    requires k < |ns| <= |full| && Holds(ns, full[..|ns|]) && m == ns[k] && offset <= |full[k]| && len > 0
    ensures |src| == TakeLen(form, full, k, offset, len, room) && src == full[k][offset..offset + |src|]
    ensures ended == (offset + |src| == |full[k]|)
  {
    assert ns[k].len == |full[..|ns|][k]| && ns[k].Bytes() == full[..|ns|][k];
    var copy_len := Min(len, m.len - offset);
    if form.Repaired? {
      copy_len := Min(copy_len, room);
    }
    src := m.Read(offset, copy_len, full[k]);
    ended := offset + copy_len == m.len;
  }

  /** One turn of the copy loop of m_copym, up to the copy itself, and where it goes on.  Repaired: staying at
      the same source mbuf until that is used up. */
  method Take(form: Form, m0: Mbuf, m: Mbuf, offset: nat, len: nat, room: nat,
              ghost ns: seq<Mbuf>, ghost full: Chain, ghost k: nat, ghost at: nat)
      returns (src: seq<byte>, m': Mbuf?, offset': nat, len': nat, ghost k': nat)
    requires Source(m0, ns, full) && k < |ns| && m == ns[k]
    requires len > 0 && room > 0 && Located(full, k, offset, at) && at + len <= Total(full)
    ensures len' <= len && CopyFrom(m', ns, full, k', offset', len', at + (len - len'))
    ensures k < k' || (k == k' && len' < len)
    ensures FirstTaken(form, full, k, offset, len, room, src, k', offset', len')
  {
    ghost var n, k1, o1 := TurnFrom(form, ns, full, k, offset, len, room, at);
    var ended;
    src, ended := TakeFrom(form, m, offset, len, room, ns, full, k);
    len', k' := len - |src|, k1;
    if form.AsWritten? || ended {
      m', offset' := m.next, 0;
    } else {
      m', offset' := m, offset + |src|;
    }
  }

  /** m_copym: a new packet with a stretch of the contents.  The source is left as it was, unless the
      stretch goes beyond its end; then mbufs of zeros are put there, and its header length counts them.
      As written, the header length of the new packet stays 0. */
  method MCopym(form: Form, m0: Mbuf, offset0: nat, len0: nat, ghost ns: seq<Mbuf>, ghost ss: Chain)
      returns (old_n: Mbuf, ghost ns': seq<Mbuf>, ghost rs: seq<Mbuf>, ghost ts: Chain)
    requires Linked(m0, ns) && Holds(ns, ss)
    requires form.AsWritten? ==> CopymFits(ss, offset0, len0)
    modifies ns`next, m0`pktlen
    ensures Linked(m0, ns') && Holds(ns', Extended(ss, offset0, len0))
    ensures ns <= ns' && forall i :: |ns| <= i < |ns'| ==> fresh(ns'[i])
    ensures m0.pktlen == old(m0.pktlen) + if m0.pkthdr then Total(Extended(ss, offset0, len0)) - Total(ss) else 0
    ensures Linked(old_n, rs) && Holds(rs, ts) && ts == Copied(form, Extended(ss, offset0, len0), offset0, len0)
    ensures forall i :: 0 <= i < |rs| ==> fresh(rs[i]) && rs[i] !in ns'
    ensures old_n.pkthdr && old_n.pktlen == if form.Repaired? then len0 else 0
    ensures HeaderAgrees(old_n, ts) <==> form.Repaired? || len0 == 0
  {
    ghost var full := Extended(ss, offset0, len0);
    ExtendedReaches(ss, offset0, len0);
    old_n, ns', rs, ts := CopymLoop(form, m0, offset0, len0, ns, ss, full);
    CopiedConcat(form, ss, offset0, len0);
    assert full[..|full|] == full;
    if form.Repaired? {
      old_n.pktlen := len0;
    }
  }

  /** The loops of m_copym. */
  method CopymLoop(form: Form, m0: Mbuf, offset0: nat, len0: nat,
                   ghost ns: seq<Mbuf>, ghost ss: Chain, ghost full: Chain)
      returns (old_n: Mbuf, ghost ns': seq<Mbuf>, ghost rs: seq<Mbuf>, ghost ts: Chain)
    requires Linked(m0, ns) && Holds(ns, ss) && full == Extended(ss, offset0, len0)
    requires form.AsWritten? ==> CopymFits(ss, offset0, len0)
    modifies ns`next, m0`pktlen
    ensures Copying(m0, ns', full, old_n, rs, ts) && |ns'| == |full| && Grown(m0, full, |ns|, |full|, old(m0.pktlen))
    ensures Longer(ns, ns') && (forall i :: |ns| <= i < |ns'| ==> fresh(ns'[i]))
    ensures ts == Copied(form, full, offset0, len0) && old_n.pktlen == 0
    ensures forall i :: 0 <= i < |rs| ==> fresh(rs[i])
  {
    var src, m, offset, len;
    ghost var k, ns1;
    src, m, offset, len, k, ns1 := CopymFirst(form, m0, offset0, len0, ns, ss, full);
    old_n, ns', rs, ts := CopymOn(form, m0, src, m, offset, len, ns1, full, k, offset0 + (len0 - len),
                                  |ns|, old(m0.pktlen));
    AllGrown(ss, offset0, len0, |ns'|);
  }

  /** The copy, when the first piece has been found. */
  method CopymOn(form: Form, m0: Mbuf, src: seq<byte>, m: Mbuf?, offset: nat, len: nat, ghost ns: seq<Mbuf>,
                 ghost full: Chain, ghost k: nat, ghost at: nat, ghost n0: nat, ghost pktlen0: int)
      returns (old_n: Mbuf, ghost ns': seq<Mbuf>, ghost rs: seq<Mbuf>, ghost ts: Chain)
    requires Source(m0, ns, full) && Grown(m0, full, n0, |ns|, pktlen0)
    requires len > 0 ==> CopyFrom(m, ns, full, k, offset, len, at)
    requires k < |full| ==> offset <= |full[k]|
    requires AllFit([src] + Copies(form, full, k, offset, len, MLEN, MLEN), MHLEN, MLEN)
    modifies ns`next, m0`pktlen
    ensures Copying(m0, ns', full, old_n, rs, ts) && Grown(m0, full, n0, |ns'|, pktlen0)
    ensures Longer(ns, ns') && (forall i :: |ns| <= i < |ns'| ==> fresh(ns'[i])) && (len == 0 ==> ns' == ns)
    ensures ts == [src] + Copies(form, full, k, offset, len, MLEN, MLEN) && old_n.pktlen == 0
    ensures len > 0 ==> at + len <= Start(full, |ns'|)
    ensures forall i :: 0 <= i < |rs| ==> fresh(rs[i])
  {
    AllFitCons(src, Copies(form, full, k, offset, len, MLEN, MLEN), MHLEN, MLEN);
    old_n := StartCopy(m0, ns, full, src);
    ns', rs, ts := ns, [old_n], [src];
    if len > 0 {
      ns', rs, ts := CopymRest(form, m0, m, offset, len, old_n, ns, full, rs, ts, k, at, n0, pktlen0);
    }
  }

  lemma CopiedFits(form: Form, ss: Chain, offset: nat, len: nat)
    requires ss != [] && (form.AsWritten? ==> CopymFits(ss, offset, len))
    ensures AllFit(Copied(form, Extended(ss, offset, len), offset, len), MHLEN, MLEN)
  {
    if form.AsWritten? {
      CopymAsWritten(ss, offset, len);
    } else {
      CopiedConcat(form, ss, offset, len);
    }
  }

  lemma SkippedInto(ss: Chain, full: Chain, offset: nat, len: nat)
    requires ss != [] && len > 0 && full == Extended(ss, offset, len)
    ensures var w, v := Walk(ss, 0, offset), Walk(full, 0, offset);
            v == Walk(full, w.0, w.1) && v.0 < |full| && Located(full, v.0, v.1, offset)
  {
    ExtendedReaches(ss, offset, len);
    WalkPrefix(ss, full[|ss|..], 0, offset);
    assert full == ss + full[|ss|..];
    WalkMeasures(full, offset);
  }

  /** The way to the offset, and the first turn of the loop of m_copym, which fills the header mbuf. */
  method CopymFirst(form: Form, m0: Mbuf, offset0: nat, len0: nat,
                    ghost ns: seq<Mbuf>, ghost ss: Chain, ghost full: Chain)
      returns (src: seq<byte>, m: Mbuf?, offset: nat, len: nat, ghost k: nat, ghost ns': seq<Mbuf>)
    requires Linked(m0, ns) && Holds(ns, ss) && full == Extended(ss, offset0, len0)
    requires form.AsWritten? ==> CopymFits(ss, offset0, len0)
    modifies ns`next, m0`pktlen
    ensures Source(m0, ns', full) && ns <= ns' && (forall i :: |ns| <= i < |ns'| ==> fresh(ns'[i]))
    ensures Grown(m0, full, |ns|, |ns'|, old(m0.pktlen))
    ensures (k < |full| ==> offset <= |full[k]|) && len <= len0
    ensures (len0 > 0 ==> CopyFrom(m, ns', full, k, offset, len, offset0 + (len0 - len)))
    ensures [src] + Copies(form, full, k, offset, len, MLEN, MLEN) == Copied(form, full, offset0, len0)
    ensures AllFit(Copied(form, full, offset0, len0), MHLEN, MLEN)
  {
    m, offset, k := SkipTo(m0, offset0, ns, ss);
    ns' := ns;
    ExtendedReaches(ss, offset0, len0);
    CopiedFits(form, ss, offset0, len0);
    len, src := len0, [];
    if len > 0 {
      SkippedInto(ss, full, offset0, len0);
      m, offset, k, ns' := Reach(m0, m, offset, k, ns, full, offset0, m0.pktlen);
      src, m, offset, len, k := Take(form, m0, m, offset, len, MHLEN, ns', full, k, offset0);
    }
  }

  /** What holds between the turns of the copy loop. */
  ghost predicate Copying(m0: Mbuf, ns: seq<Mbuf>, full: Chain, old_n: Mbuf, rs: seq<Mbuf>, ts: Chain)
    reads ns`next, ns`dat, ns`off, ns`len, rs`next, rs`dat, rs`off, rs`len, old_n`pkthdr, old_n`ext
  {
    && Source(m0, ns, full) && Linked(old_n, rs) && Holds(rs, ts) && old_n.pkthdr && !old_n.ext
    && forall i :: 0 <= i < |rs| ==> rs[i] !in ns
  }

  /** The header mbuf with the first piece. */
  method StartCopy(m0: Mbuf, ghost ns: seq<Mbuf>, ghost full: Chain, src: seq<byte>) returns (old_n: Mbuf)
    requires Source(m0, ns, full) && |src| <= MHLEN
    ensures fresh(old_n) && Copying(m0, ns, full, old_n, [old_n], [src]) && old_n.pktlen == 0
  {
    old_n := HeaderPiece(src);
  }

  /** The source for the next turn. */
  method NextSource(m0: Mbuf, m: Mbuf?, ghost ns: seq<Mbuf>, ghost full: Chain, ghost k: nat, old_n: Mbuf,
                    ghost rs: seq<Mbuf>, ghost ts: Chain, ghost n0: nat, ghost pktlen0: int)
      returns (m': Mbuf, ghost ns': seq<Mbuf>)
    requires Copying(m0, ns, full, old_n, rs, ts) && k <= |ns| && m == At(ns, k) && k < |full|
    requires Grown(m0, full, n0, |ns|, pktlen0)
    modifies ns`next, m0`pktlen
    ensures Copying(m0, ns', full, old_n, rs, ts) && k < |ns'| && m' == ns'[k]
    ensures ns <= ns' && (forall i :: |ns| <= i < |ns'| ==> fresh(ns'[i]))
    ensures Grown(m0, full, n0, |ns'|, pktlen0)
  {
    ns' := ns;
    if m == null {
      m', ns' := GrowSource(m0, ns, full, n0, pktlen0);
    } else {
      m' := m;
    }
  }

  /** The piece goes into a new last mbuf. */
  method NextPlace(m0: Mbuf, ghost ns: seq<Mbuf>, ghost full: Chain, old_n: Mbuf, src: seq<byte>,
                   ghost rs: seq<Mbuf>, ghost ts: Chain, ghost n0: nat, ghost pktlen0: int)
      returns (ghost rs': seq<Mbuf>)
    requires Copying(m0, ns, full, old_n, rs, ts) && |src| <= MLEN
    requires Grown(m0, full, n0, |ns|, pktlen0)
    modifies rs`next, old_n`pktlen
    ensures Copying(m0, ns, full, old_n, rs', ts + [src]) && old_n.pktlen == old(old_n.pktlen)
    ensures |rs'| == |rs| + 1 && (forall i :: 0 <= i < |rs| ==> rs'[i] == rs[i]) && fresh(rs'[|rs|])
    ensures Grown(m0, full, n0, |ns|, pktlen0)
  {
    assert m0 in ns;
    var m := NewPlain();
    AddPiece(old_n, m, src, rs, ts);
    rs' := rs + [m];
  }

  /** One later turn of the loop of m_copym: take a piece, and add an mbuf for it. */
  method CopymTurn(form: Form, m0: Mbuf, m: Mbuf?, offset: nat, len: nat, old_n: Mbuf, ghost ns: seq<Mbuf>,
                   ghost full: Chain, ghost rs: seq<Mbuf>, ghost ts: Chain, ghost k: nat, ghost at: nat,
                   ghost n0: nat, ghost pktlen0: int)
      returns (m': Mbuf?, offset': nat, len': nat, ghost k': nat, ghost ns': seq<Mbuf>,
               ghost rs': seq<Mbuf>, ghost ts': Chain)
    requires Copying(m0, ns, full, old_n, rs, ts) && Grown(m0, full, n0, |ns|, pktlen0)
    requires len > 0 && CopyFrom(m, ns, full, k, offset, len, at)
    requires AllFit(ts + Copies(form, full, k, offset, len, MLEN, MLEN), MHLEN, MLEN) && ts != []
    modifies ns`next, m0`pktlen, rs`next, old_n`pktlen
    ensures Copying(m0, ns', full, old_n, rs', ts') && Grown(m0, full, n0, |ns'|, pktlen0)
    ensures old_n.pktlen == old(old_n.pktlen)
    ensures len' <= len && CopyFrom(m', ns', full, k', offset', len', at + (len - len'))
    ensures k < k' || (k == k' && len' < len)
    ensures ts' != []
    ensures ts' + Copies(form, full, k', offset', len', MLEN, MLEN)
         == ts + Copies(form, full, k, offset, len, MLEN, MLEN)
    ensures Longer(ns, ns') && (forall i :: |ns| <= i < |ns'| ==> fresh(ns'[i]))
    ensures Longer(rs, rs') && (forall i :: |rs| <= i < |rs'| ==> fresh(rs'[i]))
  {
    var q, src;
    q, ns' := NextSource(m0, m, ns, full, k, old_n, rs, ts, n0, pktlen0);
    src, m', offset', len', k' := Take(form, m0, q, offset, len, MLEN, ns', full, k, at);
    rs', ts' := PlaceNext(m0, ns', full, old_n, src, rs, ts, n0, pktlen0,
                          Copies(form, full, k', offset', len', MLEN, MLEN));
  }

  /** The place for one piece of the copy; `more` is the rest of them. */
  method PlaceNext(m0: Mbuf, ghost ns: seq<Mbuf>, ghost full: Chain, old_n: Mbuf, src: seq<byte>,
                   ghost rs: seq<Mbuf>, ghost ts: Chain, ghost n0: nat, ghost pktlen0: int, ghost more: Chain)
      returns (ghost rs': seq<Mbuf>, ghost ts': Chain)
    requires Copying(m0, ns, full, old_n, rs, ts) && Grown(m0, full, n0, |ns|, pktlen0)
    requires AllFit(ts + ([src] + more), MHLEN, MLEN) && ts != []
    modifies rs`next, old_n`pktlen
    ensures Copying(m0, ns, full, old_n, rs', ts') && Grown(m0, full, n0, |ns|, pktlen0)
    ensures old_n.pktlen == old(old_n.pktlen) && ts' != [] && ts' + more == ts + ([src] + more)
    ensures Longer(rs, rs') && (forall i :: |rs| <= i < |rs'| ==> fresh(rs'[i]))
  {
    NextFits(ts, src, more);
    rs' := NextPlace(m0, ns, full, old_n, src, rs, ts, n0, pktlen0);
    ts' := ts + [src];
  }


  lemma NextFits(ts: Chain, src: seq<byte>, more: Chain)
    requires AllFit(ts + ([src] + more), MHLEN, MLEN) && ts != []
    ensures |src| <= MLEN && ts + ([src] + more) == (ts + [src]) + more
  {
    assert (ts + ([src] + more))[|ts|] == src;
  }

  /** The later turns of the loop of m_copym. */
  method CopymRest(form: Form, m0: Mbuf, m1: Mbuf?, offset1: nat, len1: nat, old_n: Mbuf, ghost ns1: seq<Mbuf>,
                   ghost full: Chain, ghost rs1: seq<Mbuf>, ghost ts1: Chain, ghost k1: nat, ghost at: nat,
                   ghost n0: nat, ghost pktlen0: int)
      returns (ghost ns: seq<Mbuf>, ghost rs: seq<Mbuf>, ghost ts: Chain)
    requires Copying(m0, ns1, full, old_n, rs1, ts1) && Grown(m0, full, n0, |ns1|, pktlen0)
    requires CopyFrom(m1, ns1, full, k1, offset1, len1, at)
    requires AllFit(ts1 + Copies(form, full, k1, offset1, len1, MLEN, MLEN), MHLEN, MLEN) && ts1 != []
    modifies ns1`next, m0`pktlen, rs1`next, old_n`pktlen
    ensures Copying(m0, ns, full, old_n, rs, ts) && Grown(m0, full, n0, |ns|, pktlen0) && at + len1 <= Start(full, |ns|)
    ensures ts == ts1 + Copies(form, full, k1, offset1, len1, MLEN, MLEN)
    ensures old_n.pktlen == old(old_n.pktlen)
    ensures Longer(ns1, ns) && (forall i :: |ns1| <= i < |ns| ==> fresh(ns[i]))
    ensures Longer(rs1, rs) && (forall i :: |rs1| <= i < |rs| ==> fresh(rs[i]))
  {
    var m, offset: nat, len: nat := m1, offset1, len1;
    ghost var k := k1;
    ns, rs, ts := ns1, rs1, ts1;
    ghost var goal := ts1 + Copies(form, full, k1, offset1, len1, MLEN, MLEN);
    while len > 0
      invariant len <= len1 && CopyFrom(m, ns, full, k, offset, len, at + (len1 - len))
      invariant ts != [] && ts + Copies(form, full, k, offset, len, MLEN, MLEN) == goal
      invariant Copying(m0, ns, full, old_n, rs, ts) && Grown(m0, full, n0, |ns|, pktlen0)
      invariant old_n.pktlen == old(old_n.pktlen)
      invariant Longer(ns1, ns) && (forall i :: |ns1| <= i < |ns| ==> fresh(ns[i]))
      invariant Longer(rs1, rs) && (forall i :: |rs1| <= i < |rs| ==> fresh(rs[i]))
      decreases |full| - k, len
    {
      m, offset, len, k, ns, rs, ts := CopymTurn(form, m0, m, offset, len, old_n, ns, full, rs, ts, k,
                                                 at + (len1 - len), n0, pktlen0);
    }
  }
}
