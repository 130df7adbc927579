/** The mbuf chain on the heap and the operations of kern/uipc_mbuf.c on it.
    A chain is described by two ghost values: `ns`, its nodes in order, and `ss`, the bytes each holds;
    the flat contents of the chain are Concat(ss). */
module Mbufs {
  import opened Bytes
  import opened Pieces

  // sys/mbuf.h with the 64-bit layout: a 40-byte m_hdr and a 16-byte pkthdr in a 128-byte mbuf.
  const MSIZE := 128
  const MLEN := MSIZE - 40
  const PKTHDR := 16
  const MHLEN := MLEN - PKTHDR
  const MINCLSIZE := MHLEN + MLEN
  const LONG := 4  // sizeof(long)

  /** A pointer to a buffer: never set, or to the buffer at this address. */
  datatype Pointer = Unset | Address(addr: nat)

  /** The allocator of clusters: each address is handed out once. */
  class Clusters {
    var next: nat

    constructor ()
      ensures next == 0
    {
      next := 0;
    }

    method Malloc() returns (addr: nat)
      modifies this
      ensures addr == old(next) && next == old(next) + 1
    {
      addr := next;
      next := next + 1;
    }
  }

  class Mbuf {
    var next: Mbuf?
    var nextpkt: Mbuf?
    var dat: seq<byte>    // the storage m_data points into: the mbuf's own area, or its cluster
    var off: nat          // m_data, as a position in dat
    var len: nat
    var pkthdr: bool      // M_PKTHDR
    var ext: bool         // M_EXT
    var extbuf: Pointer   // m_ext.ext_buf, meaningful when M_EXT is set
    var bcast: bool       // M_BCAST
    var mcast: bool       // M_MCAST
    var eor: bool         // M_EOR
    var mtype: nat        // m_type
    var pktlen: int       // m_pkthdr.len
    var rcvif: nat        // m_pkthdr.rcvif, 0 for none

    /** MGET: a plain mbuf, empty, with its whole data area. */
    constructor Get()
      ensures |dat| == MLEN && off == 0 && len == 0
      ensures next == null && nextpkt == null && !pkthdr && !ext && !bcast && !mcast
    {
      next, nextpkt := null, null;
      dat := seq(MLEN, _ => 0);
      off, len := 0, 0;
      pkthdr, ext, bcast, mcast, eor := false, false, false, false, false;
    }

    /** MGETHDR: a packet header mbuf, whose data area starts behind the header. */
    constructor GetHdr()
      ensures |dat| == MLEN && off == PKTHDR && len == 0
      ensures next == null && nextpkt == null && pkthdr && !ext && !bcast && !mcast
      ensures pktlen == 0 && rcvif == 0
    {
      next, nextpkt := null, null;
      dat := seq(MLEN, _ => 0);
      off, len := PKTHDR, 0;
      pkthdr, ext, bcast, mcast, eor := true, false, false, false, false;
      pktlen, rcvif := 0, 0;
    }

    /** MGETHDR and MCLGET: a packet header mbuf whose data is in a cluster at this address. */
    constructor GetHdrCluster(addr: nat)
      ensures |dat| == MCLBYTES && off == 0 && len == 0
      ensures next == null && nextpkt == null && pkthdr && ext && extbuf == Address(addr) && !bcast && !mcast
      ensures pktlen == 0 && rcvif == 0
    {
      next, nextpkt := null, null;
      dat := seq(MCLBYTES, _ => 0);
      off, len := 0, 0;
      pkthdr, ext, bcast, mcast, eor := true, true, false, false, false;
      extbuf, pktlen, rcvif := Address(addr), 0, 0;
    }

    /** MGET, then what m_prepend does to the new mbuf: it takes over m's packet header and link.  Its
        bytes fit its storage exactly when there are no more of them than the capacity. */
    constructor InFront(m: Mbuf, n: nat)
      ensures len == n && next == m && !ext && mtype == m.mtype
      ensures Fits() <==> n <= if m.pkthdr then MHLEN else MLEN
      ensures pkthdr == m.pkthdr
      ensures pkthdr ==> pktlen == m.pktlen && rcvif == m.rcvif && off >= PKTHDR
      ensures pkthdr ==> bcast == m.bcast && mcast == m.mcast && eor == m.eor
      ensures var o := off - if pkthdr then PKTHDR else 0;
              if n < MHLEN then o % LONG == 0 && MHLEN - LONG < o + n <= MHLEN else o == 0
    {
      next, nextpkt := m, null;
      dat := seq(MLEN, _ => 0);
      ext, pkthdr := false, m.pkthdr;
      bcast, mcast, eor := m.pkthdr && m.bcast, m.pkthdr && m.mcast, m.pkthdr && m.eor;
      mtype := m.mtype;
      pktlen, rcvif := m.pktlen, m.rcvif;
      // MH_ALIGN
      off := (if m.pkthdr then PKTHDR else 0) + if n < MHLEN then (MHLEN - n) / LONG * LONG else 0;
      len := n;
    }

    /** m_getclr: an mbuf with a zeroed cluster, at this address, and no other flag.  As written, m_data
        points to the cluster but ext_buf is never set. */
    constructor GetCluster(form: Form, addr: nat)
      ensures |dat| == MCLBYTES && off == 0 && len == 0
      ensures next == null && nextpkt == null && !pkthdr && ext && !bcast && !mcast
      ensures extbuf == if form.Repaired? then Address(addr) else Unset
    {
      extbuf := if form.Repaired? then Address(addr) else Unset;
      next, nextpkt := null, null;
      dat := seq(MCLBYTES, _ => 0);
      off, len := 0, 0;
      pkthdr, ext, bcast, mcast, eor := false, true, false, false, false;
    }

    ghost predicate Fits()
      reads this`dat, this`off, this`len
    {
      off + len <= |dat|
    }

    ghost function Bytes(): seq<byte>
      reads this`dat, this`off, this`len
      requires Fits()
    {
      dat[off..off + len]
    }

    /** The n bytes at mtod(m) + o. */
    method Read(o: nat, n: nat, ghost bytes: seq<byte>) returns (r: seq<byte>)
      requires Fits() && Bytes() == bytes && o + n <= len
      ensures r == bytes[o..o + n]
    {
      r := dat[off + o..off + o + n];
      SliceOfSlice(dat, off, off + len, o, o + n);
    }
  }

  function At(ns: seq<Mbuf>, i: nat): Mbuf? {
    if i < |ns| then ns[i] else null
  }

  /** m is the head of the chain of these nodes. */
  ghost predicate Linked(m: Mbuf?, ns: seq<Mbuf>)
    reads ns`next
  {
    && m == At(ns, 0)
    && (forall i {:trigger ns[i].next} :: 0 <= i < |ns| ==> ns[i].next == At(ns, i + 1))
    && (forall i, j :: 0 <= i < j < |ns| ==> ns[i] != ns[j])
  }

  /** The nodes hold these bytes. */
  ghost predicate Holds(ns: seq<Mbuf>, ss: Chain)
    reads ns`dat, ns`off, ns`len
  {
    && |ns| == |ss|
    && (forall i {:trigger ns[i].len} :: 0 <= i < |ns| ==> ns[i].Fits() && ns[i].len == |ss[i]|)
    && (forall i {:trigger ns[i].Bytes()} :: 0 <= i < |ns| ==> ns[i].Bytes() == ss[i])
  }

  /** The packet header agrees with the contents. */
  ghost predicate HeaderAgrees(m: Mbuf?, ss: Chain)
    reads m
  {
    m != null && m.pkthdr ==> m.pktlen == Total(ss)
  }

  lemma LinkedCons(mn: Mbuf, m: Mbuf?, ns: seq<Mbuf>)
    requires Linked(m, ns) && mn !in ns && mn.next == m
    ensures Linked(mn, [mn] + ns)
  {
  }

  lemma LinkedAppend(m: Mbuf?, ms: seq<Mbuf>, n: Mbuf?, ns: seq<Mbuf>)
    requires ms != [] && m == ms[0] && Linked(n, ns)
    requires forall i, j :: 0 <= i < j < |ms| ==> ms[i] != ms[j]
    requires forall i :: 0 <= i < |ms| - 1 ==> ms[i].next == ms[i + 1]
    requires ms[|ms| - 1].next == n
    requires forall x <- ms :: x !in ns
    ensures Linked(m, ms + ns)
  {
    var all := ms + ns;
    forall i | 0 <= i < |all|
      ensures all[i].next == At(all, i + 1)
    {
      if i < |ms| - 1 {
        assert all[i] == ms[i] && all[i + 1] == ms[i + 1];
      } else if i >= |ms| {
        assert all[i] == ns[i - |ms|];
      }
    }
    forall i, j | 0 <= i < j < |all|
      ensures all[i] != all[j]
    {
      if i < |ms| {
        assert all[i] in ms;
        assert j >= |ms| ==> all[j] in ns;
      }
    }
  }

  lemma HoldsAppend(ms: seq<Mbuf>, ss: Chain, ns: seq<Mbuf>, ts: Chain)
    requires Holds(ms, ss) && Holds(ns, ts)
    ensures Holds(ms + ns, ss + ts)
  {
    var all := ms + ns;
    forall i | 0 <= i < |all|
      ensures all[i].Fits() && all[i].len == |(ss + ts)[i]| && all[i].Bytes() == (ss + ts)[i]
    {
      if i < |ms| {
        assert all[i] == ms[i] && ms[i].len == |ss[i]|;
      } else {
        assert all[i] == ns[i - |ms|] && ns[i - |ms|].len == |ts[i - |ms|]|;
      }
    }
  }

  lemma HoldsCons(mn: Mbuf, ns: seq<Mbuf>, ss: Chain)
    requires mn.Fits() && Holds(ns, ss)
    ensures Holds([mn] + ns, [mn.Bytes()] + ss)
  {
    HoldsAppend([mn], [mn.Bytes()], ns, ss);
  }

  lemma TotalOfPrefix(ss: Chain, k: nat)
    requires k < |ss|
    ensures Concat(ss[..k + 1]) == Concat(ss[..k]) + ss[k]
  {
    assert ss[..k + 1] == ss[..k] + [ss[k]];
    ConcatAppend(ss[..k], [ss[k]]);
    ConcatOne(ss[k]);
  }

  /** m_total_len */
  method MTotalLen(m0: Mbuf?, ghost ns: seq<Mbuf>, ghost ss: Chain) returns (len: nat)
    requires Linked(m0, ns) && Holds(ns, ss)
    ensures len == Total(ss)
  {
    len := 0;
    var m := m0;
    ghost var k := 0;
    while m != null
      invariant 0 <= k <= |ns| && m == At(ns, k)
      invariant len == Total(ss[..k])
      decreases |ns| - k
    {
      TotalOfPrefix(ss, k);
      len := len + m.len;
      m := m.next;
      k := k + 1;
    }
    assert ss[..k] == ss;
  }

  /** m_adj.  A positive length must not exceed the contents: the source would run off the chain. */
  method MAdj(form: Form, m: Mbuf?, len: int, ghost ns: seq<Mbuf>, ghost ss: Chain)
    requires Linked(m, ns) && Holds(ns, ss)
    requires m != null ==> len <= Total(ss)
    modifies ns`len, ns`off, (if m == null then {} else {m})`pktlen
    ensures Holds(ns, Adjusted(form, ss, len))
    ensures m != null ==> m.pktlen == AdjustedHeader(form, m.pkthdr, old(m.pktlen), ss, len)
  {
    if m == null {
      return;
    }
    if len > 0 {
      SetPktLen(m, m.pktlen - len, ns, ss);
      TrimFront(m, len, ns, ss);
    } else {
      AdjTail(form, m, -len, ns, ss);
    }
  }

  /** m_adj with a negative length. */
  method AdjTail(form: Form, m: Mbuf, n: nat, ghost ns: seq<Mbuf>, ghost ss: Chain)
    requires Linked(m, ns) && Holds(ns, ss)
    modifies ns`len, m`pktlen
    ensures form.AsWritten? ==> Holds(ns, CutFirstFit(ss, n)) && m.pktlen == old(m.pktlen)
    ensures form.Repaired? ==> Holds(ns, Keep(ss, Max(Total(ss) - n, 0)))
    ensures form.Repaired? ==> m.pktlen == if m.pkthdr then Max(Total(ss) - n, 0) else old(m.pktlen)
  {
    if form.AsWritten? {
      CutFirst(m, n, ns, ss);
    } else {
      // repaired: find the length to keep first, record it, and walk to where it ends
      var total := MTotalLen(m, ns, ss);
      var keep := Max(total - n, 0);
      SetPktLen(m, keep, ns, ss);
      KeepFront(m, keep, ns, ss);
    }
  }

  method SetPktLen(m: Mbuf, n: int, ghost ns: seq<Mbuf>, ghost ss: Chain)
    requires Holds(ns, ss)
    modifies m`pktlen
    ensures Holds(ns, ss)
    ensures m.pktlen == if m.pkthdr then n else old(m.pktlen)
  {
    if m.pkthdr {
      m.pktlen := n;
    }
  }

  method ClearPkthdr(m: Mbuf, ghost ns: seq<Mbuf>, ghost ss: Chain)
    requires Linked(m, ns) && Holds(ns, ss)
    modifies m`pkthdr
    ensures Linked(m, ns) && Holds(ns, ss) && !m.pkthdr
  {
    m.pkthdr := false;
  }

  function Max(a: int, b: int): int {
    if a < b then b else a
  }

  function AdjustedHeader(form: Form, pkthdr: bool, pktlen: int, ss: Chain, len: int): int {
    if !pkthdr then pktlen
    else if len > 0 then pktlen - len
    else if form.AsWritten? then pktlen
    else Max(Total(ss) + len, 0)
  }

  function Adjusted(form: Form, ss: Chain, len: int): Chain {
    if len > 0 then TrimHead(ss, len)
    else if form.AsWritten? then CutFirstFit(ss, -len)
    else Keep(ss, Max(Total(ss) + len, 0))
  }

  /** Repaired, m_adj takes len bytes off the head or the tail, and the header length stays right. */
  lemma AdjustedRepaired(ss: Chain, len: int)
    requires len <= Total(ss) && 0 <= Total(ss) + len
    ensures Concat(Adjusted(Repaired, ss, len)) == if len > 0 then Concat(ss)[len..] else Concat(ss)[..Total(ss) + len]
    ensures AdjustedHeader(Repaired, true, Total(ss), ss, len) == Total(Adjusted(Repaired, ss, len))
  {
    if len > 0 {
      TrimHeadDrops(ss, len);
    } else {
      KeepTakes(ss, Total(ss) + len);
    }
  }

  /** In either form, a positive length takes so many bytes off the head. */
  lemma AdjustedHead(form: Form, ss: Chain, len: nat)
    requires 0 < len <= Total(ss)
    ensures Concat(Adjusted(form, ss, len)) == Concat(ss)[len..]
    ensures AdjustedHeader(form, true, Total(ss), ss, len) == Total(ss) - len
  {
    TrimHeadDrops(ss, len);
  }

  lemma {:induction false} CutLength(ss: Chain, n: nat)
    ensures var w := Walk(ss, 0, n); Total(CutFirstFit(ss, n)) == Total(ss) - if w.0 < |ss| then w.1 else 0
    ensures n > 0 ==> Walk(ss, 0, n).1 > 0
  {
    if ss == [] {
    } else {
      if |ss[0]| < n {
        WalkOfTail(ss, 0, n - |ss[0]|);
        CutLength(ss[1..], n - |ss[0]|);
        assert CutFirstFit(ss, n)[1..] == CutFirstFit(ss[1..], n - |ss[0]|);
      } else {
        assert CutFirstFit(ss, n)[1..] == ss[1..];
      }
    }
  }

  /** As written, a tail trim leaves the header length right exactly when it is asked for more
      than there is, and then it cuts nothing at all. */
  lemma HeaderAsWritten(ss: Chain, n: nat)
    requires n > 0
    ensures AdjustedHeader(AsWritten, true, Total(ss), ss, 0 - n) == Total(Adjusted(AsWritten, ss, 0 - n))
       <==> n > Total(ss)
  {
    CutLength(ss, n);
    if ss != [] {
      WalkMeasures(ss, n);
    }
  }

  // How many bytes of the j-th mbuf a walk over n bytes covers, and how many where it stops.

  function Walked(ss: Chain, n: nat, j: nat): nat
    requires j < |ss|
  {
    var w := Walk(ss, 0, n);
    if j < w.0 then |ss[j]| else if j == w.0 then w.1 else 0
  }

  function WalkedLast(ss: Chain, n: nat, j: nat): nat {
    if j == Walk(ss, 0, n).0 then Walk(ss, 0, n).1 else 0
  }

  /** The loop of m_adj for a positive length: which mbuf it stops at, and how much of that one it cuts. */
  method AdjHead(m0: Mbuf, len0: nat, ghost ns: seq<Mbuf>, ghost ss: Chain) returns (ghost k: nat, len: nat)
    requires Linked(m0, ns) && Holds(ns, ss)
    requires Walk(ss, 0, len0).0 < |ss|
    modifies ns`len, ns`off
    ensures Walk(ss, 0, len0) == (k, len) && k < |ns|
    ensures forall j :: 0 <= j < |ns| ==> ns[j].len == if j < k then 0 else if j == k then |ss[j]| - len else |ss[j]|
    ensures forall j :: 0 <= j < |ns| ==> ns[j].off == old(ns[j].off) + if j == k then len else 0
  {
    var m: Mbuf? := m0;
    len, k := len0, 0;
    while m != null && m.len < len
      invariant 0 <= k <= |ns| && m == At(ns, k)
      invariant forall j :: 0 <= j < |ns| ==> ns[j].off == old(ns[j].off)
      invariant forall j :: 0 <= j < |ns| ==> ns[j].len == if j < k then 0 else |ss[j]|
      invariant Walk(ss, 0, len0) == Walk(ss, k, len)
      decreases |ns| - k
    {
      len := len - m.len;
      m.len := 0;
      m := m.next;
      k := k + 1;
    }
    m.len := m.len - len;
    m.off := m.off + len;
  }

  /** The loop of m_adj for a negative length, as written. */
  method CutTail(m0: Mbuf, len0: nat, ghost ns: seq<Mbuf>, ghost ss: Chain)
    requires Linked(m0, ns) && Holds(ns, ss)
    modifies ns`len
    ensures forall j :: 0 <= j < |ns| ==> ns[j].len == |ss[j]| - WalkedLast(ss, len0, j)
  {
    var m: Mbuf?, len: nat := m0, len0;
    ghost var k := 0;
    while m != null
      invariant 0 <= k <= |ns| && m == At(ns, k)
      invariant forall j :: 0 <= j < |ns| ==> ns[j].len == |ss[j]|
      invariant Walk(ss, 0, len0) == Walk(ss, k, len)
      decreases |ns| - k
    {
      if m.len < len {
        len := len - m.len;
      } else {
        m.len := m.len - len;
        break;
      }
      m := m.next;
      k := k + 1;
    }
  }

  /** The repaired loop of m_adj for a negative length: keep the first bytes, empty what follows. */
  method KeepHead(m0: Mbuf, keep0: nat, ghost ns: seq<Mbuf>, ghost ss: Chain)
    requires Linked(m0, ns) && Holds(ns, ss)
    modifies ns`len
    ensures forall j :: 0 <= j < |ns| ==> ns[j].len == Walked(ss, keep0, j)
  {
    var m: Mbuf?, keep: nat := m0, keep0;
    ghost var k := 0;
    while m != null && m.len < keep
      invariant 0 <= k <= |ns| && m == At(ns, k)
      invariant Walk(ss, 0, keep0) == Walk(ss, k, keep)
      decreases |ns| - k
    {
      keep := keep - m.len;
      m := m.next;
      k := k + 1;
    }
    if m == null {
      return;
    }
    m.len := keep;
    m := m.next;
    ghost var q := k;
    k := k + 1;
    while m != null
      invariant q < k <= |ns| && m == At(ns, k)
      invariant forall j :: 0 <= j < |ns| ==>
        ns[j].len == if j == q then keep else if q < j < k then 0 else |ss[j]|
      decreases |ns| - k
    {
      m.len := 0;
      m := m.next;
      k := k + 1;
    }
  }

  /** The storage and data positions of a chain, as values. */
  ghost predicate Was(ns: seq<Mbuf>, ss: Chain, dats: seq<seq<byte>>, offs: seq<nat>)
    reads ns
  {
    && |dats| == |offs| == |ss| == |ns|
    && (forall j :: 0 <= j < |ns| ==> ns[j].dat == dats[j])
    && (forall j :: 0 <= j < |ns| ==> offs[j] + |ss[j]| <= |dats[j]| && dats[j][offs[j]..offs[j] + |ss[j]|] == ss[j])
  }

  ghost method Snapshot(ns: seq<Mbuf>, ss: Chain) returns (dats: seq<seq<byte>>, offs: seq<nat>)
    requires Holds(ns, ss)
    ensures Was(ns, ss, dats, offs)
    ensures forall j :: 0 <= j < |ns| ==> ns[j].off == offs[j]
  {
    dats := seq(|ns|, j requires 0 <= j < |ns| reads ns => ns[j].dat);
    offs := seq(|ns|, j requires 0 <= j < |ns| reads ns => ns[j].off);
    assert forall j :: 0 <= j < |ns| ==> ns[j].len == |ss[j]| && ns[j].Bytes() == ss[j];
  }

  /** An mbuf whose data begins a bytes later, and is no longer than before, holds a stretch of them. */
  lemma StretchOf(m: Mbuf, s: seq<byte>, dat: seq<byte>, off: nat, a: nat)
    requires m.dat == dat && off + |s| <= |dat| && dat[off..off + |s|] == s
    requires m.off == off + a && a + m.len <= |s|
    ensures m.Fits() && m.Bytes() == s[a..a + m.len]
  {
    SliceOfSlice(dat, off, off + |s|, a, a + m.len);
  }

  lemma TrimmedHolds(ns: seq<Mbuf>, ss: Chain, n: nat, dats: seq<seq<byte>>, offs: seq<nat>)
    requires Was(ns, ss, dats, offs)
    requires forall j :: 0 <= j < |ns| ==> ns[j].len == |ss[j]| - Walked(ss, n, j)
    requires forall j :: 0 <= j < |ns| ==> ns[j].off == offs[j] + WalkedLast(ss, n, j)
    ensures Holds(ns, TrimHead(ss, n))
  {
    var w, rs := Walk(ss, 0, n), TrimHead(ss, n);
    forall j | 0 <= j < |ns|
      ensures ns[j].Fits() && ns[j].len == |rs[j]| && ns[j].Bytes() == rs[j]
    {
      TrimHeadAt(ss, n, j);
      StretchOf(ns[j], ss[j], dats[j], offs[j], if j == w.0 then w.1 else 0);
    }
  }

  lemma CutHolds(ns: seq<Mbuf>, ss: Chain, n: nat, dats: seq<seq<byte>>, offs: seq<nat>)
    requires Was(ns, ss, dats, offs)
    requires forall j :: 0 <= j < |ns| ==> ns[j].len == |ss[j]| - WalkedLast(ss, n, j) && ns[j].off == offs[j]
    ensures Holds(ns, CutFirstFit(ss, n))
  {
    var rs := CutFirstFit(ss, n);
    forall j | 0 <= j < |ns|
      ensures ns[j].Fits() && ns[j].len == |rs[j]| && ns[j].Bytes() == rs[j]
    {
      CutFirstFitAt(ss, n, j);
      StretchOf(ns[j], ss[j], dats[j], offs[j], 0);
    }
  }

  lemma KeptHolds(ns: seq<Mbuf>, ss: Chain, n: nat, dats: seq<seq<byte>>, offs: seq<nat>)
    requires Was(ns, ss, dats, offs)
    requires forall j :: 0 <= j < |ns| ==> ns[j].len == Walked(ss, n, j) && ns[j].off == offs[j]
    ensures Holds(ns, Keep(ss, n))
  {
    var rs := Keep(ss, n);
    forall j | 0 <= j < |ns|
      ensures ns[j].Fits() && ns[j].len == |rs[j]| && ns[j].Bytes() == rs[j]
    {
      KeepAt(ss, n, j);
      StretchOf(ns[j], ss[j], dats[j], offs[j], 0);
    }
  }

  method TrimFront(m: Mbuf, n: nat, ghost ns: seq<Mbuf>, ghost ss: Chain)
    requires Linked(m, ns) && Holds(ns, ss)
    requires n <= Total(ss)
    modifies ns`len, ns`off
    ensures Holds(ns, TrimHead(ss, n))
  {
    ghost var dats, offs := Snapshot(ns, ss);
    WalkMeasures(ss, n);
    ghost var k, r := AdjHead(m, n, ns, ss);
    TrimmedHolds(ns, ss, n, dats, offs);
  }

  method CutFirst(m: Mbuf, n: nat, ghost ns: seq<Mbuf>, ghost ss: Chain)
    requires Linked(m, ns) && Holds(ns, ss)
    modifies ns`len
    ensures Holds(ns, CutFirstFit(ss, n))
  {
    ghost var dats, offs := Snapshot(ns, ss);
    CutTail(m, n, ns, ss);
    CutHolds(ns, ss, n, dats, offs);
  }

  method KeepFront(m: Mbuf, n: nat, ghost ns: seq<Mbuf>, ghost ss: Chain)
    requires Linked(m, ns) && Holds(ns, ss)
    modifies ns`len
    ensures Holds(ns, Keep(ss, n))
  {
    ghost var dats, offs := Snapshot(ns, ss);
    KeepHead(m, n, ns, ss);
    KeptHolds(ns, ss, n, dats, offs);
  }
}
