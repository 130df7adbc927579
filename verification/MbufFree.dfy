/** Releasing chains: m_free and m_freem (kern/uipc_mbuf.c). */
module MbufFree {
  import opened Bytes
  import opened Pieces
  import opened Mbufs
  import MbufBuild

  /** What free() is called on. */
  datatype Freed = AnMbuf(m: Mbuf) | ABuffer(buf: Pointer)

  /** The calls of free(), in order. */
  class FreeLog {
    var freed: seq<Freed>

    constructor ()
      ensures freed == []
    {
      freed := [];
    }
  }

  /** An mbuf as the release routines see it. */
  datatype Item = Item(m: Mbuf, ext: bool, buf: Pointer)

  ghost function Items(ns: seq<Mbuf>): (r: seq<Item>)
    reads ns`ext, ns`extbuf
    ensures |r| == |ns|
    ensures forall i {:trigger r[i]} :: 0 <= i < |ns| ==> r[i] == Item(ns[i], ns[i].ext, ns[i].extbuf)
  {
    if ns == [] then [] else [Item(ns[0], ns[0].ext, ns[0].extbuf)] + Items(ns[1..])
  }

  function ReleaseOne(x: Item): seq<Freed> {
    (if x.ext then [ABuffer(x.buf)] else []) + [AnMbuf(x.m)]
  }

  /** Each mbuf once, and each external buffer once, before its mbuf. */
  function Releases(xs: seq<Item>): seq<Freed> {
    if xs == [] then [] else ReleaseOne(xs[0]) + Releases(xs[1..])
  }

  lemma {:induction false} ReleasesAppend(a: seq<Item>, b: seq<Item>)
    ensures Releases(a + b) == Releases(a) + Releases(b)
  {
    if a == [] {
      NoPart(b);
    } else {
      TailOfAppend(a, b);
      ReleasesAppend(a[1..], b);
      Assoc(ReleaseOne(a[0]), Releases(a[1..]), Releases(b));
    }
  }

  /** Where each mbuf of a chain is released: in the order of the chain, and its buffer, if it has one, right
      before it. */
  lemma ReleasedAt(xs: seq<Item>, k: nat)
    requires k < |xs|
    ensures var r, a := Releases(xs), |Releases(xs[..k])|;
            && (xs[k].ext ==> a + 2 <= |r| && r[a] == ABuffer(xs[k].buf) && r[a + 1] == AnMbuf(xs[k].m))
            && (!xs[k].ext ==> a + 1 <= |r| && r[a] == AnMbuf(xs[k].m))
            && |Releases(xs[..k + 1])| == a + if xs[k].ext then 2 else 1
  {
    SplitAt(xs, k);
    ReleasesAppend(xs[..k], [xs[k]] + xs[k + 1..]);
    assert ([xs[k]] + xs[k + 1..])[1..] == xs[k + 1..];
    assert xs[..k + 1] == xs[..k] + [xs[k]] && [xs[k]][1..] == [];
    ReleasesAppend(xs[..k], [xs[k]]);
  }

  /** What freeing the head again and again releases: as written, M_EXT is handed on to every later
      mbuf once it has been seen. */
  function ReleasesByOne(form: Form, xs: seq<Item>, handed: bool): seq<Freed> {
    if xs == [] then []
    else
      var x := xs[0].(ext := xs[0].ext || (form.AsWritten? && handed));
      ReleaseOne(x) + ReleasesByOne(form, xs[1..], x.ext)
  }

  lemma {:induction false} CountIn(xs: seq<Item>, f: Freed)
    ensures multiset(Releases(xs))[f] == Uses(xs, f)
  {
    if xs == [] {
    } else {
      CountIn(xs[1..], f);
      assert multiset(Releases(xs)) == multiset(ReleaseOne(xs[0])) + multiset(Releases(xs[1..]));
    }
  }

  /** How many mbufs of the chain are, or use, this. */
  function Uses(xs: seq<Item>, f: Freed): nat {
    if xs == [] then 0
    else (if f == AnMbuf(xs[0].m) || (xs[0].ext && f == ABuffer(xs[0].buf)) then 1 else 0) + Uses(xs[1..], f)
  }

  /** Distinct mbufs with distinct clusters. */
  predicate Separate(xs: seq<Item>) {
    forall i, j :: 0 <= i < j < |xs| ==> xs[i].m != xs[j].m && (xs[i].ext && xs[j].ext ==> xs[i].buf != xs[j].buf)
  }

  /** This is one of the mbufs, or the buffer of one. */
  predicate InSome(xs: seq<Item>, f: Freed) {
    exists i :: 0 <= i < |xs| && f in ReleaseOne(xs[i])
  }

  lemma InSomeStep(xs: seq<Item>, f: Freed)
    requires xs != []
    ensures InSome(xs, f) <==> f in ReleaseOne(xs[0]) || InSome(xs[1..], f)
  {
    if InSome(xs, f) {
      var i :| 0 <= i < |xs| && f in ReleaseOne(xs[i]);
      assert i > 0 ==> f in ReleaseOne(xs[1..][i - 1]);
    }
    if InSome(xs[1..], f) {
      var i :| 0 <= i < |xs[1..]| && f in ReleaseOne(xs[1..][i]);
      assert f in ReleaseOne(xs[i + 1]);
    }
  }

  lemma NotInTwo(xs: seq<Item>, f: Freed)
    requires Separate(xs) && xs != [] && f in ReleaseOne(xs[0])
    ensures !InSome(xs[1..], f)
  {
    forall i | 0 <= i < |xs[1..]|
      ensures f !in ReleaseOne(xs[1..][i])
    {
      assert xs[1..][i] == xs[i + 1];
    }
  }

  lemma {:induction false} UsedAtMostOnce(xs: seq<Item>, f: Freed)
    requires Separate(xs)
    ensures Uses(xs, f) == if InSome(xs, f) then 1 else 0
  {
    if xs == [] {
    } else {
      assert forall i :: 0 <= i < |xs| - 1 ==> xs[1..][i] == xs[i + 1];
      UsedAtMostOnce(xs[1..], f);
      InSomeStep(xs, f);
      if f in ReleaseOne(xs[0]) {
        NotInTwo(xs, f);
      }
    }
  }

  /** Over a chain of distinct mbufs with distinct clusters, each of them is released exactly once. */
  lemma ReleasedExactlyOnce(xs: seq<Item>, f: Freed)
    requires Separate(xs)
    ensures multiset(Releases(xs))[f] == if InSome(xs, f) then 1 else 0
  {
    CountIn(xs, f);
    UsedAtMostOnce(xs, f);
  }

  // ---------- m_freem and m_free ----------

  /** m_freem */
  method MFreem(m0: Mbuf?, log: FreeLog, ghost ns: seq<Mbuf>)
    requires Linked(m0, ns)
    modifies log
    ensures log.freed == old(log.freed) + Releases(Items(ns))
  {
    var m := m0;
    ghost var k, xs, f0 := 0, Items(ns), log.freed;
    ReleasedNone(xs, f0);
    while m != null
      invariant 0 <= k <= |ns| == |xs| && m == At(ns, k)
      invariant ReleasedTo(xs, k, f0, log.freed)
      decreases |ns| - k
    {
      assert xs[k] == Item(m, m.ext, m.extbuf);
      ReleasedMore(xs, k, f0, log.freed);
      var n := m.next;
      log.freed := log.freed + ((if m.ext then [ABuffer(m.extbuf)] else []) + [AnMbuf(m)]);
      m := n;
      k := k + 1;
    }
    ReleasedAll(xs, f0, log.freed);
  }

  /** After k mbufs of a chain, what has been released and what the others will add is all of it. */
  predicate ReleasedTo(xs: seq<Item>, k: nat, f0: seq<Freed>, f: seq<Freed>)
    requires k <= |xs|
  {
    f + Releases(xs[k..]) == f0 + Releases(xs)
  }

  lemma ReleasedNone(xs: seq<Item>, f0: seq<Freed>)
    ensures ReleasedTo(xs, 0, f0, f0)
  {
    assert xs[0..] == xs;
  }

  lemma ReleasedMore(xs: seq<Item>, k: nat, f0: seq<Freed>, f: seq<Freed>)
    requires k < |xs| && ReleasedTo(xs, k, f0, f)
    ensures ReleasedTo(xs, k + 1, f0, f + ReleaseOne(xs[k]))
  {
    assert xs[k..][1..] == xs[k + 1..];
    Assoc(f, ReleaseOne(xs[k]), Releases(xs[k + 1..]));
  }

  lemma ReleasedAll(xs: seq<Item>, f0: seq<Freed>, f: seq<Freed>)
    requires ReleasedTo(xs, |xs|, f0, f)
    ensures f == f0 + Releases(xs)
  {
    assert xs[|xs|..] == [] && f + [] == f;
  }

  // ---------- MFREE ----------

  /** What the macro MFREE releases.  As written, the external buffer only. */
  function MacroOne(form: Form, x: Item): seq<Freed> {
    if form.Repaired? then ReleaseOne(x) else if x.ext then [ABuffer(x.buf)] else []
  }

  function MacroReleases(form: Form, xs: seq<Item>): seq<Freed> {
    if xs == [] then [] else MacroOne(form, xs[0]) + MacroReleases(form, xs[1..])
  }

  /** MFREE on each mbuf of a chain releases the whole chain; as written, only when there is none. */
  lemma {:induction false} MacroReleasesAll(form: Form, xs: seq<Item>)
    ensures MacroReleases(form, xs) == Releases(xs) <==> form.Repaired? || xs == []
  {
    if form.AsWritten? {
      MacroReleasesFewer(xs);
    } else if xs != [] {
      MacroReleasesAll(form, xs[1..]);
    }
  }

  lemma {:induction false} MacroReleasesFewer(xs: seq<Item>)
    ensures |MacroReleases(AsWritten, xs)| + |xs| == |Releases(xs)|
  {
    if xs == [] {
    } else {
      MacroReleasesFewer(xs[1..]);
    }
  }

  /** MFREE: releases m and yields the next mbuf. */
  method MFreeMacro(form: Form, m: Mbuf, log: FreeLog) returns (n: Mbuf?)
    modifies log
    ensures n == m.next && log.freed == old(log.freed) + MacroOne(form, Item(m, m.ext, m.extbuf))
  {
    n := m.next;
    log.freed := log.freed + (if m.ext then [ABuffer(m.extbuf)] else []) + (if form.Repaired? then [AnMbuf(m)] else []);
  }

  /** MFREE of the k-th mbuf, and of those after it. */
  lemma MacroStep(form: Form, xs: seq<Item>, k: nat, done: seq<Freed>)
    requires k < |xs|
    ensures (done + MacroOne(form, xs[k])) + MacroReleases(form, xs[k + 1..]) == done + MacroReleases(form, xs[k..])
  {
    assert xs[k..][1..] == xs[k + 1..];
    Assoc(done, MacroOne(form, xs[k]), MacroReleases(form, xs[k + 1..]));
  }

  /** What m_free hands from an mbuf to the next one.  Repaired: all flags but M_EXT, which says where
      this mbuf's own data is. */
  method HandOn(form: Form, m: Mbuf, n: Mbuf)
    requires m != n
    modifies n`pkthdr, n`bcast, n`mcast, n`eor, n`ext, n`mtype, n`pktlen, n`rcvif
    ensures n.ext == (old(n.ext) || (form.AsWritten? && m.ext))
    ensures n.mtype == m.mtype && n.eor == (old(n.eor) || m.eor)
    ensures n.bcast == (old(n.bcast) || m.bcast) && n.mcast == (old(n.mcast) || m.mcast)
    ensures n.pkthdr == (old(n.pkthdr) || m.pkthdr)
    ensures n.pktlen == if m.pkthdr then m.pktlen - m.len else old(n.pktlen)
    ensures n.rcvif == m.rcvif
  {
    HandFlags(form, m, n);
    if m.pkthdr {
      n.pktlen := m.pktlen - m.len;
    }
    n.rcvif := m.rcvif;
  }

  /** m_type, and all flags but, repaired, M_EXT. */
  method HandFlags(form: Form, m: Mbuf, n: Mbuf)
    requires m != n
    modifies n`pkthdr, n`bcast, n`mcast, n`eor, n`ext, n`mtype
    ensures n.ext == (old(n.ext) || (form.AsWritten? && m.ext))
    ensures n.mtype == m.mtype && n.eor == (old(n.eor) || m.eor)
    ensures n.bcast == (old(n.bcast) || m.bcast) && n.mcast == (old(n.mcast) || m.mcast)
    ensures n.pkthdr == (old(n.pkthdr) || m.pkthdr)
  {
    n.mtype := m.mtype;
    n.eor := n.eor || m.eor;
    n.bcast := n.bcast || m.bcast;
    n.mcast := n.mcast || m.mcast;
    n.pkthdr := n.pkthdr || m.pkthdr;
    n.ext := n.ext || (form.AsWritten? && m.ext);
  }

  ghost function NextOf(m: Mbuf?): set<Mbuf>
    reads m
  {
    if m == null || m.next == null then {} else {m.next}
  }

  // The packet header lies over the beginning of the data area of a plain mbuf: m_pkthdr.len over its first
  // four bytes, and m_pkthdr.rcvif over the second eight.

  const RCVIF := 8

  type Int4 = s: seq<byte> | |s| == 4 witness [0, 0, 0, 0]
  type Pointer8 = s: seq<byte> | |s| == 8 witness [0, 0, 0, 0, 0, 0, 0, 0]

  /** How the two fields that m_free writes are represented in memory. */
  datatype Image = Image(len: Int4, rcvif: Pointer8)

  function Patched(dat: seq<byte>, at: nat, b: seq<byte>): (r: seq<byte>)
    ensures |r| == |dat|
  {
    if at + |b| <= |dat| then dat[..at] + b + dat[at + |b|..] else dat
  }

  /** The data area after m_free has written the header there: rcvif always, and the length when the mbuf
      before it was a packet header. */
  function Stamped(dat: seq<byte>, pkthdr: bool, image: Image): (r: seq<byte>)
    ensures |r| == |dat|
  {
    Patched(if pkthdr then Patched(dat, 0, image.len) else dat, RCVIF, image.rcvif)
  }

  /** What is then in the data area: the length in its first four bytes, when it is written, and rcvif in the
      second eight; each other byte is as it was. */
  lemma StampedBytes(dat: seq<byte>, pkthdr: bool, image: Image, i: nat)
    requires i < |dat| && |dat| >= 16
    ensures Stamped(dat, pkthdr, image)[i]
         == if i < 4 && pkthdr then image.len[i] else if 8 <= i < 16 then image.rcvif[i - 8] else dat[i]
  {
  }

  /** Whatever the header is, the data at this place is as it was. */
  ghost predicate Survives(dat: seq<byte>, pkthdr: bool, off: nat, len: nat)
    requires off + len <= |dat|
  {
    forall image: Image :: Stamped(dat, pkthdr, image)[off..off + len] == dat[off..off + len]
  }

  /** The data lies beside what is written. */
  predicate Beside(pkthdr: bool, off: nat, len: nat) {
    len == 0 || off >= PKTHDR || (off + len <= RCVIF && (pkthdr ==> off >= 4))
  }

  /** The bytes of a plain mbuf survive m_free of the mbuf before it exactly when they lie beside the header
      fields it writes. */
  lemma BytesSurvive(dat: seq<byte>, pkthdr: bool, off: nat, len: nat)
    requires off + len <= |dat| && |dat| >= PKTHDR
    ensures Survives(dat, pkthdr, off, len) <==> Beside(pkthdr, off, len)
  {
    if Beside(pkthdr, off, len) {
      forall image: Image
        ensures Stamped(dat, pkthdr, image)[off..off + len] == dat[off..off + len]
      {
        StampedBeside(dat, pkthdr, image, off, len);
      }
    } else {
      var p := if off < 4 && pkthdr then off else if off < RCVIF then RCVIF else off;
      var b: byte := if dat[p] == 0 then 1 else 0;
      var image := Image([b, b, b, b], [b, b, b, b, b, b, b, b]);
      StampedAt(dat, pkthdr, b, p);
      var s := Stamped(dat, pkthdr, image);
      assert s[off..off + len][p - off] == b && dat[off..off + len][p - off] == dat[p];
    }
  }

  lemma StampedBeside(dat: seq<byte>, pkthdr: bool, image: Image, off: nat, len: nat)
    requires off + len <= |dat| && |dat| >= PKTHDR && Beside(pkthdr, off, len)
    ensures Stamped(dat, pkthdr, image)[off..off + len] == dat[off..off + len]
  {
    if len == 0 {
    } else {
      var d := if pkthdr then Patched(dat, 0, image.len) else dat;
      PatchedBeside(d, RCVIF, image.rcvif, off, len);
      if pkthdr {
        PatchedBeside(dat, 0, image.len, off, len);
      }
    }
  }

  lemma PatchedBeside(dat: seq<byte>, at: nat, b: seq<byte>, off: nat, len: nat)
    requires off + len <= |dat| && (off + len <= at || at + |b| <= off)
    ensures Patched(dat, at, b)[off..off + len] == dat[off..off + len]
  {
    var r := Patched(dat, at, b);
    assert forall i :: off <= i < off + len ==> r[i] == dat[i];
  }

  /** A byte that is written. */
  lemma StampedAt(dat: seq<byte>, pkthdr: bool, b: byte, p: nat)
    requires |dat| >= PKTHDR && ((pkthdr && p < 4) || RCVIF <= p < PKTHDR)
    ensures Stamped(dat, pkthdr, Image([b, b, b, b], [b, b, b, b, b, b, b, b]))[p] == b
  {
    var four, eight := [b, b, b, b], [b, b, b, b, b, b, b, b];
    var d := if pkthdr then Patched(dat, 0, four) else dat;
    if p < 4 {
      assert d[p] == four[p];
    } else {
      assert Patched(d, RCVIF, eight)[p] == eight[p - RCVIF];
    }
  }

  /** m_free: releases m, and hands its type, flags, header length and receiving interface to the next mbuf.
      When that one has its data in its own area, the header is written over the beginning of the area. */
  method MFree(form: Form, m: Mbuf?, log: FreeLog, image: Image) returns (n: Mbuf?)
    requires m != null ==> m.next != m
    modifies log, NextOf(m)`pkthdr, NextOf(m)`bcast, NextOf(m)`mcast, NextOf(m)`eor, NextOf(m)`ext,
             NextOf(m)`mtype, NextOf(m)`pktlen, NextOf(m)`rcvif, NextOf(m)`dat
    ensures n == if m == null then null else m.next
    ensures log.freed == old(log.freed) + if m == null then [] else ReleaseOne(Item(m, m.ext, m.extbuf))
    ensures n != null ==>
              && n.ext == (old(n.ext) || (form.AsWritten? && m.ext))
              && n.mtype == m.mtype && n.eor == (old(n.eor) || m.eor)
              && n.bcast == (old(n.bcast) || m.bcast) && n.mcast == (old(n.mcast) || m.mcast)
              && n.pkthdr == (old(n.pkthdr) || m.pkthdr)
              && n.pktlen == (if m.pkthdr then m.pktlen - m.len else old(n.pktlen))
              && n.rcvif == m.rcvif
              && n.dat == if old(n.ext) then old(n.dat) else Stamped(old(n.dat), m.pkthdr, image)
  {
    n := null;
    if m == null {
      return;
    }
    log.freed := log.freed + (if m.ext then [ABuffer(m.extbuf)] else []);
    n := m.next;
    if n != null {
      Stamp(m, n, image);
      HandOn(form, m, n);
    }
    log.freed := log.freed + [AnMbuf(m)];
  }

  /** The header fields fall into the data area of n, unless its data is in a cluster. */
  method Stamp(m: Mbuf, n: Mbuf, image: Image)
    modifies n`dat
    ensures n.dat == if n.ext then old(n.dat) else Stamped(old(n.dat), m.pkthdr, image)
  {
    if !n.ext {
      n.dat := Stamped(n.dat, m.pkthdr, image);
    }
  }

  /** So the next mbuf keeps its bytes when they are in a cluster or lie beside the header fields. */
  method FreeKeepsBytes(form: Form, m: Mbuf, n: Mbuf, log: FreeLog, image: Image)
    requires m.next == n && m != n && n.Fits() && |n.dat| >= PKTHDR
    requires n.ext || Beside(m.pkthdr, n.off, n.len)
    modifies log, n
    ensures n.Fits() && n.Bytes() == old(n.Bytes())
  {
    if !n.ext {
      StampedBeside(n.dat, m.pkthdr, image, n.off, n.len);
    }
    var r := MFree(form, m, log, image);
  }

  /** Before the k-th release: the head is a packet header with the length that remains, and M_EXT has
      been handed to it or not. */
  ghost predicate FreeState(form: Form, m: Mbuf?, ns: seq<Mbuf>, lens: seq<nat>, xs: seq<Item>, k: nat,
                            handed: bool, rcvif: nat)
    reads ns
  {
    && |xs| == |lens| == |ns| && k <= |ns| && m == At(ns, k)
    && (forall i {:trigger ns[i].len} :: k <= i < |ns| ==> ns[i].len == lens[i])
    && (forall i {:trigger ns[i].extbuf} {:trigger xs[i].buf} :: k <= i < |ns| ==> ns[i].extbuf == xs[i].buf)
    && (forall i {:trigger xs[i].m} :: k <= i < |ns| ==> ns[i] == xs[i].m)
    && (forall i {:trigger ns[i].ext} :: k < i < |ns| ==> ns[i].ext == xs[i].ext)
    && (m != null ==>
          && m.ext == (xs[k].ext || (form.AsWritten? && handed))
          && m.pkthdr && m.pktlen == Sum(lens[k..]) && m.rcvif == rcvif)
  }

  /** What the first k heads were. */
  predicate HeadsWere(heads: seq<(int, nat)>, lens: seq<nat>, k: nat, rcvif: nat) {
    |heads| == k <= |lens| && forall i :: 0 <= i < k ==> heads[i] == (Sum(lens[i..]), rcvif)
  }

  method FreeTurn(form: Form, m: Mbuf, log: FreeLog, ghost ns: seq<Mbuf>, ghost lens: seq<nat>, ghost xs: seq<Item>,
                  ghost k: nat, ghost handed: bool, ghost rcvif: nat,
                  ghost goal: seq<Freed>, ghost heads: seq<(int, nat)>)
      returns (n: Mbuf?, ghost handed': bool, ghost heads': seq<(int, nat)>)
    requires Linked(At(ns, 0), ns) && FreeState(form, m, ns, lens, xs, k, handed, rcvif)
    requires log.freed + ReleasesByOne(form, xs[k..], handed) == goal && HeadsWere(heads, lens, k, rcvif)
    modifies log, ns`pkthdr, ns`bcast, ns`mcast, ns`eor, ns`ext, ns`mtype, ns`pktlen, ns`rcvif, ns`dat
    ensures Linked(At(ns, 0), ns) && k < |xs| && FreeState(form, n, ns, lens, xs, k + 1, handed', rcvif)
    ensures log.freed + ReleasesByOne(form, xs[k + 1..], handed') == goal && HeadsWere(heads', lens, k + 1, rcvif)
  {
    heads' := heads + [(m.pktlen, m.rcvif)];
    Unfold(form, xs, k, handed, log.freed);
    handed' := m.ext;
    assert m == ns[k] && m.len == lens[k];
    SumTail(lens, k);
    assert xs[k].m == m && xs[k].buf == m.extbuf;
    var image: Image := *;
    n := MFree(form, m, log, image);
  }

  lemma SumTail(ls: seq<nat>, k: nat)
    requires k < |ls|
    ensures Sum(ls[k..]) == ls[k] + Sum(ls[k + 1..])
  {
    assert ls[k..][1..] == ls[k + 1..];
  }

  /** Freeing the head again and again.  `heads` records the header length and receiving interface of
      each head in turn: at every step it is a packet header with the length that remains. */
  method FreeByOne(form: Form, m0: Mbuf?, log: FreeLog, ghost ns: seq<Mbuf>, ghost lens: seq<nat>)
      returns (ghost heads: seq<(int, nat)>)
    requires Linked(m0, ns) && |lens| == |ns| && forall i {:trigger ns[i].len} :: 0 <= i < |ns| ==> ns[i].len == lens[i]
    requires m0 != null ==> m0.pkthdr && m0.pktlen == Sum(lens)
    modifies log, ns`pkthdr, ns`bcast, ns`mcast, ns`eor, ns`ext, ns`mtype, ns`pktlen, ns`rcvif, ns`dat
    ensures log.freed == old(log.freed + ReleasesByOne(form, Items(ns), false))
    ensures |heads| == |ns| && forall k :: 0 <= k < |ns| ==> heads[k] == (Sum(lens[k..]), old(ns[0].rcvif))
  {
    var m := m0;
    ghost var k, handed, xs := 0, false, Items(ns);
    ghost var goal := log.freed + ReleasesByOne(form, xs, false);
    ghost var rcvif := if m0 == null then 0 else m0.rcvif;
    heads := [];
    FirstState(form, m0, ns, lens, rcvif);
    while m != null
      invariant FreeLoop(form, m0, m, ns, lens, xs, k, handed, rcvif, log, goal, heads)
      decreases |ns| - k
    {
      m, handed, heads := FreeTurn(form, m, log, ns, lens, xs, k, handed, rcvif, goal, heads);
      k := k + 1;
    }
    AllReleased(form, xs, k, handed, log.freed, goal);
  }

  ghost predicate FreeLoop(form: Form, m0: Mbuf?, m: Mbuf?, ns: seq<Mbuf>, lens: seq<nat>, xs: seq<Item>, k: nat,
                           handed: bool, rcvif: nat, log: FreeLog, goal: seq<Freed>, heads: seq<(int, nat)>)
    reads ns, log
  {
    && Linked(m0, ns) && FreeState(form, m, ns, lens, xs, k, handed, rcvif)
    && log.freed + ReleasesByOne(form, xs[k..], handed) == goal && HeadsWere(heads, lens, k, rcvif)
  }

  lemma FirstState(form: Form, m0: Mbuf?, ns: seq<Mbuf>, lens: seq<nat>, rcvif: nat)
    requires Linked(m0, ns) && |lens| == |ns| && forall i {:trigger ns[i].len} :: 0 <= i < |ns| ==> ns[i].len == lens[i]
    requires m0 != null ==> m0.pkthdr && m0.pktlen == Sum(lens) && m0.rcvif == rcvif
    ensures FreeState(form, m0, ns, lens, Items(ns), 0, false, rcvif) && Items(ns)[0..] == Items(ns)
  {
    assert lens[0..] == lens;
  }

  lemma AllReleased(form: Form, xs: seq<Item>, k: nat, handed: bool, f: seq<Freed>, goal: seq<Freed>)
    requires k == |xs| && f + ReleasesByOne(form, xs[k..], handed) == goal
    ensures f == goal
  {
    assert xs[k..] == [] && f + [] == f;
  }

  lemma Unfold(form: Form, xs: seq<Item>, k: nat, handed: bool, done: seq<Freed>)
    requires k < |xs|
    ensures var x := xs[k].(ext := xs[k].ext || (form.AsWritten? && handed));
            done + ReleasesByOne(form, xs[k..], handed) ==
            (done + ReleaseOne(x)) + ReleasesByOne(form, xs[k + 1..], x.ext)
  {
    var x := xs[k].(ext := xs[k].ext || (form.AsWritten? && handed));
    assert xs[k..][1..] == xs[k + 1..];
    Assoc(done, ReleaseOne(x), ReleasesByOne(form, xs[k + 1..], x.ext));
  }

  // ---------- as written against repaired ----------

  /** No mbuf without a cluster comes after one with a cluster. */
  predicate ClustersLast(xs: seq<Item>) {
    forall i, j :: 0 <= i < j < |xs| && xs[i].ext ==> xs[j].ext
  }

  lemma {:induction false} RepairedReleases(xs: seq<Item>, handed: bool)
    ensures ReleasesByOne(Repaired, xs, handed) == Releases(xs)
  {
    if xs == [] {
    } else {
      RepairedReleases(xs[1..], xs[0].ext);
      assert xs[0].(ext := xs[0].ext) == xs[0];
    }
  }

  lemma {:induction false} NeverFewer(xs: seq<Item>, handed: bool)
    ensures |ReleasesByOne(AsWritten, xs, handed)| >= |Releases(xs)|
    ensures handed ==> (|ReleasesByOne(AsWritten, xs, handed)| == |Releases(xs)|
                        <==> forall i :: 0 <= i < |xs| ==> xs[i].ext)
  {
    if xs == [] {
    } else {
      NeverFewer(xs[1..], xs[0].ext || handed);
      assert forall i :: 1 <= i < |xs| ==> xs[i] == xs[1..][i - 1];
    }
  }

  /** As written, freeing one by one releases what m_freem releases exactly when no mbuf without a
      cluster follows one with a cluster. */
  lemma {:induction false} FreeByOneAsWritten(xs: seq<Item>)
    ensures ReleasesByOne(AsWritten, xs, false) == Releases(xs) <==> ClustersLast(xs)
  {
    if xs == [] {
    } else {
      var rest := xs[1..];
      assert forall i :: 1 <= i < |xs| ==> xs[i] == rest[i - 1];
      if xs[0].ext {
        NeverFewer(rest, true);
        if forall i :: 0 <= i < |rest| ==> rest[i].ext {
          AllClusters(rest);
        }
      } else {
        FreeByOneAsWritten(rest);
        Cancel(ReleaseOne(xs[0]), ReleasesByOne(AsWritten, rest, false), Releases(rest));
      }
    }
  }

  lemma {:induction false} AllClusters(xs: seq<Item>)
    requires forall i :: 0 <= i < |xs| ==> xs[i].ext
    ensures ReleasesByOne(AsWritten, xs, true) == Releases(xs)
  {
    if xs == [] {
    } else {
      AllClusters(xs[1..]);
    }
  }

  // ---------- what m_devget allocates, m_freem releases ----------

  /** What was allocated for a chain, when the clusters were handed out from `first` on: each mbuf, and a
      cluster for each that has one. */
  function Allocated(xs: seq<Item>, first: nat): seq<Freed> {
    if xs == [] then []
    else (if xs[0].ext then [ABuffer(Address(first))] else []) + [AnMbuf(xs[0].m)]
         + Allocated(xs[1..], if xs[0].ext then first + 1 else first)
  }

  function ClustersOf(xs: seq<Item>): nat {
    if xs == [] then 0 else (if xs[0].ext then 1 else 0) + ClustersOf(xs[1..])
  }

  /** These are the clusters handed out, each once. */
  lemma {:induction false} AllocatedClusters(xs: seq<Item>, first: nat, addr: nat)
    ensures multiset(Allocated(xs, first))[ABuffer(Address(addr))]
         == if first <= addr < first + ClustersOf(xs) then 1 else 0
  {
    if xs == [] {
    } else {
      var next := if xs[0].ext then first + 1 else first;
      AllocatedClusters(xs[1..], next, addr);
      var one := (if xs[0].ext then [ABuffer(Address(first))] else []) + [AnMbuf(xs[0].m)];
      CountBoth(one, Allocated(xs[1..], next), ABuffer(Address(addr)));
    }
  }

  lemma CountBoth(a: seq<Freed>, b: seq<Freed>, f: Freed)
    ensures multiset(a + b)[f] == multiset(a)[f] + multiset(b)[f]
  {
  }

  /** ext_buf of each mbuf is what m_getclr made of the next cluster. */
  predicate Got(form: Form, xs: seq<Item>, first: nat) {
    xs == [] || ((xs[0].ext ==> xs[0].buf == MbufBuild.ClusterAt(form, first))
                 && Got(form, xs[1..], if xs[0].ext then first + 1 else first))
  }

  lemma {:induction false} ReleasesAllocated(xs: seq<Item>, first: nat)
    requires Got(Repaired, xs, first)
    ensures Releases(xs) == Allocated(xs, first)
  {
    if xs == [] {
    } else {
      ReleasesAllocated(xs[1..], if xs[0].ext then first + 1 else first);
    }
  }

  lemma UnsetOfOne(x: Item)
    requires x.ext ==> x.buf == Unset
    ensures multiset(ReleaseOne(x))[ABuffer(Unset)] == if x.ext then 1 else 0
  {
  }

  lemma {:induction false} ReleasesUnset(xs: seq<Item>, first: nat)
    requires Got(AsWritten, xs, first)
    ensures multiset(Releases(xs))[ABuffer(Unset)] == ClustersOf(xs)
  {
    if xs == [] {
    } else {
      UnsetOfOne(xs[0]);
      ReleasesUnset(xs[1..], if xs[0].ext then first + 1 else first);
      CountBoth(ReleaseOne(xs[0]), Releases(xs[1..]), ABuffer(Unset));
    }
  }

  lemma {:induction false} AllocatesNoneUnset(xs: seq<Item>, first: nat)
    ensures multiset(Allocated(xs, first))[ABuffer(Unset)] == 0
  {
    if xs == [] {
    } else {
      var next := if xs[0].ext then first + 1 else first;
      AllocatesNoneUnset(xs[1..], next);
      var one := (if xs[0].ext then [ABuffer(Address(first))] else []) + [AnMbuf(xs[0].m)];
      CountBoth(one, Allocated(xs[1..], next), ABuffer(Unset));
    }
  }

  lemma {:induction false} NoClusters(xs: seq<Item>, first: nat)
    requires ClustersOf(xs) == 0
    ensures Releases(xs) == Allocated(xs, first)
  {
    if xs == [] {
    } else {
      NoClusters(xs[1..], first);
    }
  }

  /** m_freem releases just what was allocated for a chain, each piece once: repaired, always; as written,
      exactly when no mbuf has a cluster. */
  lemma FreesWhatWasAllocated(form: Form, xs: seq<Item>, first: nat)
    requires Got(form, xs, first)
    ensures multiset(Releases(xs)) == multiset(Allocated(xs, first)) <==> form.Repaired? || ClustersOf(xs) == 0
  {
    if form.Repaired? {
      ReleasesAllocated(xs, first);
    } else if ClustersOf(xs) == 0 {
      NoClusters(xs, first);
    } else {
      ReleasesUnset(xs, first);
      AllocatesNoneUnset(xs, first);
    }
  }

  lemma {:induction false} AddedGot(form: Form, ns: seq<Mbuf>, n0: nat, cluster: bool, first: nat, next: nat, k: nat)
    requires MbufBuild.Added(form, ns, n0, cluster, first, next) && n0 <= k <= |ns|
    ensures var xs := Items(ns)[k..];
            && Got(form, xs, if cluster then first + k - n0 else first)
            && ClustersOf(xs) == if cluster then |ns| - k else 0
    decreases |ns| - k
  {
    if k == |ns| {
    } else {
      AddedGot(form, ns, n0, cluster, first, next, k + 1);
      assert Items(ns)[k..][1..] == Items(ns)[k + 1..];
      assert Items(ns)[k] == Item(ns[k], ns[k].ext, ns[k].extbuf);
    }
  }

  /** What is known of the chain of m_devget. */
  lemma DevgetGot(form: Form, ns: seq<Mbuf>, cluster: bool, first: nat, next: nat)
    requires ns != [] && !ns[0].ext && MbufBuild.Added(form, ns, 1, cluster, first, next)
    ensures Got(form, Items(ns), first) && next == first + ClustersOf(Items(ns))
    ensures ClustersOf(Items(ns)) == if cluster then |ns| - 1 else 0
  {
    AddedGot(form, ns, 1, cluster, first, next, 1);
    assert Items(ns)[0] == Item(ns[0], false, ns[0].extbuf);
  }

  /** m_devget and then m_freem: everything that was allocated is released, each piece once and nothing else:
      repaired, always; as written, exactly when the packet is too short for clusters. */
  method DevgetFreem(form: Form, buf: seq<byte>, len: nat, off: nat, pool: Clusters, log: FreeLog)
      returns (ghost all: seq<Freed>, ghost released: seq<Freed>, ghost xs: seq<Item>)
    requires off + len <= |buf|
    modifies pool, log
    ensures log.freed == old(log.freed) + released
    ensures all == Allocated(xs, old(pool.next)) && pool.next == old(pool.next) + ClustersOf(xs)
    ensures forall i :: 0 <= i < |xs| ==> fresh(xs[i].m)
    ensures multiset(released) == multiset(all) <==> form.Repaired? || len < MINCLSIZE
  {
    ghost var first, ns := pool.next, [];
    var m;
    m, ns, xs := DevgetItems(form, buf, len, off, pool);
    FreesWhatWasAllocated(form, xs, first);
    all, released := Allocated(xs, first), Releases(xs);
    MFreem(m, log, ns);
  }

  method DevgetItems(form: Form, buf: seq<byte>, len: nat, off: nat, pool: Clusters)
      returns (m: Mbuf, ghost ns: seq<Mbuf>, ghost xs: seq<Item>)
    requires off + len <= |buf|
    modifies pool
    ensures Linked(m, ns) && xs == Items(ns) && Got(form, xs, old(pool.next))
    ensures pool.next == old(pool.next) + ClustersOf(xs) && (ClustersOf(xs) == 0 <==> len < MINCLSIZE)
    ensures forall i :: 0 <= i < |xs| ==> fresh(xs[i].m)
  {
    ghost var ss;
    ghost var first := pool.next;
    m, ns, ss := MbufBuild.MDevget(form, buf, len, off, pool);
    xs := Items(ns);
    DevgetGot(form, ns, len >= MINCLSIZE, first, pool.next);
    assert len >= MINCLSIZE ==> |ss| >= 2;
  }
}
