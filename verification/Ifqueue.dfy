/** The interface queue of net/if.h: a list of packets linked through m_nextpkt, with a tail pointer that
    is stale whenever the queue is empty. */
module Ifqueues {
  import opened Mbufs

  const IFQ_MAXLEN := 50

  class Ifqueue {
    var head: Mbuf?
    var tail: Mbuf?
    var len: nat
    var maxlen: nat
    var drops: nat
    ghost var contents: seq<Mbuf>

    constructor (maxlen: nat)
      ensures Valid() && contents == [] && this.maxlen == maxlen && drops == 0
    {
      head, tail, len, drops := null, null, 0, 0;
      this.maxlen := maxlen;
      contents := [];
    }

    /** The links describe the contents; nothing is said of a tail when the queue is empty, nor of the
        m_nextpkt of an mbuf that is not in the queue. */
    ghost predicate Valid()
      reads this, contents`nextpkt
    {
      && len == |contents|
      && head == At(contents, 0)
      && (len > 0 ==> tail == contents[len - 1])
      && (forall i {:trigger contents[i].nextpkt} :: 0 <= i < |contents| ==> contents[i].nextpkt == At(contents, i + 1))
      && (forall i, j :: 0 <= i < j < |contents| ==> contents[i] != contents[j])
    }

    /** IF_QFULL */
    predicate Full()
      reads this`len, this`maxlen
    {
      len >= maxlen
    }

    /** IF_DROP */
    method Drop()
      modifies this`drops
      ensures drops == old(drops) + 1
    {
      drops := drops + 1;
    }

    /** IF_ENQUEUE of an mbuf that is not queued here, whatever its m_nextpkt is left at. */
    method Enqueue(m: Mbuf)
      requires Valid() && m !in contents
      modifies this, contents`nextpkt, m`nextpkt
      ensures maxlen == old(maxlen) && drops == old(drops)
      ensures Valid() && contents == old(contents) + [m]
    {
      if len == 0 {
        m.nextpkt := null;
        head := m;
      } else {
        m.nextpkt := tail.nextpkt;
        tail.nextpkt := m;
      }
      tail := m;
      len := len + 1;
      contents := contents + [m];
    }

    /** IF_PREPEND */
    method Prepend(m: Mbuf)
      requires Valid() && m !in contents
      modifies this, contents`nextpkt, m`nextpkt
      ensures maxlen == old(maxlen) && drops == old(drops)
      ensures Valid() && contents == [m] + old(contents)
    {
      if head == null {
        Enqueue(m);
        assert contents == [m] + [];
      } else {
        m.nextpkt := head;
        head := m;
        len := len + 1;
        contents := [m] + contents;
      }
    }

    /** IF_DEQUEUE.  The mbuf handed out keeps its m_nextpkt, and tail keeps pointing to it if it was
        the last. */
    method Dequeue() returns (m: Mbuf?)
      requires Valid()
      modifies this
      ensures maxlen == old(maxlen) && drops == old(drops)
      ensures Valid()
      ensures if old(contents) == [] then m == null && contents == []
              else m == old(contents)[0] && contents == old(contents)[1..]
    {
      m := null;
      if len > 0 {
        m := head;
        head := head.nextpkt;
        len := len - 1;
        contents := contents[1..];
      }
    }

    /** "The queue is empty" and "the head is null" are the same. */
    lemma HeadIsNullIffEmpty()
      requires Valid()
      ensures head == null <==> len == 0
    {
    }
  }

  // ---------- whole runs ----------

  datatype Op = Enq(m: Mbuf) | Prep(m: Mbuf) | Deq

  /** What one operation makes of the sequence of packets. */
  function Apply(s: seq<Mbuf>, op: Op): seq<Mbuf> {
    match op
    case Enq(m) => s + [m]
    case Prep(m) => [m] + s
    case Deq => if s == [] then [] else s[1..]
  }

  /** The packet an operation hands out. */
  function Out(s: seq<Mbuf>, op: Op): seq<Mbuf> {
    if op.Deq? && s != [] then [s[0]] else []
  }

  function ApplyAll(s: seq<Mbuf>, ops: seq<Op>): seq<Mbuf>
    decreases |ops|
  {
    if ops == [] then s else ApplyAll(Apply(s, ops[0]), ops[1..])
  }

  function OutAll(s: seq<Mbuf>, ops: seq<Op>): seq<Mbuf>
    decreases |ops|
  {
    if ops == [] then [] else Out(s, ops[0]) + OutAll(Apply(s, ops[0]), ops[1..])
  }

  /** No operation puts in an mbuf that is queued at that time; putting one in again after it was taken
      out is allowed. */
  predicate Allowed(s: seq<Mbuf>, ops: seq<Op>)
    decreases |ops|
  {
    ops != [] ==> (ops[0].Deq? || ops[0].m !in s) && Allowed(Apply(s, ops[0]), ops[1..])
  }

  /** Any run of operations on the linked queue is the same run on a sequence. */
  method RunAll(q: Ifqueue, ops: seq<Op>) returns (got: seq<Mbuf>)
    requires q.Valid() && Allowed(q.contents, ops)
    modifies q, q.contents`nextpkt, (set op | op in ops && !op.Deq? :: op.m)`nextpkt
    ensures q.Valid() && q.contents == ApplyAll(old(q.contents), ops)
    ensures got == OutAll(old(q.contents), ops)
    ensures q.maxlen == old(q.maxlen) && q.drops == old(q.drops)
  {
    got := [];
    if ops != [] {
      ghost var s := q.contents;
      var op := ops[0];
      match op {
        case Enq(m) =>
          q.Enqueue(m);
        case Prep(m) =>
          q.Prepend(m);
        case Deq =>
          var m := q.Dequeue();
          if m != null {
            got := [m];
          }
      }
      var more := RunAll(q, ops[1..]);
      got := got + more;
    }
  }

  /** The packets put in by a run. */
  function PutIn(ops: seq<Op>): seq<Mbuf> {
    if ops == [] then [] else (if ops[0].Deq? then [] else [ops[0].m]) + PutIn(ops[1..])
  }

  /** Nothing is lost and nothing is made: the packets that were there or were put in are those that were
      handed out or are left. */
  lemma {:induction false} RunConserves(s: seq<Mbuf>, ops: seq<Op>)
    ensures multiset(s) + multiset(PutIn(ops)) == multiset(OutAll(s, ops)) + multiset(ApplyAll(s, ops))
    decreases |ops|
  {
    if ops == [] {
    } else {
      var t, put := Apply(s, ops[0]), if ops[0].Deq? then [] else [ops[0].m];
      RunConserves(t, ops[1..]);
      StepConserves(s, ops[0]);
      Balanced(multiset(s), multiset(put), multiset(PutIn(ops[1..])), multiset(Out(s, ops[0])),
               multiset(OutAll(t, ops[1..])), multiset(t), multiset(ApplyAll(s, ops)));
    }
  }

  lemma Balanced<T>(s: multiset<T>, p: multiset<T>, ps: multiset<T>, o: multiset<T>, os: multiset<T>,
                    t: multiset<T>, u: multiset<T>)
    requires s + p == o + t && t + ps == os + u
    ensures s + (p + ps) == (o + os) + u
  {
    assert s + (p + ps) == (s + p) + ps && (o + t) + ps == o + (t + ps) && o + (os + u) == (o + os) + u;
  }

  lemma StepConserves(s: seq<Mbuf>, op: Op)
    ensures multiset(s) + multiset(if op.Deq? then [] else [op.m]) == multiset(Out(s, op)) + multiset(Apply(s, op))
  {
    if op.Deq? && s != [] {
      assert s == [s[0]] + s[1..];
    }
  }

  /** Without IF_PREPEND, packets come out in the order they went in. */
  lemma {:induction false} RunIsFifo(s: seq<Mbuf>, ops: seq<Op>)
    requires forall i :: 0 <= i < |ops| ==> !ops[i].Prep?
    ensures OutAll(s, ops) + ApplyAll(s, ops) == s + PutIn(ops)
    decreases |ops|
  {
    if ops == [] {
      assert s + [] == s;
    } else {
      var t := Apply(s, ops[0]);
      RunIsFifo(t, ops[1..]);
      var put := if ops[0].Deq? then [] else [ops[0].m];
      assert Out(s, ops[0]) + t == s + put;
      Chain(Out(s, ops[0]), OutAll(t, ops[1..]), ApplyAll(t, ops[1..]), t, s, put, PutIn(ops[1..]));
    }
  }

  lemma Chain<T>(out: seq<T>, more: seq<T>, left: seq<T>, t: seq<T>, s: seq<T>, put: seq<T>, later: seq<T>)
    requires out + t == s + put && more + left == t + later
    ensures (out + more) + left == s + (put + later)
  {
    assert (out + more) + left == out + (more + left);
    assert out + (t + later) == (out + t) + later;
    assert (s + put) + later == s + (put + later);
  }
}
