/** Stepping through all multicast records: a list of lists walked by two macros (netinet/in_var.h). */
module Multicast {
  import opened Bytes

  /** struct in_multi */
  class InMulti {
    const next: InMulti?

    constructor (next: InMulti?)
      ensures this.next == next
    {
      this.next := next;
    }
  }

  /** struct in_ifaddr */
  class InIfaddr {
    const next: InIfaddr?  // ia_next
    const multi: InMulti?  // ia_multiaddrs

    constructor (next: InIfaddr?, multi: InMulti?)
      ensures this.next == next && this.multi == multi
    {
      this.next, this.multi := next, multi;
    }
  }

  /** The records from m on. */
  predicate Records(m: InMulti?, ms: seq<InMulti>) {
    if ms == [] then m == null else m == ms[0] && Records(ms[0].next, ms[1..])
  }

  /** The addresses from ia on have these lists of records. */
  predicate Addresses(ia: InIfaddr?, lists: seq<seq<InMulti>>)
    decreases |lists|
  {
    if lists == [] then ia == null
    else ia != null && Records(ia.multi, lists[0]) && Addresses(ia.next, lists[1..])
  }

  /** struct in_multistep */
  class InMultistep {
    var ia: InIfaddr?
    var inm: InMulti?

    constructor ()
      ensures ia == null && inm == null
    {
      ia, inm := null, null;
    }

    /** What is still to come: the rest of a list, and the lists after it. */
    ghost predicate ToCome(rest: seq<InMulti>, lists: seq<seq<InMulti>>)
      reads this
    {
      Records(inm, rest) && Addresses(ia, lists)
    }

    /** IN_NEXT_MULTI */
    method Next(ghost rest0: seq<InMulti>, ghost lists0: seq<seq<InMulti>>)
        returns (m: InMulti?, ghost rest: seq<InMulti>, ghost lists: seq<seq<InMulti>>)
      requires ToCome(rest0, lists0)
      modifies this
      ensures ToCome(rest, lists)
      ensures if m == null then rest0 + Concat(lists0) == [] && rest + Concat(lists) == []
              else rest0 + Concat(lists0) == [m] + (rest + Concat(lists))
    {
      rest, lists := rest0, lists0;
      m := inm;
      if m != null {
        inm := m.next;
        rest := rest0[1..];
        assert rest0 == [m] + rest;
      } else {
        assert rest0 == [];
        while ia != null
          invariant m == null && inm == null && rest == []
          invariant Addresses(ia, lists)
          invariant Concat(lists) == Concat(lists0)
          decreases |lists|
        {
          m := ia.multi;
          ia := ia.next;
          ghost var first := lists[0];
          lists := lists[1..];
          if m != null {
            inm := m.next;
            rest := first[1..];
            assert Concat(lists0) == [m] + (rest + Concat(lists));
            break;
          }
          assert [] + Concat(lists) == Concat(lists);
        }
      }
    }

    /** IN_FIRST_MULTI.  (The macro as written lacks a closing parenthesis, in_var.h:162.) */
    method First(inIfaddr: InIfaddr?, ghost lists0: seq<seq<InMulti>>)
        returns (m: InMulti?, ghost rest: seq<InMulti>, ghost lists: seq<seq<InMulti>>)
      requires Addresses(inIfaddr, lists0)
      modifies this
      ensures ToCome(rest, lists)
      ensures if m == null then Concat(lists0) == [] && rest + Concat(lists) == []
              else Concat(lists0) == [m] + (rest + Concat(lists))
    {
      ia := inIfaddr;
      inm := null;
      assert [] + Concat(lists0) == Concat(lists0);
      m, rest, lists := Next([], lists0);
    }
  }

  /** The use the macros are made for visits all records of all addresses, in order, and ends. */
  method VisitAll(inIfaddr: InIfaddr?, ghost lists0: seq<seq<InMulti>>) returns (visited: seq<InMulti>)
    requires Addresses(inIfaddr, lists0)
    ensures visited == Concat(lists0)
  {
    var step := new InMultistep();
    visited := [];
    var m;
    ghost var rest, lists;
    m, rest, lists := step.First(inIfaddr, lists0);
    ghost var left := rest + Concat(lists);
    while m != null
      invariant step.ToCome(rest, lists) && left == rest + Concat(lists)
      invariant Concat(lists0) == if m == null then visited else visited + ([m] + left)
      invariant m == null ==> left == []
      decreases |left|, m != null
    {
      Assoc(visited, [m], left);
      visited := visited + [m];
      m, rest, lists := step.Next(rest, lists);
      left := rest + Concat(lists);
      assert visited + [] == visited;
    }
  }

  /** When no record is in two lists or twice in one, it is visited once. */
  predicate Disjoint(lists: seq<seq<InMulti>>) {
    && (forall i, j, k :: 0 <= i < |lists| && 0 <= j < k < |lists[i]| ==> lists[i][j] != lists[i][k])
    && (forall i, j :: 0 <= i < j < |lists| ==> forall x <- lists[i] :: x !in lists[j])
  }

  lemma {:induction false} InSome(lists: seq<seq<InMulti>>, x: InMulti)
    ensures x in Concat(lists) <==> exists i :: 0 <= i < |lists| && x in lists[i]
  {
    if lists == [] {
    } else {
      InSome(lists[1..], x);
      if exists i :: 0 <= i < |lists| && x in lists[i] {
        var i :| 0 <= i < |lists| && x in lists[i];
        assert i > 0 ==> lists[i] == lists[1..][i - 1];
      }
      if exists i :: 0 <= i < |lists[1..]| && x in lists[1..][i] {
        var i :| 0 <= i < |lists[1..]| && x in lists[1..][i];
        assert lists[i + 1] == lists[1..][i];
      }
    }
  }

  lemma {:induction false} VisitedOnce(lists: seq<seq<InMulti>>)
    requires Disjoint(lists)
    ensures var v := Concat(lists); forall i, j :: 0 <= i < j < |v| ==> v[i] != v[j]
  {
    if lists == [] {
    } else {
      assert Disjoint(lists[1..]);
      VisitedOnce(lists[1..]);
      forall x | x in lists[0]
        ensures x !in Concat(lists[1..])
      {
        InSome(lists[1..], x);
      }
      var v, a, b := Concat(lists), lists[0], Concat(lists[1..]);
      forall i, j | 0 <= i < j < |v|
        ensures v[i] != v[j]
      {
        if i < |a| <= j {
          assert v[i] in a && v[j] == b[j - |a|] && v[j] in b;
        } else if i < |a| {
          assert v[i] == a[i] && v[j] == a[j];
        } else {
          assert v[i] == b[i - |a|] && v[j] == b[j - |a|];
        }
      }
    }
  }
}
