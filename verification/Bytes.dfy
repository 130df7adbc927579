/** Shared vocabulary: bytes, optional values, and the two readings of a faulty passage. */
module Bytes {
  type byte = x: int | 0 <= x < 256

  /** The size of a cluster. */
  const MCLBYTES := 2048

  datatype Option<+T> = None | Some(value: T)

  /** Some passages of the source depart from what their own surroundings say they are for.
      `AsWritten` follows the text of the source; `Repaired` follows its evident intent.
      The few places where the two differ are marked in the code that takes a `Form`. */
  datatype Form = AsWritten | Repaired

  function Min(a: int, b: int): int {
    if a < b then a else b
  }

  /** The flat byte sequence that a list of pieces stands for. */
  function Concat<T>(ss: seq<seq<T>>): seq<T> {
    if ss == [] then [] else ss[0] + Concat(ss[1..])
  }

  lemma ConcatAppend<T>(a: seq<seq<T>>, b: seq<seq<T>>)
    ensures Concat(a + b) == Concat(a) + Concat(b)
  {
    if a == [] {
      assert a + b == b;
    } else {
      assert (a + b)[1..] == a[1..] + b;
      ConcatAppend(a[1..], b);
    }
  }

  lemma ConcatCons<T>(a: seq<T>, ss: seq<seq<T>>)
    ensures Concat([a] + ss) == a + Concat(ss)
  {
    assert ([a] + ss)[1..] == ss;
  }

  lemma ConcatOne<T>(s: seq<T>)
    ensures Concat([s]) == s
  {
    assert [s][1..] == [];
  }

  lemma Assoc<T>(a: seq<T>, b: seq<T>, c: seq<T>)
    ensures (a + b) + c == a + (b + c)
  {
  }

  lemma Cancel<T>(a: seq<T>, b: seq<T>, c: seq<T>)
    ensures a + b == a + c <==> b == c
  {
    assert (a + b)[|a|..] == b && (a + c)[|a|..] == c;
  }

  lemma SliceOfSlice<T>(s: seq<T>, a: nat, b: nat, c: nat, d: nat)
    requires a <= b <= |s| && c <= d <= b - a
    ensures s[a..b][c..d] == s[a + c..a + d]
  {
    var x, y := s[a..b][c..d], s[a + c..a + d];
    assert forall i :: 0 <= i < d - c ==> x[i] == s[a..b][c + i] == s[a + c + i] == y[i];
  }

  lemma SplitAt<T>(s: seq<T>, k: nat)
    requires k < |s|
    ensures s == s[..k] + ([s[k]] + s[k + 1..])
  {
  }

  lemma SliceSplit<T>(s: seq<T>, a: nat, b: nat, c: nat)
    requires a <= b <= c <= |s|
    ensures s[a..c] == s[a..b] + s[b..c]
  {
  }

  lemma TailOfAppend<T>(a: seq<T>, b: seq<T>)
    requires a != []
    ensures (a + b)[0] == a[0] && (a + b)[1..] == a[1..] + b
  {
  }

  lemma FirstOfParts<T>(s: seq<T>, k: nat)
    requires k < |s|
    ensures s[..k + 1] == [s[0]] + s[1..][..k] && s[k + 1..] == s[1..][k..]
  {
  }

  lemma PartsJoin<T>(s: seq<T>, k: nat)
    requires k <= |s|
    ensures s[..k] + s[k..] == s
  {
  }

  lemma NoPart<T>(s: seq<T>)
    ensures s[..0] == [] && s[0..] == s && [] + s == s
  {
  }
}
