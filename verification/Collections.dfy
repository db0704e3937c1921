/** Optional values and two facts about finite collections, shared by several components. */
module Collections {
  datatype Option<T> = None | Some(value: T)

  /** The sequence with the element at one position taken out. */
  function Without<T>(s: seq<T>, k: nat): (r: seq<T>)
    requires k < |s|
    ensures |r| == |s| - 1 && forall l :: 0 <= l < |r| ==> r[l] == if l < k then s[l] else s[l + 1]
  {
    s[..k] + s[k + 1..]
  }

  /** The elements other than `x`, in order. */
  function Minus<T(==)>(s: seq<T>, x: T): seq<T> {
    if s == [] then [] else Minus(s[..|s| - 1], x) + if s[|s| - 1] == x then [] else [s[|s| - 1]]
  }

  lemma {:induction false} MinusMeans<T>(s: seq<T>, x: T, y: T)
    ensures y in Minus(s, x) <==> y in s && y != x
  {
    if s != [] {
      assert s == s[..|s| - 1] + [s[|s| - 1]];
      MinusMeans(s[..|s| - 1], x, y);
    }
  }

  lemma {:induction false} MinusAbsent<T>(s: seq<T>, x: T)
    requires x !in s
    ensures Minus(s, x) == s
  {
    if s != [] {
      assert s == s[..|s| - 1] + [s[|s| - 1]];
      MinusAbsent(s[..|s| - 1], x);
    }
  }

  /** Where nothing occurs twice, taking out an element is taking out its position. */
  lemma {:induction false} MinusAt<T>(s: seq<T>, k: nat)
    requires k < |s| && forall i, j :: 0 <= i < j < |s| ==> s[i] != s[j]
    ensures Minus(s, s[k]) == Without(s, k)
  {
    var d := s[..|s| - 1];
    if k == |s| - 1 {
      MinusAbsent(d, s[k]);
      assert Without(s, k) == d;
    } else {
      MinusAt(d, k);
      assert d[k] == s[k];
      assert Without(s, k) == Without(d, k) + [s[|s| - 1]];
    }
  }

  /** A subset is no larger, and as large only if it is everything. */
  lemma {:induction false} SubsetSize<T>(a: set<T>, b: set<T>)
    requires a <= b
    ensures |a| <= |b| && (|a| == |b| ==> a == b)
  {
    if a != {} {
      var x :| x in a;
      SubsetSize(a - {x}, b - {x});
    }
  }
}
