/** The orders the encoder sorts by, and `sorted(...)` of a set of keys. */
module Ordering {

  ghost predicate IsTotalOrder<T(!new)>(le: (T, T) -> bool) {
    (forall a :: le(a, a)) &&
    (forall a, b :: le(a, b) && le(b, a) ==> a == b) &&
    (forall a, b, c :: le(a, b) && le(b, c) ==> le(a, c)) &&
    (forall a, b :: le(a, b) || le(b, a))
  }

  /** Numeric order of vertex indices. */
  function NatLe(a: nat, b: nat): bool {
    a <= b
  }

  /** Python's order on `str`: code point by code point, a proper prefix first. */
  function LexLe(a: string, b: string): bool {
    if a == [] then true
    else if b == [] then false
    else if a[0] != b[0] then a[0] < b[0]
    else LexLe(a[1..], b[1..])
  }

  lemma NatLeIsTotalOrder()
    ensures IsTotalOrder(NatLe)
  {
  }

  lemma {:induction false} LexLeAntisymmetric(a: string, b: string)
    requires LexLe(a, b) && LexLe(b, a)
    ensures a == b
  {
    if a != [] && b != [] {
      LexLeAntisymmetric(a[1..], b[1..]);
      assert a == [a[0]] + a[1..] && b == [b[0]] + b[1..];
    }
  }

  lemma {:induction false} LexLeTransitive(a: string, b: string, c: string)
    requires LexLe(a, b) && LexLe(b, c)
    ensures LexLe(a, c)
  {
    if a != [] && b != [] && c != [] && a[0] == b[0] == c[0] {
      LexLeTransitive(a[1..], b[1..], c[1..]);
    }
  }

  lemma {:induction false} LexLeTotal(a: string, b: string)
    ensures LexLe(a, b) || LexLe(b, a)
  {
    if a != [] && b != [] && a[0] == b[0] {
      LexLeTotal(a[1..], b[1..]);
    }
  }

  lemma {:induction false} LexLeReflexive(a: string)
    ensures LexLe(a, a)
  {
    if a != [] {
      LexLeReflexive(a[1..]);
    }
  }

  lemma LexLeIsTotalOrder()
    ensures IsTotalOrder(LexLe)
  {
    forall a ensures LexLe(a, a) {
      LexLeReflexive(a);
    }
    forall a, b | LexLe(a, b) && LexLe(b, a) ensures a == b {
      LexLeAntisymmetric(a, b);
    }
    forall a, b, c | LexLe(a, b) && LexLe(b, c) ensures LexLe(a, c) {
      LexLeTransitive(a, b, c);
    }
    forall a, b ensures LexLe(a, b) || LexLe(b, a) {
      LexLeTotal(a, b);
    }
  }

  predicate IsLeast<T>(m: T, s: set<T>, le: (T, T) -> bool) {
    m in s && forall x :: x in s ==> le(m, x)
  }

  lemma {:induction false} LeastExists<T(!new)>(s: set<T>, le: (T, T) -> bool)
    requires IsTotalOrder(le) && s != {}
    ensures exists m :: IsLeast(m, s, le)
    decreases s
  {
    var x :| x in s;
    if s != {x} {
      LeastExists(s - {x}, le);
      var m :| IsLeast(m, s - {x}, le);
      if le(x, m) {
        assert IsLeast(x, s, le);
      } else {
        assert IsLeast(m, s, le);
      }
    } else {
      assert IsLeast(x, s, le);
    }
  }

  /** Strictly ascending under `le`. */
  ghost predicate Ascending<T>(r: seq<T>, le: (T, T) -> bool) {
    forall i, j :: 0 <= i < j < |r| ==> le(r[i], r[j]) && r[i] != r[j]
  }

  /** `sorted(s)`: the elements of a set, each once, in ascending order. */
  function SortedSet<T(==,!new)>(s: set<T>, le: (T, T) -> bool): (r: seq<T>)
    requires IsTotalOrder(le)
    ensures |r| == |s|
    ensures forall x :: x in r <==> x in s
    ensures Ascending(r, le)
    decreases s
  {
    if s == {} then []
    else
      LeastExists(s, le);
      var m :| IsLeast(m, s, le);
      [m] + SortedSet(s - {m}, le)
  }
}
