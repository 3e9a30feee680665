/** Small shared vocabulary: an optional value (Python's `None` or a value) and
    facts about finite sets that several solvers' termination arguments use. */
module Common {

  datatype Option<T> = None | Some(value: T)

  /** Python's `abs` on integers. */
  function Abs(x: int): nat {
    if x < 0 then -x else x
  }

  /** A subset is no larger than its superset. */
  lemma SubsetCard<T>(a: set<T>, b: set<T>)
    requires a <= b
    ensures |a| <= |b|
  {
    assert b == a + (b - a);
    assert a * (b - a) == {};
  }

  /** A proper subset is strictly smaller than its superset. */
  lemma ProperSubsetCard<T>(a: set<T>, b: set<T>)
    requires a < b
    ensures |a| < |b|
  {
    assert b == a + (b - a);
    assert a * (b - a) == {};
    assert b - a != {};
  }

  /** A set that is not empty has an element (lets `:|` pick one). */
  lemma NonEmptyHasElement(s: set<int>)
    requires s != {}
    ensures exists y :: y in s
  {
    assert (forall y :: y !in s) ==> s == {};
  }

  /** Concatenation regroups and ignores the empty sequence. */
  lemma Regroup<T>(a: seq<T>, b: seq<T>, c: seq<T>)
    ensures a + (b + c) == (a + b) + c
    ensures a + [] == a && [] + a == a
  {
  }

  /** Dropping the element at `i` (Python's `list.pop(i)`). */
  lemma Without<T>(s: seq<T>, i: nat)
    requires i < |s|
    ensures var r := s[..i] + s[i + 1..];
      && |r| == |s| - 1
      && multiset(r) == multiset(s) - multiset{s[i]}
      && forall k | 0 <= k < |r| :: r[k] == s[if k < i then k else k + 1]
  {
    assert s == s[..i] + [s[i]] + s[i + 1..];
  }

  /** The positions of `s` that hold 0 (an "empty" cell or an uncoloured vertex). */
  function ZeroSet(s: seq<int>): (z: set<nat>)
    ensures forall i | i in z :: i < |s| && s[i] == 0
    ensures forall i | 0 <= i < |s| && s[i] == 0 :: i in z
  {
    set i: nat | i < |s| && s[i] == 0
  }

  /** The least element of a non-empty set of integers (Python's `min` on a set). */
  method Min(s: set<int>) returns (x: int)
    requires s != {}
    ensures x in s
    ensures forall y | y in s :: x <= y
  {
    NonEmptyHasElement(s);
    x :| x in s;
    var rest := s - {x};
    while rest != {}
      invariant rest <= s && x in s
      invariant forall y | y in s && y !in rest :: x <= y
      decreases rest
    {
      NonEmptyHasElement(rest);
      var y :| y in rest;
      if y < x {
        x := y;
      }
      rest := rest - {y};
    }
  }
}
