/** Strict total orders and the ascending enumeration of a finite set.  The containers of the
    config code (`std::map`, `std::set`) are iterated in ascending order; `Ascend` is that order. */
module Ordering {

  ghost predicate TotalOrder<T(!new)>(less: (T, T) -> bool) {
    && (forall x :: !less(x, x))
    && (forall x, y, z :: less(x, y) && less(y, z) ==> less(x, z))
    && (forall x, y :: less(x, y) || x == y || less(y, x))
  }

  ghost predicate Ascending<T>(xs: seq<T>, less: (T, T) -> bool) {
    forall i, j :: 0 <= i < j < |xs| ==> less(xs[i], xs[j])
  }

  predicate IsLeast<T>(m: T, s: set<T>, less: (T, T) -> bool) {
    m in s && forall x | x in s :: x == m || less(m, x)
  }

  lemma {:induction false} LeastExists<T(!new)>(s: set<T>, less: (T, T) -> bool)
    requires TotalOrder(less) && s != {}
    ensures exists m :: IsLeast(m, s, less)
  {
    var y :| y in s;
    if s == {y} {
      assert IsLeast(y, s, less);
    } else {
      LeastExists(s - {y}, less);
      var m :| IsLeast(m, s - {y}, less);
      assert IsLeast(if less(m, y) then m else y, s, less);
    }
  }

  function Least<T(!new)>(s: set<T>, less: (T, T) -> bool): (m: T)
    requires TotalOrder(less) && s != {}
    ensures IsLeast(m, s, less)
  {
    LeastExists(s, less);
    var m :| m in s && IsLeast(m, s, less);
    m
  }

  /** The elements of `s` in ascending order. */
  function Ascend<T(!new)>(s: set<T>, less: (T, T) -> bool): (xs: seq<T>)
    requires TotalOrder(less)
    ensures Ascending(xs, less)
    ensures forall x :: x in xs <==> x in s
  {
    if s == {} then []
    else
      var m := Least(s, less);
      var rest := Ascend(s - {m}, less);
      assert forall x :: x in [m] + rest <==> x in s;
      [m] + rest
  }

  /** An element below the first of an ascending sequence does not occur in it. */
  lemma BelowHead<T(!new)>(xs: seq<T>, less: (T, T) -> bool, i: nat, x: T)
    requires TotalOrder(less) && Ascending(xs, less)
    requires i < |xs| ==> less(x, xs[i])
    requires i <= |xs|
    ensures x !in xs[i..]
  {
    forall j | i <= j < |xs| ensures xs[j] != x {
      assert less(x, xs[j]);
    }
  }

  lemma HeadOccurs<T>(xs: seq<T>)
    requires xs != []
    ensures exists x :: x in xs
  {
    assert xs[0] in xs;
  }

  /** Two ascending sequences with the same elements are equal. */
  lemma {:induction false} AscendingUnique<T(!new)>(xs: seq<T>, ys: seq<T>, less: (T, T) -> bool)
    requires TotalOrder(less) && Ascending(xs, less) && Ascending(ys, less)
    requires forall x :: x in xs <==> x in ys
    ensures xs == ys
  {
    if xs == [] {
      if ys != [] {
        HeadOccurs(ys);
        assert false;
      }
    } else {
      assert xs[0] in ys && ys != [];
      assert ys[0] in xs;
      assert xs[0] == ys[0];
      forall x ensures x in xs[1..] <==> x in ys[1..] {
        assert x in xs[1..] ==> x in xs && x != xs[0];
        assert x in ys[1..] ==> x in ys && x != ys[0];
        assert x in xs ==> x == xs[0] || x in xs[1..];
        assert x in ys ==> x == ys[0] || x in ys[1..];
      }
      AscendingUnique(xs[1..], ys[1..], less);
    }
  }

  lemma AscendOf<T(!new)>(xs: seq<T>, s: set<T>, less: (T, T) -> bool)
    requires TotalOrder(less) && Ascending(xs, less)
    requires forall x :: x in xs <==> x in s
    ensures xs == Ascend(s, less)
  {
    AscendingUnique(xs, Ascend(s, less), less);
  }

  // ----- walking two ascending sequences in step

  /** Cursors `i` and `j` have passed the same common elements. */
  ghost predicate InStep<T>(xs: seq<T>, i: nat, ys: seq<T>, j: nat)
    requires i <= |xs| && j <= |ys|
  {
    && (forall x :: x in xs[..i] && x in ys ==> x in ys[..j])
    && (forall y :: y in ys[..j] && y in xs ==> y in xs[..i])
  }

  lemma Passed<T(!new)>(xs: seq<T>, i: nat, less: (T, T) -> bool)
    requires TotalOrder(less) && Ascending(xs, less) && i < |xs|
    ensures xs[i] in xs && xs[i] !in xs[..i]
    ensures forall x :: x in xs[..i + 1] <==> x in xs[..i] || x == xs[i]
  {
    assert xs[..i + 1] == xs[..i] + [xs[i]];
    forall j | 0 <= j < i ensures xs[j] != xs[i] {
      assert less(xs[j], xs[i]);
    }
  }

  /** The left cursor is on the smaller element: it occurs on the left only. */
  lemma StepLeft<T(!new)>(xs: seq<T>, i: nat, ys: seq<T>, j: nat, less: (T, T) -> bool)
    requires TotalOrder(less) && Ascending(xs, less) && Ascending(ys, less)
    requires i < |xs| && j <= |ys| && InStep(xs, i, ys, j)
    requires j == |ys| || less(xs[i], ys[j])
    ensures xs[i] in xs && xs[i] !in xs[..i] && xs[i] !in ys
    ensures forall x :: x in xs[..i + 1] <==> x in xs[..i] || x == xs[i]
    ensures InStep(xs, i + 1, ys, j)
  {
    Passed(xs, i, less);
    BelowHead(ys, less, j, xs[i]);
    assert ys == ys[..j] + ys[j..];
  }

  /** Both cursors are on the same element. */
  lemma StepBoth<T(!new)>(xs: seq<T>, i: nat, ys: seq<T>, j: nat, less: (T, T) -> bool)
    requires TotalOrder(less) && Ascending(xs, less) && Ascending(ys, less)
    requires i < |xs| && j < |ys| && InStep(xs, i, ys, j) && xs[i] == ys[j]
    ensures xs[i] in xs && xs[i] in ys && xs[i] !in xs[..i] && xs[i] !in ys[..j]
    ensures forall x :: x in xs[..i + 1] <==> x in xs[..i] || x == xs[i]
    ensures forall y :: y in ys[..j + 1] <==> y in ys[..j] || y == ys[j]
    ensures InStep(xs, i + 1, ys, j + 1)
  {
    Passed(xs, i, less);
    Passed(ys, j, less);
  }

  lemma TakeNext<T>(xs: seq<T>, i: nat)
    requires i < |xs|
    ensures xs[..i + 1] == xs[..i] + [xs[i]]
  {
  }

  /** Byte-string order, as `std::string` and `std::array` compare. */
  predicate KeyLess(a: string, b: string) {
    if b == [] then false
    else if a == [] then true
    else a[0] < b[0] || (a[0] == b[0] && KeyLess(a[1..], b[1..]))
  }

  /** `a` ends where `b` goes on, or has the smaller character where the two first differ. */
  ghost predicate FirstDifference(a: string, b: string) {
    exists i :: 0 <= i <= |a| && i < |b| && DifferAt(a, b, i)
  }

  ghost predicate DifferAt(a: string, b: string, i: nat)
    requires i <= |a| && i < |b|
  {
    a[..i] == b[..i] && (i == |a| || a[i] < b[i])
  }

  /** Byte strings are compared at their first difference. */
  lemma {:induction false} KeyLessExactly(a: string, b: string)
    ensures KeyLess(a, b) <==> FirstDifference(a, b)
  {
    if a == [] || b == [] || a[0] != b[0] {
      if a != [] && b != [] && a[0] < b[0] {
        assert DifferAt(a, b, 0);
      } else if a == [] && b != [] {
        assert DifferAt(a, b, 0);
      } else {
        forall i | 0 <= i <= |a| && i < |b| ensures !DifferAt(a, b, i) {
          assert i == 0 || (a[..i][0] == a[0] && b[..i][0] == b[0]);
        }
      }
    } else {
      KeyLessExactly(a[1..], b[1..]);
      if i :| 0 <= i <= |a[1..]| && i < |b[1..]| && DifferAt(a[1..], b[1..], i) {
        assert a[..i + 1] == [a[0]] + a[1..][..i] && b[..i + 1] == [b[0]] + b[1..][..i];
        assert DifferAt(a, b, i + 1);
      }
      if i :| 0 <= i <= |a| && i < |b| && DifferAt(a, b, i) {
        assert a[1..][..i - 1] == a[..i][1..] && b[1..][..i - 1] == b[..i][1..];
        assert DifferAt(a[1..], b[1..], i - 1);
      }
    }
  }

  lemma KeyLessIrreflexive(a: string)
    ensures !KeyLess(a, a)
  {
  }

  lemma KeyLessTransitive(a: string, b: string, c: string)
    requires KeyLess(a, b) && KeyLess(b, c)
    ensures KeyLess(a, c)
  {
  }

  lemma {:induction false} KeyLessConnected(a: string, b: string)
    ensures KeyLess(a, b) || a == b || KeyLess(b, a)
  {
    if a == [] || b == [] || a[0] != b[0] {
    } else {
      KeyLessConnected(a[1..], b[1..]);
      assert a == [a[0]] + a[1..] && b == [b[0]] + b[1..];
    }
  }

  lemma KeyOrder()
    ensures TotalOrder(KeyLess)
  {
    forall a ensures !KeyLess(a, a) { KeyLessIrreflexive(a); }
    forall a, b, c | KeyLess(a, b) && KeyLess(b, c) ensures KeyLess(a, c) { KeyLessTransitive(a, b, c); }
    forall a, b ensures KeyLess(a, b) || a == b || KeyLess(b, a) { KeyLessConnected(a, b); }
  }
}
