/**
 Sorting by a comparison, one insertion at a time. `before` is the comparison a Go
 program hands to `sort.Slice`.
 */
module Sorting {
  function Insert<T(!new)>(x: T, xs: seq<T>, before: (T, T) -> bool): (r: seq<T>)
    ensures multiset(r) == multiset{x} + multiset(xs)
  {
    if xs == [] then [x]
    else if before(xs[0], x) then
      assert xs == [xs[0]] + xs[1..];
      [xs[0]] + Insert(x, xs[1..], before)
    else [x] + xs
  }

  function Sort<T(!new)>(xs: seq<T>, before: (T, T) -> bool): (r: seq<T>)
    ensures multiset(r) == multiset(xs)
  {
    if xs == [] then []
    else
      assert xs == [xs[0]] + xs[1..];
      Insert(xs[0], Sort(xs[1..], before), before)
  }

  lemma InsertMembers<T(!new)>(x: T, xs: seq<T>, before: (T, T) -> bool)
    ensures forall y :: y in Insert(x, xs, before) <==> y == x || y in xs
  {
    var r := Insert(x, xs, before);
    forall y ensures y in r <==> y == x || y in xs {
      assert y in r <==> y in multiset(r);
      assert y in xs <==> y in multiset(xs);
    }
  }

  lemma SortMembers<T(!new)>(xs: seq<T>, before: (T, T) -> bool)
    ensures forall y :: y in Sort(xs, before) <==> y in xs
  {
    var r := Sort(xs, before);
    forall y ensures y in r <==> y in xs {
      assert y in r <==> y in multiset(r);
      assert y in xs <==> y in multiset(xs);
    }
  }

  /** What `sort.Slice` asks of a comparison. */
  ghost predicate WeakOrder<T(!new)>(before: (T, T) -> bool) {
    && (forall a, b :: before(a, b) ==> !before(b, a))
    && (forall a, b, c :: !before(a, b) && !before(b, c) ==> !before(a, c))
  }

  ghost predicate Ordered<T>(xs: seq<T>, before: (T, T) -> bool) {
    forall i, j | 0 <= i < j < |xs| :: !before(xs[j], xs[i])
  }

  /** In order, and no two equivalent. */
  ghost predicate Strict<T>(xs: seq<T>, before: (T, T) -> bool) {
    forall i, j | 0 <= i < j < |xs| :: before(xs[i], xs[j])
  }

  lemma {:induction false} InsertOrdered<T(!new)>(x: T, xs: seq<T>, before: (T, T) -> bool)
    requires WeakOrder(before) && Ordered(xs, before)
    ensures Ordered(Insert(x, xs, before), before)
  {
    if xs != [] {
      if before(xs[0], x) {
        InsertOrdered(x, xs[1..], before);
        InsertMembers(x, xs[1..], before);
        var rest := Insert(x, xs[1..], before);
        forall j | 0 <= j < |rest| ensures !before(rest[j], xs[0]) {
          assert rest[j] in rest;
        }
      } else {
        forall j | 0 <= j < |xs| ensures !before(xs[j], x) {
          assert j > 0 ==> !before(xs[j], xs[0]);
        }
      }
    }
  }

  lemma {:induction false} SortOrdered<T(!new)>(xs: seq<T>, before: (T, T) -> bool)
    requires WeakOrder(before)
    ensures Ordered(Sort(xs, before), before)
  {
    if xs != [] {
      SortOrdered(xs[1..], before);
      InsertOrdered(xs[0], Sort(xs[1..], before), before);
    }
  }

  lemma {:induction false} InsertStrict<T(!new)>(x: T, xs: seq<T>, before: (T, T) -> bool)
    requires WeakOrder(before) && Strict(xs, before) && forall y | y in xs :: before(x, y) || before(y, x)
    ensures Strict(Insert(x, xs, before), before)
  {
    if xs != [] {
      assert xs[0] in xs;
      if before(xs[0], x) {
        InsertStrict(x, xs[1..], before);
        InsertMembers(x, xs[1..], before);
        var rest := Insert(x, xs[1..], before);
        forall j | 0 <= j < |rest| ensures before(xs[0], rest[j]) {
          assert rest[j] in rest;
        }
      } else {
        forall j | 0 <= j < |xs| ensures before(x, xs[j]) {
          assert xs[j] in xs;
          assert j > 0 ==> before(xs[0], xs[j]);
        }
      }
    }
  }

  /** When no two are equivalent, sorting leaves one order only. */
  lemma {:induction false} SortStrict<T(!new)>(xs: seq<T>, before: (T, T) -> bool)
    requires WeakOrder(before)
    requires forall i, j | 0 <= i < j < |xs| :: before(xs[i], xs[j]) || before(xs[j], xs[i])
    ensures Strict(Sort(xs, before), before)
  {
    if xs != [] {
      var rest := xs[1..];
      SortStrict(rest, before);
      SortMembers(rest, before);
      forall y | y in Sort(rest, before) ensures before(xs[0], y) || before(y, xs[0]) {
        var k :| 0 <= k < |rest| && rest[k] == y;
        assert xs[k + 1] == y;
      }
      InsertStrict(xs[0], Sort(rest, before), before);
    }
  }

  ghost predicate DifferentKeys<T, K>(xs: seq<T>, key: T -> K) {
    forall i, j | 0 <= i < j < |xs| :: key(xs[i]) != key(xs[j])
  }

  lemma {:induction false} InsertDifferent<T(!new), K>(x: T, xs: seq<T>, before: (T, T) -> bool, key: T -> K)
    requires DifferentKeys(xs, key) && forall y | y in xs :: key(y) != key(x)
    ensures DifferentKeys(Insert(x, xs, before), key)
  {
    if xs != [] && before(xs[0], x) {
      assert xs[0] in xs && forall y | y in xs[1..] :: y in xs;
      InsertDifferent(x, xs[1..], before, key);
      InsertMembers(x, xs[1..], before);
      var rest := Insert(x, xs[1..], before);
      forall j | 0 <= j < |rest| ensures key(rest[j]) != key(xs[0]) {
        assert rest[j] in rest;
        if rest[j] != x {
          var k :| 0 <= k < |xs[1..]| && xs[1..][k] == rest[j];
          assert xs[k + 1] == rest[j];
        }
      }
    }
  }

  lemma {:induction false} SortDifferent<T(!new), K>(xs: seq<T>, before: (T, T) -> bool, key: T -> K)
    requires DifferentKeys(xs, key)
    ensures DifferentKeys(Sort(xs, before), key)
  {
    if xs != [] {
      var rest := xs[1..];
      SortDifferent(rest, before, key);
      SortMembers(rest, before);
      forall y | y in Sort(rest, before) ensures key(y) != key(xs[0]) {
        var k :| 0 <= k < |rest| && rest[k] == y;
        assert xs[k + 1] == y;
      }
      InsertDifferent(xs[0], Sort(rest, before), before, key);
    }
  }

  /** A list in strict order is determined by its members. */
  lemma {:induction false} StrictUnique<T(!new)>(a: seq<T>, b: seq<T>, before: (T, T) -> bool)
    requires WeakOrder(before) && Strict(a, before) && Strict(b, before)
    requires forall x :: x in a <==> x in b
    ensures a == b
  {
    if b != [] {
      assert b[0] in b;
    }
    if a != [] {
      assert a[0] in a;
      SameHead(a, b, before);
      forall x ensures x in a[1..] <==> x in b[1..] {
        TailMembers(a, before, x);
        TailMembers(b, before, x);
      }
      StrictUnique(a[1..], b[1..], before);
    }
  }

  lemma SameHead<T(!new)>(a: seq<T>, b: seq<T>, before: (T, T) -> bool)
    requires WeakOrder(before) && Strict(a, before) && Strict(b, before)
    requires a != [] && b != [] && forall x :: x in a <==> x in b
    ensures a[0] == b[0]
  {
    assert a[0] in a && b[0] in b;
    var j :| 0 <= j < |b| && b[j] == a[0];
    var i :| 0 <= i < |a| && a[i] == b[0];
  }

  lemma TailMembers<T(!new)>(a: seq<T>, before: (T, T) -> bool, x: T)
    requires WeakOrder(before) && a != [] && Strict(a, before)
    ensures x in a[1..] <==> x in a && x != a[0]
  {
    if x in a && x != a[0] {
      var i :| 0 <= i < |a| && a[i] == x;
      assert a[1..][i - 1] == x;
    }
    if x in a[1..] {
      var i :| 0 <= i < |a[1..]| && a[1..][i] == x;
      assert a[i + 1] == x && before(a[0], a[i + 1]);
    }
  }
}
