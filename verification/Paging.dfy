/**
 Lists of a table's rows in ID order, and their pages, in 64-bit arithmetic.
 */
module Paging {
  import opened Domain
  import opened Sorting
  import opened Tables

  const MAX_INT := 0x7FFF_FFFF_FFFF_FFFF
  const DEFAULT_PAGE_SIZE := 20
  const MAX_PAGE_SIZE := 100

  // ------------------------------------------------------------ rows in ID order

  /** The rows with an ID below `n` that pass the filter, by increasing ID. */
  function Select<T>(rows: map<nat, T>, keep: T -> bool, n: nat): seq<T> {
    if n == 0 then []
    else
      Select(rows, keep, n - 1) +
      (if n - 1 in rows && keep(rows[n - 1]) then [rows[n - 1]] else [])
  }

  lemma {:induction false} SelectHas<T>(rows: map<nat, T>, keep: T -> bool, n: nat, id: nat)
    requires id < n && id in rows && keep(rows[id])
    ensures rows[id] in Select(rows, keep, n)
  {
    if id < n - 1 {
      SelectHas(rows, keep, n - 1, id);
    }
  }

  lemma {:induction false} SelectFrom<T>(rows: map<nat, T>, keep: T -> bool, n: nat, x: T) returns (id: nat)
    requires x in Select(rows, keep, n)
    ensures id < n && id in rows && keep(rows[id]) && x == rows[id]
  {
    if x in Select(rows, keep, n - 1) {
      id := SelectFrom(rows, keep, n - 1, x);
    } else {
      id := n - 1;
    }
  }

  function ByID<T>(idOf: T -> nat): (T, T) -> bool {
    (a: T, b: T) => idOf(a) < idOf(b)
  }

  ghost predicate Ascending<T>(items: seq<T>, idOf: T -> nat) {
    Strict(items, ByID(idOf))
  }

  lemma {:induction false} SelectAscending<T(!new)>(t: Table<T>, idOf: T -> nat, keep: T -> bool, n: nat)
    requires Numbered(t, idOf)
    ensures Ascending(Select(t.rows, keep, n), idOf)
    ensures forall x | x in Select(t.rows, keep, n) :: idOf(x) < n
  {
    if n > 0 {
      SelectAscending(t, idOf, keep, n - 1);
    }
  }

  ghost predicate DifferentIDs<T>(items: seq<T>, idOf: T -> nat) {
    forall i, j | 0 <= i < j < |items| :: idOf(items[i]) != idOf(items[j])
  }

  /** `sort.Slice` by ID leaves one order only. */
  lemma SortAscending<T(!new)>(items: seq<T>, idOf: T -> nat)
    requires DifferentIDs(items, idOf)
    ensures Ascending(Sort(items, ByID(idOf)), idOf)
  {
    SortStrict(items, ByID(idOf));
  }

  /** The rows that pass `keep`, but for those still pending. */
  ghost predicate Gathered<T(!new)>(t: Table<T>, idOf: T -> nat, keep: T -> bool, pending: set<nat>, items: seq<T>) {
    && pending <= t.rows.Keys && DifferentIDs(items, idOf)
    && (forall x | x in items :: idOf(x) in t.rows && idOf(x) !in pending && t.rows[idOf(x)] == x && keep(x))
    && (forall id | id in t.rows && id !in pending && keep(t.rows[id]) :: t.rows[id] in items)
  }

  lemma GatherOne<T(!new)>(t: Table<T>, idOf: T -> nat, keep: T -> bool, pending: set<nat>, items: seq<T>, id: nat)
    requires Numbered(t, idOf) && Gathered(t, idOf, keep, pending, items) && id in pending
    ensures keep(t.rows[id]) ==> Gathered(t, idOf, keep, pending - {id}, items + [t.rows[id]])
    ensures !keep(t.rows[id]) ==> Gathered(t, idOf, keep, pending - {id}, items)
  {
    assert idOf(t.rows[id]) == id;
  }

  /** Whatever order a map hands its rows out in, sorting the kept ones gives `Select`. */
  lemma CollectedIsSelected<T(!new)>(t: Table<T>, idOf: T -> nat, keep: T -> bool, items: seq<T>)
    requires Numbered(t, idOf) && Gathered(t, idOf, keep, {}, items)
    ensures Sort(items, ByID(idOf)) == Select(t.rows, keep, t.next)
  {
    SortAscending(items, idOf);
    SortMembers(items, ByID(idOf));
    SelectAscending(t, idOf, keep, t.next);
    forall x ensures x in Sort(items, ByID(idOf)) <==> x in Select(t.rows, keep, t.next) {
      if x in items {
        SelectHas(t.rows, keep, t.next, idOf(x));
      }
      if x in Select(t.rows, keep, t.next) {
        var id := SelectFrom(t.rows, keep, t.next, x);
      }
    }
    StrictUnique(Sort(items, ByID(idOf)), Select(t.rows, keep, t.next), ByID(idOf));
  }

  /** The selection is every stored row that passes, by increasing ID. */
  lemma SelectMeaning<T(!new)>(t: Table<T>, idOf: T -> nat, keep: T -> bool)
    requires Numbered(t, idOf)
    ensures var all := Select(t.rows, keep, t.next);
      && (forall x :: x in all <==> idOf(x) in t.rows && t.rows[idOf(x)] == x && keep(x))
      && (forall i, j | 0 <= i < j < |all| :: idOf(all[i]) < idOf(all[j]))
  {
    var all := Select(t.rows, keep, t.next);
    SelectAscending(t, idOf, keep, t.next);
    forall x ensures x in all <==> idOf(x) in t.rows && t.rows[idOf(x)] == x && keep(x) {
      if x in all {
        var id := SelectFrom(t.rows, keep, t.next, x);
      }
      if idOf(x) in t.rows && t.rows[idOf(x)] == x && keep(x) {
        SelectHas(t.rows, keep, t.next, idOf(x));
      }
    }
    forall i, j | 0 <= i < j < |all| ensures idOf(all[i]) < idOf(all[j]) {
      assert ByID(idOf)(all[i], all[j]);
    }
  }

  // -------------------------------------------------------------------- pages

  /** `NormalizePage`: the page is raised to 1 but never capped; the size is put into 1..100. */
  function NormalizePage(page: int, size: int): (r: (int, int))
    ensures r.0 >= 1 && (page >= 1 ==> r.0 == page) && (page < 1 ==> r.0 == 1)
    ensures 1 <= r.1 <= 100 && (1 <= size <= 100 ==> r.1 == size)
    ensures (size < 1 ==> r.1 == 20) && (size > 100 ==> r.1 == 100)
  {
    var p := if page < 1 then 1 else page;
    var s := if size < 1 then DEFAULT_PAGE_SIZE else size;
    (p, if s > MAX_PAGE_SIZE then MAX_PAGE_SIZE else s)
  }

  /** The value of a 64-bit `int` result. */
  function Wrap(x: int): (r: int)
    ensures -MAX_INT - 1 <= r <= MAX_INT
    ensures -MAX_INT - 1 <= x <= MAX_INT ==> r == x
  {
    (x + MAX_INT + 1) % (2 * (MAX_INT + 1)) - MAX_INT - 1
  }

  /** It differs from the value by a multiple of 2^64 and fits 64 bits, which fixes it. */
  lemma WrapMeaning(x: int, r: int)
    ensures Wrap(x) == r <==>
      -0x8000_0000_0000_0000 <= r < 0x8000_0000_0000_0000 &&
      exists k: int :: x == r + k * 0x1_0000_0000_0000_0000
  {
    var y := x + 0x8000_0000_0000_0000;
    var k := y / 0x1_0000_0000_0000_0000;
    assert x == Wrap(x) + k * 0x1_0000_0000_0000_0000;
  }

  /** `paginate`; `None` is the run-time panic of a slice expression out of range. */
  function Paginate<T>(items: seq<T>, page: int, size: int): Option<seq<T>> {
    Window(items, Wrap((page - 1) * size), size)
  }

  function Window<T>(items: seq<T>, start: int, size: int): Option<seq<T>> {
    if start >= |items| then Some([])
    else
      var end := Wrap(start + size);
      var end := if end > |items| then |items| else end;
      if 0 <= start <= end then Some(items[start..end]) else None
  }

  function Min(a: int, b: int): int { if a < b then a else b }

  /** The page as it is meant: `size` items after the first `(page - 1) * size`. */
  function PageOf<T>(items: seq<T>, page: nat, size: nat): seq<T>
    requires page >= 1 && size >= 1
  {
    var start := (page - 1) * size;
    if start >= |items| then [] else items[start..Min(start + size, |items|)]
  }

  lemma OffsetExactly<T>(items: seq<T>, offset: nat, size: nat)
    requires 1 <= size <= MAX_PAGE_SIZE && |items| <= MAX_INT - MAX_PAGE_SIZE
    ensures var meant := if offset >= |items| then [] else items[offset..Min(offset + size, |items|)];
      && (Window(items, Wrap(offset), size) == Some(meant) <==> offset <= MAX_INT || Wrap(offset) >= |items|)
      && (Window(items, Wrap(offset), size) == None <==> Wrap(offset) < 0)
  {
    var start := Wrap(offset);
    if 0 <= start < |items| {
      assert Wrap(start + size) == start + size;
    } else if start < 0 {
      assert Wrap(start + size) == start + size;
    }
  }

  /** `paginate` returns the page that is meant exactly when the offset fits an `int`, or
      wraps around to beyond the list; it panics exactly when the offset wraps below 0. */
  lemma PaginateExactly<T>(items: seq<T>, page: nat, size: nat)
    requires page >= 1 && 1 <= size <= MAX_PAGE_SIZE && |items| <= MAX_INT - MAX_PAGE_SIZE
    ensures var offset := (page - 1) * size;
      && (Paginate(items, page, size) == Some(PageOf(items, page, size)) <==>
          offset <= MAX_INT || Wrap(offset) >= |items|)
      && (Paginate(items, page, size) == None <==> Wrap(offset) < 0)
  {
    var offset := (page - 1) * size;
    assert offset >= 0;
    OffsetExactly(items, offset, size);
  }

  /** A page number that makes `paginate` panic although both arguments are normalized. */
  lemma HugePagePanics<T>(items: seq<T>)
    ensures NormalizePage(92233720368547760, 100) == (92233720368547760, 100)
    ensures Paginate(items, 92233720368547760, 100) == None
  {
  }

  /** The first `k` pages in a row. */
  function Pages<T>(items: seq<T>, size: nat, k: nat): seq<T>
    requires size >= 1
  {
    if k == 0 then [] else Pages(items, size, k - 1) + PageOf(items, k, size)
  }

  /** The pages in a row give back the list, as far as they reach. */
  lemma {:induction false} PagesAreAPrefix<T>(items: seq<T>, size: nat, k: nat)
    requires size >= 1
    ensures Pages(items, size, k) == items[..Min(k * size, |items|)]
  {
    if k > 0 {
      PagesAreAPrefix(items, size, k - 1);
      assert k * size == (k - 1) * size + size;
    }
  }

  /** Every page up to the last nonempty one, in a row, is the whole list. */
  lemma PagesAreTheList<T>(items: seq<T>, size: nat, k: nat)
    requires size >= 1 && k * size >= |items|
    ensures Pages(items, size, k) == items
  {
    PagesAreAPrefix(items, size, k);
  }
}
