/**
 * The tweaks page: one category box per category that has modules, stacked in
 * a vertical box. When the page gets a new width it works out the column
 * count and walks its boxes: a box whose category has lost all its modules is
 * taken off the page, any other box is put back in its place if it was off
 * and has its table rebuilt.
 */
module Tweaks {
  import opened CategoryGrid
  import Columns

  /** The first `i` elements of `xs` whose flag is set, in order. */
  function Kept<T>(xs: seq<T>, flags: seq<bool>, i: nat): (r: seq<T>)
    requires |flags| == |xs| && i <= |xs|
    ensures |r| <= i
  {
    if i == 0 then []
    else Kept(xs, flags, i - 1) + (if flags[i - 1] then [xs[i - 1]] else [])
  }

  /** The elements of `xs` from index `i` on whose flag is set, in order. */
  function Pending<T>(xs: seq<T>, flags: seq<bool>, i: nat): (r: seq<T>)
    requires |flags| == |xs| && i <= |xs|
    ensures |r| <= |xs| - i
    decreases |xs| - i
  {
    if i == |xs| then []
    else (if flags[i] then [xs[i]] else []) + Pending(xs, flags, i + 1)
  }

  /** For each element of `xs`, whether it occurs in `ys`. */
  function Membership<T(==)>(xs: seq<T>, ys: seq<T>): (flags: seq<bool>)
    ensures |flags| == |xs|
  {
    if xs == [] then []
    else Membership(xs[..|xs| - 1], ys) + [xs[|xs| - 1] in ys]
  }

  /** The j-th flag says whether the j-th element occurs in `ys`. */
  lemma {:induction false} MembershipAt<T>(xs: seq<T>, ys: seq<T>, j: nat)
    requires j < |xs|
    ensures Membership(xs, ys)[j] == (xs[j] in ys)
  {
    var n := |xs| - 1;
    if j < n {
      MembershipAt(xs[..n], ys, j);
    }
  }

  /** No element occurs twice. */
  ghost predicate Distinct<T>(xs: seq<T>)
  {
    forall a, b :: 0 <= a < b < |xs| ==> xs[a] != xs[b]
  }

  /** `s` with every occurrence of `x` taken out, as a container's remove does. */
  function Without<T(==)>(s: seq<T>, x: T): (r: seq<T>)
    ensures x !in r && |r| <= |s|
  {
    if s == [] then []
    else (if s[0] == x then [] else [s[0]]) + Without(s[1..], x)
  }

  /** Among distinct elements, the i-th differs from every other. */
  lemma DistinctFrom<T>(xs: seq<T>, i: nat)
    requires Distinct(xs) && i < |xs|
    ensures forall j :: 0 <= j < |xs| && j != i ==> xs[j] != xs[i]
  {
  }

  /** Among distinct elements, the j-th is among the first i flagged exactly when j < i and it is flagged. */
  lemma {:induction false} KeptMembers<T>(xs: seq<T>, flags: seq<bool>, i: nat, j: nat)
    requires |flags| == |xs| && Distinct(xs) && i <= |xs| && j < |xs|
    ensures xs[j] in Kept(xs, flags, i) <==> j < i && flags[j]
  {
    if i > 0 {
      KeptMembers(xs, flags, i - 1, j);
      var last := if flags[i - 1] then [xs[i - 1]] else [];
      assert xs[j] in Kept(xs, flags, i) <==> xs[j] in Kept(xs, flags, i - 1) || xs[j] in last;
      if j != i - 1 {
        assert xs[j] != xs[i - 1];
      }
    }
  }

  /** Among distinct elements, the j-th is pending from i exactly when i <= j and it is flagged. */
  lemma {:induction false} PendingMembers<T>(xs: seq<T>, flags: seq<bool>, i: nat, j: nat)
    requires |flags| == |xs| && Distinct(xs) && i <= |xs| && j < |xs|
    ensures xs[j] in Pending(xs, flags, i) <==> i <= j && flags[j]
    decreases |xs| - i
  {
    if i < |xs| {
      PendingMembers(xs, flags, i + 1, j);
      var head := if flags[i] then [xs[i]] else [];
      assert xs[j] in Pending(xs, flags, i) <==> xs[j] in head || xs[j] in Pending(xs, flags, i + 1);
      if j != i {
        assert xs[j] != xs[i];
      }
    }
  }

  /** Among distinct elements, the flags can be read back off the elements kept. */
  lemma KeptFlags<T>(xs: seq<T>, flags: seq<bool>)
    requires |flags| == |xs| && Distinct(xs)
    ensures Membership(xs, Kept(xs, flags, |xs|)) == flags
  {
    forall j | 0 <= j < |xs| ensures Membership(xs, Kept(xs, flags, |xs|))[j] == flags[j] {
      MembershipAt(xs, Kept(xs, flags, |xs|), j);
      KeptMembers(xs, flags, |xs|, j);
    }
  }

  /** Flagging every element keeps all of them. */
  lemma {:induction false} KeptAll<T>(xs: seq<T>, flags: seq<bool>, i: nat)
    requires |flags| == |xs| && i <= |xs| && forall j :: 0 <= j < |xs| ==> flags[j]
    ensures Kept(xs, flags, i) == xs[..i]
  {
    if i > 0 {
      KeptAll(xs, flags, i - 1);
      assert xs[..i] == xs[..i - 1] + [xs[i - 1]];
    }
  }

  /** Flagging each element by its membership in the whole sequence keeps the whole sequence. */
  lemma KeptEverything<T>(xs: seq<T>)
    ensures Kept(xs, Membership(xs, xs), |xs|) == xs
  {
    var flags := Membership(xs, xs);
    forall j | 0 <= j < |xs| ensures flags[j] {
      MembershipAt(xs, xs, j);
    }
    KeptAll(xs, flags, |xs|);
    assert xs[..|xs|] == xs;
  }

  /** Where the two flags agree on the i-th element, moving the boundary past it changes nothing. */
  lemma {:induction false} WalkSame<T>(xs: seq<T>, keep: seq<bool>, shown: seq<bool>, i: nat)
    requires |keep| == |xs| == |shown| && i < |xs| && keep[i] == shown[i]
    ensures Kept(xs, keep, i) + Pending(xs, shown, i) == Kept(xs, keep, i + 1) + Pending(xs, shown, i + 1)
  {
    var x := if keep[i] then [xs[i]] else [];
    assert Kept(xs, keep, i) + (x + Pending(xs, shown, i + 1)) == (Kept(xs, keep, i) + x) + Pending(xs, shown, i + 1);
  }

  /** Kept and pending split the flagged elements at any boundary. */
  lemma {:induction false} KeptPending<T>(xs: seq<T>, flags: seq<bool>, i: nat)
    requires |flags| == |xs| && i <= |xs|
    ensures Kept(xs, flags, i) + Pending(xs, flags, i) == Kept(xs, flags, |xs|)
    decreases |xs| - i
  {
    if i < |xs| {
      WalkSame(xs, flags, flags, i);
      KeptPending(xs, flags, i + 1);
    } else {
      assert Pending(xs, flags, i) == [];
    }
  }

  /** A box shown before but no longer kept: taking it out of the page moves the walk on. */
  lemma WalkRemove<T>(xs: seq<T>, keep: seq<bool>, shown: seq<bool>, i: nat)
    requires |keep| == |xs| == |shown| && Distinct(xs) && i < |xs| && !keep[i] && shown[i]
    ensures Without(Kept(xs, keep, i) + Pending(xs, shown, i), xs[i]) == Kept(xs, keep, i + 1) + Pending(xs, shown, i + 1)
  {
    var done, rest := Kept(xs, keep, i), Pending(xs, shown, i + 1);
    KeptNotAfter(xs, keep, i);
    PendingNotBefore(xs, shown, i + 1);
    assert done + ([xs[i]] + rest) == done + [xs[i]] + rest;
    WithoutMiddle(done, xs[i], rest);
  }

  /** A box kept but not shown before: inserting it after the boxes kept so far moves the walk on. */
  lemma WalkInsert<T>(xs: seq<T>, keep: seq<bool>, shown: seq<bool>, i: nat)
    requires |keep| == |xs| == |shown| && i < |xs| && keep[i] && !shown[i]
    ensures var done, page := Kept(xs, keep, i), Kept(xs, keep, i) + Pending(xs, shown, i);
      page[..|done|] + [xs[i]] + page[|done|..] == Kept(xs, keep, i + 1) + Pending(xs, shown, i + 1)
  {
    var done, page := Kept(xs, keep, i), Kept(xs, keep, i) + Pending(xs, shown, i);
    assert page[..|done|] == done && page[|done|..] == Pending(xs, shown, i + 1);
  }

  /** Among distinct elements, the i-th is not among those kept before it. */
  lemma KeptNotAfter<T>(xs: seq<T>, flags: seq<bool>, i: nat)
    requires |flags| == |xs| && Distinct(xs) && i < |xs|
    ensures xs[i] !in Kept(xs, flags, i)
  {
    KeptMembers(xs, flags, i, i);
  }

  /** Among distinct elements, the one before index i is not pending from i. */
  lemma PendingNotBefore<T>(xs: seq<T>, flags: seq<bool>, i: nat)
    requires |flags| == |xs| && Distinct(xs) && 0 < i <= |xs|
    ensures xs[i - 1] !in Pending(xs, flags, i)
  {
    PendingMembers(xs, flags, i, i - 1);
  }

  /** Taking out an element that does not occur changes nothing. */
  lemma {:induction false} WithoutAbsent<T>(s: seq<T>, x: T)
    requires x !in s
    ensures Without(s, x) == s
  {
    if s != [] {
      WithoutAbsent(s[1..], x);
      assert s == [s[0]] + s[1..];
    }
  }

  /** Taking out an element that occurs once, between two runs free of it, leaves the two runs. */
  lemma {:induction false} WithoutMiddle<T>(p: seq<T>, x: T, r: seq<T>)
    requires x !in p && x !in r
    ensures Without(p + [x] + r, x) == p + r
  {
    if p == [] {
      assert p + [x] + r == [x] + r;
      assert ([x] + r)[1..] == r;
      WithoutAbsent(r, x);
    } else {
      WithoutMiddle(p[1..], x, r);
      assert (p + [x] + r)[1..] == p[1..] + [x] + r;
      assert p == [p[0]] + p[1..];
    }
  }

  /** Which of `boxes` have any modules. */
  function HasModules<M>(boxes: seq<CategoryBox<M>>): (keep: seq<bool>)
    reads boxes`modules
    ensures |keep| == |boxes|
  {
    if boxes == [] then []
    else HasModules(boxes[..|boxes| - 1]) + [|boxes[|boxes| - 1].modules| > 0]
  }

  /** The j-th flag says whether the j-th box has modules. */
  lemma {:induction false} HasModulesAt<M>(boxes: seq<CategoryBox<M>>, j: nat)
    requires j < |boxes|
    ensures HasModules(boxes)[j] == (|boxes[j].modules| > 0)
  {
    var n := |boxes| - 1;
    if j < n {
      HasModulesAt(boxes[..n], j);
    }
  }

  /**
   * What the walk does to the page for one box, given whether its category
   * has modules and whether it was on the page: an empty box that is on the
   * page is removed; a box with modules that is off the page is packed at
   * the end and moved up to position `pos`; a box with modules counts one
   * more box placed. Against the boxes `xs`, this moves the boundary between
   * boxes already visited and boxes still as they were past the i-th box.
   */
  method Visit<T(==)>(page: seq<T>, pos: int, box: T, listed: bool, onPage: bool,
                      ghost xs: seq<T>, ghost keep: seq<bool>, ghost shown: seq<bool>, ghost i: nat)
    returns (page': seq<T>, pos': int)
    requires |keep| == |xs| == |shown| && Distinct(xs) && i < |xs|
    requires box == xs[i] && listed == keep[i] && onPage == shown[i]
    requires pos == |Kept(xs, keep, i)| && page == Kept(xs, keep, i) + Pending(xs, shown, i)
    ensures pos' == |Kept(xs, keep, i + 1)| && page' == Kept(xs, keep, i + 1) + Pending(xs, shown, i + 1)
  {
    page', pos' := page, pos;
    if !listed {
      if onPage {
        WalkRemove(xs, keep, shown, i);
        page' := Without(page, box);
      } else {
        WalkSame(xs, keep, shown, i);
      }
    } else {
      if !onPage {
        WalkInsert(xs, keep, shown, i);
        page' := page[..pos] + [box] + page[pos..];
      } else {
        WalkSame(xs, keep, shown, i);
      }
      pos' := pos + 1;
    }
  }

  /**
   * Where the walk stands before the i-th box: the page holds the boxes
   * visited so far that are kept, then the boxes not yet visited that were
   * shown, and `pos` counts the boxes kept so far.
   */
  ghost predicate Walked<T>(xs: seq<T>, keep: seq<bool>, shown: seq<bool>, i: nat, page: seq<T>, pos: int)
    requires |keep| == |xs| == |shown| && i <= |xs|
  {
    pos == |Kept(xs, keep, i)| && page == Kept(xs, keep, i) + Pending(xs, shown, i)
  }

  /**
   * The boxes before the i-th have been through the walk: each one with
   * modules holds the unforced rebuild of the cache it had in `before`, and
   * every other box still holds its cache from `before`.
   */
  ghost predicate Rebuilt<M>(xs: seq<CategoryBox<M>>, before: seq<Cache<M>>, ncols: int, i: nat)
    requires |before| == |xs|
    reads xs
  {
    forall j :: 0 <= j < |xs| ==>
      xs[j].Cached() == if j < i && |xs[j].modules| > 0 then xs[j].Refreshed(before[j], ncols) else before[j]
  }

  /**
   * One turn of the walk: the page update for the i-th box, then, when its
   * category has modules, an unforced rebuild of its table.
   */
  method PlaceBox<M(==)>(page: seq<CategoryBox<M>>, pos: int, box: CategoryBox<M>, ncols: int, shown: seq<CategoryBox<M>>,
                         ghost xs: seq<CategoryBox<M>>, ghost keep: seq<bool>, ghost wasShown: seq<bool>, ghost before: seq<Cache<M>>, ghost i: nat)
    returns (page': seq<CategoryBox<M>>, pos': int)
    requires |keep| == |xs| == |wasShown| && Distinct(xs) && i < |xs| && box == xs[i]
    requires keep == HasModules(xs) && wasShown == Membership(xs, shown)
    requires Walked(xs, keep, wasShown, i, page, pos)
    requires |before| == |xs| && Rebuilt(xs, before, ncols, i)
    modifies box`currentCols, box`currentModules, box`table
    ensures Walked(xs, keep, wasShown, i + 1, page', pos')
    ensures keep == HasModules(xs) && Rebuilt(xs, before, ncols, i + 1)
  {
    DistinctFrom(xs, i);
    HasModulesAt(xs, i);
    MembershipAt(xs, shown, i);
    page', pos' := Visit(page, pos, box, |box.modules| > 0, box in shown, xs, keep, wasShown, i);
    if |box.modules| > 0 {
      box.RebuildTable(ncols, false);
    }
  }

  /** What each of `boxes` has cached of its last build. */
  function Caches<M>(boxes: seq<CategoryBox<M>>): (cs: seq<Cache<M>>)
    reads boxes`currentCols, boxes`currentModules, boxes`table
    ensures |cs| == |boxes|
  {
    if boxes == [] then [] else Caches(boxes[..|boxes| - 1]) + [boxes[|boxes| - 1].Cached()]
  }

  /** The j-th entry is the j-th box's cache. */
  lemma {:induction false} CachesAt<M>(boxes: seq<CategoryBox<M>>, j: nat)
    requires j < |boxes|
    ensures Caches(boxes)[j] == boxes[j].Cached()
  {
    var n := |boxes| - 1;
    if j < n {
      CachesAt(boxes[..n], j);
    }
  }

  /** For each category, whether the loader lists any modules for it. */
  function Listed<M>(categories: seq<seq<M>>): (flags: seq<bool>)
    ensures |flags| == |categories|
  {
    if categories == [] then []
    else Listed(categories[..|categories| - 1]) + [|categories[|categories| - 1]| > 0]
  }

  /** The k-th flag says whether the k-th category lists any modules. */
  lemma {:induction false} ListedAt<M>(categories: seq<seq<M>>, k: nat)
    requires k < |categories|
    ensures Listed(categories)[k] == (|categories[k]| > 0)
  {
    var n := |categories| - 1;
    if k < n {
      ListedAt(categories[..n], k);
    }
  }

  /**
   * The constructor's loop over the loader's categories: a fresh box, with
   * nothing cached, for each category that lists modules, in order.
   */
  method MakeBoxes<M(==)>(categories: seq<seq<M>>) returns (boxes: seq<CategoryBox<M>>)
    ensures Distinct(boxes)
    ensures var made := Kept(categories, Listed(categories), |categories|);
      |boxes| == |made| && forall j :: 0 <= j < |boxes| ==>
        fresh(boxes[j]) && boxes[j].Cached() == Cache(0, 0, []) && boxes[j].modules == made[j] && boxes[j].ButtonsFor(made[j]) && |made[j]| > 0
  {
    boxes := [];
    ghost var listed := Listed(categories);
    ghost var made: seq<seq<M>> := [];
    for i := 0 to |categories|
      invariant Distinct(boxes)
      invariant made == Kept(categories, listed, i) && |boxes| == |made|
      invariant forall j :: 0 <= j < |boxes| ==>
        fresh(boxes[j]) && boxes[j].Cached() == Cache(0, 0, []) && boxes[j].modules == made[j] && boxes[j].ButtonsFor(made[j]) && |made[j]| > 0
    {
      var modules := categories[i];
      ListedAt(categories, i);
      if modules != [] {
        boxes := AppendBox(boxes, made, modules);
        made := made + [modules];
      }
    }
  }

  /** One turn of the constructor's loop: a fresh box for `modules` goes after `boxes`. */
  method AppendBox<M(==)>(boxes: seq<CategoryBox<M>>, ghost made: seq<seq<M>>, modules: seq<M>) returns (boxes': seq<CategoryBox<M>>)
    requires Distinct(boxes) && |boxes| == |made| && |modules| > 0
    requires forall j :: 0 <= j < |boxes| ==> boxes[j].Cached() == Cache(0, 0, []) && boxes[j].modules == made[j] && boxes[j].ButtonsFor(made[j]) && |made[j]| > 0
    ensures Distinct(boxes') && |boxes'| == |boxes| + 1 && boxes'[..|boxes|] == boxes && fresh(boxes'[|boxes|])
    ensures forall j :: 0 <= j < |boxes'| ==>
      boxes'[j].Cached() == Cache(0, 0, []) && boxes'[j].modules == (made + [modules])[j] && boxes'[j].ButtonsFor((made + [modules])[j])
      && |(made + [modules])[j]| > 0
  {
    var box := new CategoryBox(modules);
    assert box !in boxes;
    boxes' := boxes + [box];
    assert boxes'[..|boxes|] == boxes;
  }

  class TweaksPage<M(==)> {
    // One box per category that had modules when the page was made.
    var boxes: seq<CategoryBox<M>>
    // The boxes on the page, top to bottom.
    var children: seq<CategoryBox<M>>

    /** The boxes are distinct and the page shows some of them, in their order. */
    ghost predicate Valid()
      reads this
    {
      Distinct(boxes) && children == Kept(boxes, Membership(boxes, children), |boxes|)
    }

    /**
     * Makes a box for every category that has modules, in the loader's order,
     * and puts each on the page. `categories` is what the module loader lists
     * for each category.
     */
    constructor (categories: seq<seq<M>>)
      ensures Valid() && children == boxes
      ensures var made := Kept(categories, Listed(categories), |categories|);
        |boxes| == |made| && forall j :: 0 <= j < |boxes| ==> boxes[j].modules == made[j] && boxes[j].ButtonsFor(made[j])
      ensures forall j :: 0 <= j < |boxes| ==> fresh(boxes[j]) && boxes[j].Cached() == Cache(0, 0, []) && |boxes[j].modules| > 0
    {
      var made := MakeBoxes(categories);
      boxes, children := made, made;
      new;
      KeptEverything(boxes);
    }

    /**
     * Reflows the page for `width` pixels: boxes whose category is empty come
     * off the page, the others are on it in their order and have their table
     * rebuilt for the column count (unless it is cached). Nothing else about a
     * box changes.
     */
    method RebuildBoxes(width: int)
      requires Valid()
      modifies this`children, boxes`currentCols, boxes`currentModules, boxes`table
      ensures Valid()
      ensures children == Kept(boxes, HasModules(boxes), |boxes|)
      ensures forall j :: 0 <= j < |boxes| ==> (boxes[j] in children <==> |boxes[j].modules| > 0)
      ensures forall b :: b in boxes ==>
        b.Cached() == if |b.modules| > 0 then b.Refreshed(old(b.Cached()), Columns.ColumnCount(width)) else old(b.Cached())
    {
      var ncols := Columns.ColumnCount(width);
      children := WalkBoxes(boxes, children, ncols);
      ghost var keep := HasModules(boxes);
      KeptFlags(boxes, keep);
      forall j | 0 <= j < |boxes| ensures boxes[j] in children <==> |boxes[j].modules| > 0 {
        KeptMembers(boxes, keep, |boxes|, j);
        HasModulesAt(boxes, j);
      }
    }
  }

  /**
   * The walk over the boxes in `boxes`, of which those in `shown` are on the
   * page: each box is placed or taken off and, when it has modules, rebuilt.
   * The result is the new list of boxes on the page.
   */
  method WalkBoxes<M(==)>(boxes: seq<CategoryBox<M>>, shown: seq<CategoryBox<M>>, ncols: int) returns (page: seq<CategoryBox<M>>)
    requires Distinct(boxes) && shown == Kept(boxes, Membership(boxes, shown), |boxes|)
    modifies boxes`currentCols, boxes`currentModules, boxes`table
    ensures page == Kept(boxes, HasModules(boxes), |boxes|)
    ensures forall j :: 0 <= j < |boxes| ==>
      boxes[j].Cached() == if |boxes[j].modules| > 0 then boxes[j].Refreshed(old(boxes[j].Cached()), ncols) else old(boxes[j].Cached())
  {
    ghost var keep := HasModules(boxes);
    ghost var wasShown := Membership(boxes, shown);
    KeptPending(boxes, wasShown, 0);
    ghost var before := Caches(boxes);
    forall j | 0 <= j < |boxes| ensures before[j] == boxes[j].Cached() {
      CachesAt(boxes, j);
    }
    page := PlaceAll(boxes, shown, ncols, keep, wasShown, before);
    KeptPending(boxes, keep, |boxes|);
  }

  /** The loop of the walk, from the first box to the last. */
  method PlaceAll<M(==)>(boxes: seq<CategoryBox<M>>, shown: seq<CategoryBox<M>>, ncols: int,
                         ghost keep: seq<bool>, ghost wasShown: seq<bool>, ghost before: seq<Cache<M>>)
    returns (page: seq<CategoryBox<M>>)
    requires Distinct(boxes) && keep == HasModules(boxes) && wasShown == Membership(boxes, shown)
    requires |before| == |boxes| && Rebuilt(boxes, before, ncols, 0) && Walked(boxes, keep, wasShown, 0, shown, 0)
    modifies boxes`currentCols, boxes`currentModules, boxes`table
    ensures Walked(boxes, keep, wasShown, |boxes|, page, |Kept(boxes, keep, |boxes|)|)
    ensures Rebuilt(boxes, before, ncols, |boxes|)
  {
    var pos := 0;
    page := shown;
    for i := 0 to |boxes|
      invariant Walked(boxes, keep, wasShown, i, page, pos)
      invariant HasModules(boxes) == keep
      invariant Rebuilt(boxes, before, ncols, i)
    {
      page, pos := PlaceBox(page, pos, boxes[i], ncols, shown, boxes, keep, wasShown, before, i);
    }
  }
}
