/**
 * One category of the tweaks page: a heading over a table of module buttons,
 * laid out row by row in as many columns as the page can hold.
 */
module CategoryGrid {

  /** A button that opens one module; a button is known by its module. */
  datatype ModuleButton<M> = ModuleButton(owner: M)

  /** One attach call on the table: a button and its left, right, top and bottom attach points. */
  datatype Attachment<M> = Attachment(button: ModuleButton<M>, left: int, right: int, top: int, bottom: int)

  /** The buttons whose module the category still lists, in button order. */
  function Qualifying<M(==)>(buttons: seq<ModuleButton<M>>, modules: seq<M>): (qs: seq<ModuleButton<M>>)
    ensures |qs| <= |buttons|
  {
    if buttons == [] then []
    else
      var last := buttons[|buttons| - 1];
      Qualifying(buttons[..|buttons| - 1], modules) + (if last.owner in modules then [last] else [])
  }

  /** Looking at one more button adds it at the end exactly when its module is listed. */
  lemma QualifyingStep<M>(buttons: seq<ModuleButton<M>>, modules: seq<M>, i: nat)
    requires i < |buttons|
    ensures Qualifying(buttons[..i + 1], modules) == Qualifying(buttons[..i], modules) + (if buttons[i].owner in modules then [buttons[i]] else [])
  {
    assert buttons[..i + 1][..i] == buttons[..i];
  }

  /** A button is placed exactly when it is one of the category's buttons and its module is still listed. */
  lemma {:induction false} QualifyingMembers<M>(buttons: seq<ModuleButton<M>>, modules: seq<M>, b: ModuleButton<M>)
    ensures b in Qualifying(buttons, modules) <==> b in buttons && b.owner in modules
  {
    if buttons != [] {
      var init := buttons[..|buttons| - 1];
      QualifyingMembers(init, modules, b);
      assert buttons == init + [buttons[|buttons| - 1]];
    }
  }

  /**
   * The cell, as (column, row), of the k-th placed button: the first goes in
   * the top-left cell, and each next one a column further right, or in column
   * 0 of the next row once the column reaches the column count. With no
   * positive column count that never happens, so the buttons all go on row 0.
   */
  function Cell(k: nat, ncols: int): (int, int)
  {
    if k == 0 then (0, 0)
    else
      var (col, row) := Cell(k - 1, ncols);
      if col + 1 == ncols then (0, row + 1) else (col + 1, row)
  }

  /**
   * The k-th cell lies in the grid: its column and row are between 0 and k,
   * and with a positive column count the column stays below it.
   */
  lemma {:induction false} CellInGrid(k: nat, ncols: int)
    ensures 0 <= Cell(k, ncols).0 <= k && 0 <= Cell(k, ncols).1 <= k
    ensures ncols >= 1 ==> Cell(k, ncols).0 < ncols
  {
    if k > 0 {
      CellInGrid(k - 1, ncols);
    }
  }

  /** With a positive column count the k-th button sits in column k mod n of row k div n. */
  lemma {:induction false} CellRowMajor(k: nat, ncols: int)
    requires ncols >= 1
    ensures Cell(k, ncols) == (k % ncols, k / ncols)
  {
    if k > 0 {
      CellRowMajor(k - 1, ncols);
      NextDivMod(k - 1, ncols);
    }
  }

  /** Counting on by one: the remainder steps up, or wraps to 0 and carries into the quotient. */
  lemma NextDivMod(k: nat, n: int)
    requires n >= 1
    ensures (k + 1) % n == (if k % n + 1 == n then 0 else k % n + 1)
    ensures (k + 1) / n == (if k % n + 1 == n then k / n + 1 else k / n)
  {
    var c, r := k % n, k / n;
    assert k == r * n + c;
    if c + 1 == n {
      assert k + 1 == (r + 1) * n + 0;
      DivMod(k + 1, n, r + 1, 0);
    } else {
      DivMod(k + 1, n, r, c + 1);
    }
  }

  /** A number is fixed by its quotient and remainder. */
  lemma DivModInjective(j: nat, k: nat, n: int)
    requires n >= 1 && j % n == k % n && j / n == k / n
    ensures j == k
  {
    assert j == j / n * n + j % n;
    assert k == k / n * n + k % n;
  }

  /** Without a positive column count the k-th button sits in column k of row 0. */
  lemma {:induction false} CellOneRow(k: nat, ncols: int)
    requires ncols < 1
    ensures Cell(k, ncols) == (k, 0)
  {
    if k > 0 {
      CellOneRow(k - 1, ncols);
    }
  }

  /** Quotient and remainder are the only such pair. */
  lemma DivMod(k: int, n: int, q: int, r: int)
    requires n >= 1 && 0 <= r < n && k == q * n + r
    ensures k / n == q && k % n == r
  {
    var d := q - k / n;
    assert d * n == k % n - r;
    MultipleOutside(d, n);
  }

  /** A non-zero multiple of `n` is at least `n` away from zero. */
  lemma MultipleOutside(d: int, n: int)
    requires n >= 1
    ensures d >= 1 ==> d * n >= n
    ensures d <= -1 ==> d * n <= -n
  {
  }

  /** One attach call: `b` in the given cell, one column wide and one row tall. */
  function Attach<M>(b: ModuleButton<M>, cell: (int, int)): Attachment<M>
  {
    Attachment(b, cell.0, cell.0 + 1, cell.1, cell.1 + 1)
  }

  /** The table as the loop leaves it: the placed buttons in order, each in the next cell. */
  function Layout<M>(placed: seq<ModuleButton<M>>, ncols: int): (cells: seq<Attachment<M>>)
    ensures |cells| == |placed|
  {
    if placed == [] then []
    else
      var k := |placed| - 1;
      Layout(placed[..k], ncols) + [Attach(placed[k], Cell(k, ncols))]
  }

  /** Placing one more button appends its attachment in the next cell. */
  lemma LayoutStep<M>(placed: seq<ModuleButton<M>>, b: ModuleButton<M>, ncols: int)
    ensures Layout(placed + [b], ncols) == Layout(placed, ncols) + [Attach(b, Cell(|placed|, ncols))]
  {
    assert (placed + [b])[..|placed|] == placed;
  }

  /** The k-th placed button is attached in the k-th cell. */
  lemma {:induction false} LayoutAt<M>(placed: seq<ModuleButton<M>>, ncols: int, k: nat)
    requires k < |placed|
    ensures Layout(placed, ncols)[k] == Attach(placed[k], Cell(k, ncols))
  {
    var n := |placed| - 1;
    if k < n {
      LayoutAt(placed[..n], ncols, k);
    }
  }

  /**
   * With at least one column, the k-th placed button is in column k mod n of
   * row k div n, inside the columns, one cell wide and tall.
   */
  lemma LayoutInColumns<M>(placed: seq<ModuleButton<M>>, ncols: int, k: nat)
    requires ncols >= 1 && k < |placed|
    ensures Layout(placed, ncols)[k] == Attachment(placed[k], k % ncols, k % ncols + 1, k / ncols, k / ncols + 1)
    ensures 0 <= Layout(placed, ncols)[k].left < ncols && 0 <= Layout(placed, ncols)[k].top
  {
    LayoutAt(placed, ncols, k);
    CellRowMajor(k, ncols);
  }

  /** No two buttons share a cell, whatever the column count. */
  lemma LayoutDistinct<M>(placed: seq<ModuleButton<M>>, ncols: int, j: nat, k: nat)
    requires j < k < |placed|
    ensures (Layout(placed, ncols)[j].left, Layout(placed, ncols)[j].top) != (Layout(placed, ncols)[k].left, Layout(placed, ncols)[k].top)
  {
    LayoutAt(placed, ncols, j);
    LayoutAt(placed, ncols, k);
    if ncols >= 1 {
      CellRowMajor(j, ncols);
      CellRowMajor(k, ncols);
      if j % ncols == k % ncols && j / ncols == k / ncols {
        DivModInjective(j, k, ncols);
      }
    } else {
      CellOneRow(j, ncols);
      CellOneRow(k, ncols);
    }
  }

  /** What a category box remembers of its last build: the column count, the number of modules, and the table. */
  datatype Cache<M> = Cache(cols: int, count: int, table: seq<Attachment<M>>)

  /**
   * A category of the tweaks page. Its buttons are made once, one per module
   * it was given; the module list itself may later shrink or change, so only
   * the buttons whose module is still listed go into the table. The table is
   * rebuilt only when the column count or the number of modules moved since
   * the last build.
   */
  class CategoryBox<M(==)> {
    var modules: seq<M>
    const buttons: seq<ModuleButton<M>>
    var currentCols: int
    var currentModules: int
    var table: seq<Attachment<M>>

    constructor (modules: seq<M>)
      ensures this.modules == modules
      ensures ButtonsFor(modules)
      ensures currentCols == 0 && currentModules == 0 && table == []
    {
      this.modules := modules;
      buttons := seq(|modules|, i requires 0 <= i < |modules| => ModuleButton(modules[i]));
      currentCols, currentModules := 0, 0;
      table := [];
    }

    /** The buttons are one per module of `ms`, in order. */
    ghost predicate ButtonsFor(ms: seq<M>)
    {
      |buttons| == |ms| && forall i :: 0 <= i < |ms| ==> buttons[i].owner == ms[i]
    }

    function Cached(): Cache<M>
      reads this`currentCols, this`currentModules, this`table
    {
      Cache(currentCols, currentModules, table)
    }

    /**
     * The cache after an unforced rebuild for `ncols` columns from cache `c`:
     * the table is kept when neither the column count nor the number of
     * modules moved, and laid out afresh otherwise.
     */
    function Refreshed(c: Cache<M>, ncols: int): Cache<M>
      reads this`modules
    {
      Cache(ncols, |modules|, if ncols == c.cols && |modules| == c.count then c.table else Layout(Qualifying(buttons, modules), ncols))
    }

    /**
     * Lays the buttons out in `ncols` columns, unless `force` is off and
     * neither the column count nor the number of modules changed since the
     * last build, in which case the table is left alone.
     */
    method RebuildTable(ncols: int, force: bool)
      modifies this`currentCols, this`currentModules, this`table
      ensures currentCols == ncols && currentModules == |modules|
      ensures !force ==> Cached() == Refreshed(old(Cached()), ncols)
      ensures force ==> table == Layout(Qualifying(buttons, modules), ncols)
    {
      if !force && ncols == currentCols && |modules| == currentModules {
        return;
      }
      currentCols := ncols;
      currentModules := |modules|;
      table := AttachAll(buttons, modules, ncols);
    }
  }

  /**
   * The placement loop of a rebuild, on an emptied table: each button whose
   * module is still listed is attached in the current cell, and the column
   * moves right, wrapping to the next row when it reaches `ncols`.
   */
  method AttachAll<M(==)>(buttons: seq<ModuleButton<M>>, modules: seq<M>, ncols: int) returns (cells: seq<Attachment<M>>)
    ensures cells == Layout(Qualifying(buttons, modules), ncols)
  {
    cells := [];
    var row, col := 0, 0;
    for i := 0 to |buttons|
      invariant cells == Layout(Qualifying(buttons[..i], modules), ncols)
      invariant (col, row) == Cell(|cells|, ncols)
    {
      var button := buttons[i];
      ghost var placed := Qualifying(buttons[..i], modules);
      QualifyingStep(buttons, modules, i);
      if button.owner in modules {
        assert Qualifying(buttons[..i + 1], modules) == placed + [button];
        LayoutStep(placed, button, ncols);
        assert Attach(button, Cell(|cells|, ncols)) == Attachment(button, col, col + 1, row, row + 1);
        cells := cells + [Attachment(button, col, col + 1, row, row + 1)];
        col := col + 1;
        if col == ncols {
          col := 0;
          row := row + 1;
        }
      } else {
        assert Qualifying(buttons[..i + 1], modules) == placed;
      }
    }
    assert buttons[..|buttons|] == buttons;
  }
}
