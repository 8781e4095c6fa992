/**
 * How many columns of module buttons the tweaks page lays out for the width
 * it is allocated. The source counts 164 pixels per button (its own tally of
 * icon 32, label 120, spacing 6 and border 4 sums to 162); the table pads a
 * button by 4 on each side, and the page keeps a 40-pixel
 * margin. Python 2's `/` on integers floors; so does Dafny's `/` by a positive
 * divisor, so `width / ButtonWidth` is the source's quotient for every width.
 */
module Columns {

  const ButtonWidth: int := 164
  const CellWidth: int := ButtonWidth + 2 * 4
  const Margin: int := 40

  /** The width a grid of `ncols` columns asks for: its padded cells and the margin. */
  function GridWidth(ncols: int): int
  {
    ncols * CellWidth + Margin
  }

  /** A column count that fits `width`, and the widest such. */
  ghost predicate WidestFit(ncols: int, width: int)
  {
    GridWidth(ncols) <= width < GridWidth(ncols + 1)
  }

  /**
   * The column count as the source computes it: as many buttons as the width
   * holds, one fewer when the padded grid would be wider than the window.
   */
  function ColumnCount(width: int): (ncols: int)
    ensures ncols <= width / ButtonWidth
    ensures 0 <= width ==> -1 <= ncols
  {
    var ncols := width / ButtonWidth;
    if GridWidth(ncols) > width then ncols - 1 else ncols
  }

  /** The evidently intended column count: the widest grid that fits. */
  function FittingColumns(width: int): (ncols: int)
    ensures WidestFit(ncols, width)
  {
    (width - Margin) / CellWidth
  }

  /** Only one count is the widest fit. */
  lemma WidestFitUnique(a: int, b: int, width: int)
    requires WidestFit(a, width) && WidestFit(b, width)
    ensures a == b
  {
  }

  /** Below 17 buttons' worth of width one decrement is always enough: the source's count is the widest fit. */
  lemma ColumnCountFits(width: int)
    requires 0 <= width < 17 * ButtonWidth
    ensures WidestFit(ColumnCount(width), width)
  {
    var q := width / ButtonWidth;
    assert q * ButtonWidth <= width < q * ButtonWidth + ButtonWidth;
    assert 0 <= q <= 16;
    assert GridWidth(q + 1) > width by {
      assert GridWidth(q + 1) == q * ButtonWidth + 8 * q + CellWidth + Margin;
    }
    if GridWidth(q) > width {
      assert GridWidth(q - 1) == q * ButtonWidth + 8 * q - CellWidth + Margin;
    }
  }

  /** Below 2788 pixels the source's count and the intended one coincide. */
  lemma ColumnCountAgrees(width: int)
    requires 0 <= width < 17 * ButtonWidth
    ensures ColumnCount(width) == FittingColumns(width)
  {
    ColumnCountFits(width);
    WidestFitUnique(ColumnCount(width), FittingColumns(width), width);
  }

  /** At 2788 pixels the source drops from 17 to 16 columns, and 16 padded columns still need 2792. */
  lemma ColumnCountOverflows()
    ensures ColumnCount(2788) == 16 && GridWidth(16) == 2792 > 2788
    ensures FittingColumns(2788) == 15
  {
  }

  /** At any width, at least one column is laid out exactly from 212 pixels on; narrower pages get 0 or -1. */
  lemma PositiveColumns(width: int)
    requires 0 <= width
    ensures ColumnCount(width) >= 1 <==> width >= GridWidth(1)
    ensures width < Margin ==> ColumnCount(width) == -1
    ensures Margin <= width < GridWidth(1) ==> ColumnCount(width) == 0
  {
    if width < 17 * ButtonWidth {
      ColumnCountAgrees(width);
    }
  }

  /** The worked examples: 400 pixels give 2 columns, 360 give 1. */
  lemma ColumnCountExamples()
    ensures ColumnCount(400) == 2 && ColumnCount(360) == 1
    ensures ColumnCount(100) == 0 && ColumnCount(30) == -1
  {
  }
}
