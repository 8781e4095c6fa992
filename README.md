# Ubuntu Tweak main window: navigation and the tweaks page layout

This project models the core of Ubuntu Tweak's main window in Dafny and
proves properties of that model. The core lives in `ubuntutweak/app.py` and
has three parts.

- **The jump manager** (`Navigation.JumpManager`). It does the back/forward
  bookkeeping between the pages of the window's notebook. A page is named by
  its notebook index. There are four fixed pages: overview, apps, tweaks and
  "please wait". After them comes one page per module opened. The manager
  records which page each module name was loaded on and which module each
  page holds. It also records the page on show and the page "forward" would
  return to. Python's `None` is `Option.None`. Where `get_module_from_index`
  and `get_current_module` raise `KeyError` in Python, the model returns
  `None`. `get_module_and_index` instead takes a loaded name as a
  precondition, which its one caller checks first.
- **The column count** (`Columns`). This is the number of button columns the
  tweaks page lays out for the width it is allocated.
- **The tweaks page** (`CategoryGrid` and `Tweaks`). Each category box holds
  a table of module buttons. Its `RebuildTable` skips the rebuild when the
  column count and the number of modules are unchanged. Otherwise it places
  the buttons whose module is still listed row by row. `TweaksPage.RebuildBoxes`
  walks the boxes in order. It removes from the page a box whose category has
  no modules left. It packs a box with modules back into its place, if it was
  off the page, and rebuilds that box's table. The walk is split into four
  methods so that each proof stays small:
  - `WalkBoxes` sets the walk up and states its outcome;
  - `PlaceAll` is the loop;
  - `PlaceBox` is one turn of the loop;
  - `Visit` is that turn's effect on the page.

The source's classes update their fields in place, and the model keeps them as
classes. `JumpManager`, `CategoryBox` and `TweaksPage` are Dafny classes
whose methods state their new state. The three sequence walks are `for`
loops with invariants:
- the placement loop of `rebuild_table` (`AttachAll`);
- the category loop of the `TweaksPage` constructor (`MakeBoxes`);
- the box loop of `rebuild_boxes` (`PlaceAll`).

Each loop's result is tied to a specification function. The placement loop
is tied to `Layout` of `Qualifying`. The category loop is tied to `Kept` of
`Listed`. The box loop is tied to `Kept` of `HasModules`. The properties of
those functions are proved as lemmas.

Several things become parameters of the model:
- the module loader's category lists are passed to the `TweaksPage`
  constructor;
- the allocated width is passed to `RebuildBoxes`;
- the notebook's page indices are passed to `SetFixedPages` and
  `StoreCurrentModule`.

## Model

| member | source | states |
|---|---|---|
| Navigation.JumpManager.constructor | ubuntutweak/app.py:220-231 | every index is unset, both maps are empty, neither back nor forward is offered, and no name is loaded |
| Navigation.JumpManager.SetFixedPages | ubuntutweak/app.py:316-319 | the overview, apps, tweaks and wait indices record the four pages the window appended |
| Navigation.JumpManager.CanBackwards | ubuntutweak/app.py:236-238 | back is offered while some page is current and it is not the tweaks page; the constructor, `GetBackwardsIndex` and `StoreCurrentModule` state their effect on it |
| Navigation.JumpManager.CanForward | ubuntutweak/app.py:240-242 | forward is offered while a page is pending and it is not the current page; the constructor, `GetBackwardsIndex`, `GetForwardIndex` and `StoreCurrentModule` state their effect on it |
| Navigation.JumpManager.ModuleIsLoaded | ubuntutweak/app.py:255-256 | a name is loaded when a page is recorded for it; `StoreCurrentModule` makes its name loaded, and `GetModuleAndIndex` needs a loaded name |
| Navigation.JumpManager.GetBackwardsIndex | ubuntutweak/app.py:244-247 | back lands on the tweaks page and returns its index; the page left becomes the forward target; back is then no longer offered, and forward is offered whenever back was |
| Navigation.JumpManager.GetForwardIndex | ubuntutweak/app.py:249-253 | forward returns the pending page and makes it current; nothing is pending afterwards, so forward is no longer offered; with nothing pending it returns None and leaves no page current |
| Navigation.JumpManager.StoreCurrentModule | ubuntutweak/app.py:258-263 | the name is rebound to the page (last write wins) and the page to the module; the page becomes current and pending; the name is loaded and looks up to (module, page); the current module is that module; forward is not offered; back is offered exactly when the page is not the tweaks page; every loaded name still resolves to a module |
| Navigation.JumpManager.GetModuleAndIndex | ubuntutweak/app.py:265-268 | for a loaded name, returns the page recorded for it and the module on that page |
| Navigation.JumpManager.GetModuleFromIndex | ubuntutweak/app.py:270-271 | returns a module exactly when a module is recorded on that page, and it is that module; otherwise None, where Python raises KeyError |
| Navigation.JumpManager.GetCurrentModule | ubuntutweak/app.py:273-274 | returns the module on the current page exactly when one is recorded there, and None otherwise |
| Navigation.BackThenForward | ubuntutweak/app.py:444-466 | from a page where back is offered: back returns the tweaks index, forward is then offered, and forward returns to the page left; afterwards nothing is pending |
| Navigation.OpenBackForward | ubuntutweak/app.py:316-319 | with fixed pages 0-3, back is not offered at start; after a module is stored on page 4, back goes to page 2, which holds no module, forward returns 4, and then forward is not offered |
| Columns.GridWidth | ubuntutweak/app.py:195 | the width a grid of n columns asks for: n cells of 172 pixels (a 164-pixel button padded by 4 on each side) plus the 40-pixel margin; `WidestFit`, `ColumnCount` and `FittingColumns` measure every grid with it |
| Columns.ColumnCount | ubuntutweak/app.py:193-197 | the count as written is at most width div 164, and at least -1 for any non-negative width |
| Columns.FittingColumns | ubuntutweak/app.py:193-197 | the corrected count is the widest grid of 172-pixel cells plus a 40-pixel margin that fits the width |
| Columns.WidestFitUnique | ubuntutweak/app.py:193-197 | at most one column count is the widest fit for a width |
| Columns.ColumnCountFits | ubuntutweak/app.py:193-197 | below 2788 pixels, the single decrement as written always yields the widest fitting grid |
| Columns.ColumnCountAgrees | ubuntutweak/app.py:193-197 | below 2788 pixels, the count as written equals the corrected count |
| Columns.ColumnCountOverflows | ubuntutweak/app.py:193-197 | at 2788 pixels the count as written is 16, whose grid needs 2792 pixels; the widest fit is 15 |
| Columns.PositiveColumns | ubuntutweak/app.py:193-197 | for every non-negative width, at least one column exactly from 212 pixels on; -1 below the 40-pixel margin; 0 between 40 and 211 |
| Columns.ColumnCountExamples | ubuntutweak/app.py:193-197 | 400 pixels give 2 columns, 360 give 1, 100 give 0 and 30 give -1 |
| CategoryGrid.CategoryBox.constructor | ubuntutweak/app.py:94-115 | the box keeps its module list and makes one button per module, in order (`ButtonsFor`); the cached column count, module count and table start empty |
| CategoryGrid.CategoryBox.RebuildTable | ubuntutweak/app.py:122-144 | the cached column count and module count are updated; unforced, the cache becomes `Refreshed` of the old cache: the table is left as it was when neither count changed, and otherwise it is exactly the qualifying buttons laid out in the given column count; forced, the table is always laid out afresh |
| CategoryGrid.Qualifying | ubuntutweak/app.py:136-137 | the buttons placed are never more than the buttons |
| CategoryGrid.QualifyingStep | ubuntutweak/app.py:136-137 | looking at one more button appends it exactly when its module is still listed |
| CategoryGrid.QualifyingMembers | ubuntutweak/app.py:136-137 | a button is placed exactly when it is one of the box's buttons and its module is still listed |
| CategoryGrid.Cell | ubuntutweak/app.py:134-143 | the column and row of the k-th placed button, stepped as the loop steps `col` and `row`; `CellInGrid` and `CellRowMajor` state its properties |
| CategoryGrid.CellInGrid | ubuntutweak/app.py:134-143 | the k-th button's column and row are both between 0 and k, and with n >= 1 columns its column is below n |
| CategoryGrid.CellRowMajor | ubuntutweak/app.py:134-143 | with n >= 1 columns, the k-th placed button goes to column k mod n, row k div n |
| CategoryGrid.CellOneRow | ubuntutweak/app.py:134-143 | with a column count below 1 the column never wraps, so the k-th button goes to column k of row 0 |
| CategoryGrid.Layout | ubuntutweak/app.py:134-143 | the table has one attachment per placed button |
| CategoryGrid.LayoutStep | ubuntutweak/app.py:136-143 | placing one more button appends its attachment in the next cell |
| CategoryGrid.LayoutAt | ubuntutweak/app.py:136-143 | the k-th attachment is the k-th placed button in the k-th cell, one column wide and one row tall |
| CategoryGrid.LayoutInColumns | ubuntutweak/app.py:134-143 | with n >= 1 columns, the k-th attachment spans columns k mod n to k mod n + 1 and rows k div n to k div n + 1; its column is below n and its row is not negative |
| CategoryGrid.AttachAll | ubuntutweak/app.py:134-143 | the loop attaches exactly the buttons whose module is still listed, in button order, each in the next cell of the row-major grid: the result is `Layout` of `Qualifying` |
| CategoryGrid.LayoutDistinct | ubuntutweak/app.py:134-143 | whatever the column count, no two buttons share a cell |
| Tweaks.TweaksPage.constructor | ubuntutweak/app.py:158-181 | the boxes are exactly one fresh box per category that lists modules, in the loader's order, the j-th holding the j-th such category's modules and one button per module, in order, each with an empty cache; all of them are on the page, in order |
| Tweaks.MakeBoxes | ubuntutweak/app.py:170-176 | one fresh box per category that lists modules, in order, all distinct; the j-th box holds the j-th such category's modules and one button per module, in order, and has an empty cache |
| Tweaks.AppendBox | ubuntutweak/app.py:173-176 | appending the box made for one more category keeps the boxes distinct, keeps the boxes before it, and gives the new box that category's modules, one button per module in order, and an empty cache |
| Tweaks.ListedAt | ubuntutweak/app.py:171-172 | the k-th flag says whether the k-th category lists any modules |
| Tweaks.TweaksPage.RebuildBoxes | ubuntutweak/app.py:193-212 | afterwards the page shows exactly the boxes that have modules, in box order; each such box's cache is the unforced rebuild for the column count as written (`ColumnCount` of the width); a box without modules keeps its cache |
| Tweaks.WalkBoxes | ubuntutweak/app.py:199-212 | the walk leaves on the page exactly the boxes with modules, in order, whatever subsequence of boxes was on it before; it rebuilds each box with modules and leaves the others' caches alone |
| Tweaks.PlaceAll | ubuntutweak/app.py:202-212 | after the last box the page is the boxes with modules, in order, and every box with modules holds the unforced rebuild of its earlier cache while the others keep theirs |
| Tweaks.PlaceBox | ubuntutweak/app.py:203-212 | one turn moves the walk past the i-th box: the page stays the visited boxes with modules followed by the pending boxes that were shown, and the i-th box's cache is rebuilt exactly when it has modules while every other box's cache is as the walk left it |
| Tweaks.Visit | ubuntutweak/app.py:203-212 | the page is always the boxes visited that have modules, followed by the not yet visited boxes that were on the page; the position counts the boxes placed |
| Tweaks.WalkRemove | ubuntutweak/app.py:204-206 | taking out a box that is on the page but has no modules keeps the page in that visited-then-pending form |
| Tweaks.WalkInsert | ubuntutweak/app.py:207-210 | packing a box with modules at the end and moving it to the position of the boxes placed so far keeps the page in that form |
| Tweaks.WalkSame | ubuntutweak/app.py:202-212 | a box already where it belongs (on the page with modules, or off it without) leaves the page unchanged |
| Tweaks.KeptPending | ubuntutweak/app.py:199-212 | the boxes visited and those pending together are all the flagged boxes |
| Tweaks.KeptMembers | ubuntutweak/app.py:202-212 | among distinct boxes, a box is among the first i kept exactly when it comes before i and is flagged |
| Tweaks.PendingMembers | ubuntutweak/app.py:202-212 | among distinct boxes, a box is pending from i exactly when it comes at or after i and is flagged |
| Tweaks.KeptFlags | ubuntutweak/app.py:201-212 | the page determines which boxes are on it: each box's membership in the kept boxes is its flag |
| Tweaks.KeptEverything | ubuntutweak/app.py:170-176 | a page holding every box, in order, is the boxes kept when every box is flagged as shown |
| Tweaks.WithoutMiddle | ubuntutweak/app.py:206 | removing a box that occurs once between two runs without it leaves the two runs |
| Tweaks.HasModulesAt | ubuntutweak/app.py:203-204 | the i-th flag says whether the i-th box has modules |
| Tweaks.MembershipAt | ubuntutweak/app.py:201-205 | the i-th flag says whether the i-th box was on the page when the walk began |

## Left out

- The GTK widgets are not modelled. This covers the header label, spacing,
  table padding (`xpadding`, `ypadding`), `show_all`, the viewport, the
  scrolled window, signals and `on_button_clicked`. A table is modelled as
  the sequence of its attach calls. A vertical box is modelled as the
  sequence of its children.
- The module loader and its I/O are not modelled. Its category lists are the
  `categories` parameter of the `TweaksPage` constructor.
- Only what the window does to the jump manager is modelled. That is the
  fixed pages and the back/forward calls in `BackThenForward` and
  `OpenBackForward`. Notebook switching, module creation, the splash screen,
  the single-instance application and the toggle handlers are left out.
- The `JumpManager.get_current_index` stub does nothing and returns `None`,
  so it is not modelled.
- The constructor initialises `app_index`, but the window sets `apps_index`.
  The model has one field, `appsIndex`, which is unset at first and set by
  `SetFixedPages`. The unused `app_index` attribute is not modelled.
- `store_current_module` writes a log line. Logging is not modelled.
- Navigation.JumpManager.GetModuleAndIndex: requires the name to be loaded.
  Python raises `KeyError` otherwise. Its one caller checks
  `module_is_loaded` first (line 375-376).
- The jump manager's invariant `Valid()`
  (every loaded name's page holds a module) is a consequence of
  `StoreCurrentModule` always writing both maps. Direct writes to the
  dictionaries from outside the class are not modelled.
- `reorder_child(box, pos)` after `pack_start` is modelled as inserting the
  box at position `pos`. `remove` is modelled as deleting the box from the
  children.
- `last_box` in `rebuild_boxes` is assigned but never read, so it is not
  modelled.
- Python's integer `/` on the request width floors. Dafny's `/` by a
  positive divisor agrees for every width, so no extra modelling was needed.
- `RebuildBoxes` uses the column count as written, `ColumnCount`, as the
  source does. The walk, `Tweaks.WalkBoxes`, takes the column count as a
  parameter, so its contract holds for the corrected `FittingColumns` too.
- A category box's module list is the same list the loader holds. Changes
  made to it from outside are modelled by `modules` being a mutable field
  that the walk reads.

## Findings

| source | as written | input that shows it | evidently intended | confidence | as-written member | corrected member |
|---|---|---|---|---|---|---|
| ubuntutweak/app.py:193-197 | the column count is width div 164, decreased once if the padded grid is wider than the window | width 2788: 2788 div 164 = 17; 17 columns need 2964 pixels, so the count drops to 16; but 16 columns need 16 * 172 + 40 = 2792 > 2788, so the grid is still too wide | the widest number of 172-pixel columns that, with the 40-pixel margin, fits the width: (width - 40) div 172 = 15 | not executed; medium: widths of 2788 and more are rare | Columns.ColumnCountOverflows | Columns.FittingColumns |
