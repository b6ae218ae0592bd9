/** A row of columns laid out left to right (src/table_model.rs): how many
    of the rightmost columns fit the width, which of them are shown, and
    the area each shown column gets. */
module Table {
  import opened Types

  // ---------------------------------------------------------------------
  // Column widths

  /** The column asks for a fixed horizontal length. */
  predicate IsLength(c: Column) {
    c.constraint.Horizontal? && c.constraint.h.Length?
  }

  /** The fixed length a column asks for (0 for any other constraint). */
  function LengthOf(c: Column): nat {
    if IsLength(c) then c.constraint.h.length else 0
  }

  /** Every column from index `k` on asks for a fixed length. */
  predicate AllLengthFrom(cols: seq<Column>, k: nat) {
    forall j :: k <= j < |cols| ==> IsLength(cols[j])
  }

  /** The summed lengths of the columns from index `k` on. */
  function WidthFrom(cols: seq<Column>, k: nat): nat
    decreases |cols| - k
  {
    if k >= |cols| then 0 else LengthOf(cols[k]) + WidthFrom(cols, k + 1)
  }

  // ---------------------------------------------------------------------
  // `amount_of_visible_columns`

  /** The count reached once the columns from `k` on are counted: the next
      column to the left must ask for a length, and it is counted when the
      running sum still fits the width. */
  function VisibleScan(cols: seq<Column>, width: nat, k: nat): Result<nat, Failure>
    requires k <= |cols|
  {
    if k == 0 then Ok(|cols|)
    else if !IsLength(cols[k - 1]) then Err(Fail)
    else if WidthFrom(cols, k - 1) > width then Ok(|cols| - k)
    else VisibleScan(cols, width, k - 1)
  }

  /** How many columns, counted from the right, fit the width. */
  function VisibleCount(cols: seq<Column>, width: nat): (r: Result<nat, Failure>)
    ensures r.Ok? ==> r.value <= |cols|
  {
    VisibleScanBound(cols, width, |cols|);
    VisibleScan(cols, width, |cols|)
  }

  lemma {:induction false} VisibleScanBound(cols: seq<Column>, width: nat, k: nat)
    requires k <= |cols|
    ensures VisibleScan(cols, width, k).Ok? ==> |cols| - k <= VisibleScan(cols, width, k).value <= |cols|
  {
    if k > 0 && IsLength(cols[k - 1]) && WidthFrom(cols, k - 1) <= width {
      VisibleScanBound(cols, width, k - 1);
    }
  }

  /** `amount_of_visible_columns` (src/table_model.rs:12-37): walks the
      columns from the right, adding up their lengths, and stops at the
      first one that no longer fits. */
  method AmountOfVisibleColumns(cols: seq<Column>, width: nat) returns (r: Result<nat, Failure>)
    ensures r == VisibleCount(cols, width)
  {
    var count := 0;
    var total := 0;
    while count < |cols|
      invariant count <= |cols|
      invariant total == WidthFrom(cols, |cols| - count) && total <= width
      invariant VisibleScan(cols, width, |cols|) == VisibleScan(cols, width, |cols| - count)
    {
      var column := cols[|cols| - 1 - count];
      if !IsLength(column) {
        return Err(Fail);
      }
      total := total + column.constraint.h.length;
      if total > width {
        break;
      }
      count := count + 1;
    }
    return Ok(count);
  }

  lemma {:induction false} VisibleScanFits(cols: seq<Column>, width: nat, k: nat)
    requires k <= |cols| && AllLengthFrom(cols, k) && WidthFrom(cols, k) <= width
    ensures var r := VisibleScan(cols, width, k);
      r.Ok? ==> && r.value <= |cols|
                && AllLengthFrom(cols, |cols| - r.value) && WidthFrom(cols, |cols| - r.value) <= width
                && (r.value < |cols| ==> IsLength(cols[|cols| - r.value - 1]) && WidthFrom(cols, |cols| - r.value - 1) > width)
  {
    if k > 0 && IsLength(cols[k - 1]) && WidthFrom(cols, k - 1) <= width {
      VisibleScanFits(cols, width, k - 1);
    }
  }

  /** The count is the largest number of rightmost columns whose lengths
      fit the width: those columns fit, and one more would not. */
  lemma VisibleCountFits(cols: seq<Column>, width: nat)
    ensures var r := VisibleCount(cols, width);
      r.Ok? ==> && AllLengthFrom(cols, |cols| - r.value) && WidthFrom(cols, |cols| - r.value) <= width
                && (r.value < |cols| ==> IsLength(cols[|cols| - r.value - 1]) && WidthFrom(cols, |cols| - r.value - 1) > width)
  {
    VisibleScanFits(cols, width, |cols|);
  }

  lemma {:induction false} VisibleScanFails(cols: seq<Column>, width: nat, k: nat)
    requires k <= |cols| && AllLengthFrom(cols, k) && WidthFrom(cols, k) <= width
    ensures VisibleScan(cols, width, k).Err? <==>
      exists j :: 0 <= j < k && !IsLength(cols[j]) && AllLengthFrom(cols, j + 1) && WidthFrom(cols, j + 1) <= width
  {
    if k > 0 {
      if IsLength(cols[k - 1]) {
        if WidthFrom(cols, k - 1) <= width {
          VisibleScanFails(cols, width, k - 1);
        } else {
          if exists j :: 0 <= j < k && !IsLength(cols[j]) && AllLengthFrom(cols, j + 1) && WidthFrom(cols, j + 1) <= width {
            var j :| 0 <= j < k && !IsLength(cols[j]) && AllLengthFrom(cols, j + 1) && WidthFrom(cols, j + 1) <= width;
            WidthFromMonotone(cols, j + 1, k - 1);
          }
        }
      } else {
        assert AllLengthFrom(cols, k - 1 + 1);
      }
    }
  }

  /** Dropping columns on the left never widens the sum. */
  lemma {:induction false} WidthFromMonotone(cols: seq<Column>, i: nat, j: nat)
    requires i <= j
    ensures WidthFrom(cols, j) <= WidthFrom(cols, i)
    decreases j - i
  {
    if i < j {
      WidthFromMonotone(cols, i + 1, j);
    }
  }

  /** Counting fails exactly when it reaches a column with no fixed
      length: one whose right-hand neighbours all fit. */
  lemma VisibleCountFails(cols: seq<Column>, width: nat)
    ensures VisibleCount(cols, width).Err? <==>
      exists j :: 0 <= j < |cols| && !IsLength(cols[j]) && AllLengthFrom(cols, j + 1) && WidthFrom(cols, j + 1) <= width
  {
    VisibleScanFails(cols, width, |cols|);
  }

  // ---------------------------------------------------------------------
  // `split_area_horizontally`

  /** Two rectangles side by side, glued back into one. */
  function Merge(left: Rect, right: Rect): Rect {
    Rect(left.x, left.y, left.width + right.width, left.height)
  }

  /** `split_area_horizontally` (src/table_model.rs:40-54): cuts `fromLeft`
      columns off the left of the area, or nothing when the area is
      narrower than that. */
  function SplitHorizontally(area: Rect, fromLeft: nat): (r: Option<(Rect, Rect)>)
    ensures r.Some? <==> fromLeft <= area.width
    ensures r.Some? ==> Merge(r.value.0, r.value.1) == area
    ensures r.Some? ==> var (left, right) := r.value;
      && left.width == fromLeft
      && right.x == left.x + left.width && right.y == left.y && right.height == left.height
  {
    if area.width < fromLeft then None
    else Some((Rect(area.x, area.y, fromLeft, area.height),
               Rect(area.x + fromLeft, area.y, area.width - fromLeft, area.height)))
  }

  // ---------------------------------------------------------------------
  // The areas of the shown columns

  /** The areas the columns from `k` on get, left to right in what is left
      of `area`, until one no longer fits; a column with no fixed length
      is an error. */
  function Tile(shown: seq<Column>, k: nat, area: Rect): (r: Result<seq<Rect>, Failure>)
    requires k <= |shown|
    ensures r.Ok? ==> |r.value| <= |shown| - k
    decreases |shown| - k
  {
    if k == |shown| then Ok([])
    else if !IsLength(shown[k]) then Err(Fail)
    else match SplitHorizontally(area, LengthOf(shown[k])) {
      case None => Ok([])
      case Some((left, right)) =>
        var rest :- Tile(shown, k + 1, right);
        Ok([left] + rest)
    }
  }

  /** The areas placed so far, followed by those still to come. */
  function Prefixed(areas: seq<Rect>, t: Result<seq<Rect>, Failure>): Result<seq<Rect>, Failure> {
    if t.Ok? then Ok(areas + t.value) else t
  }

  /** The summed widths of some areas. */
  function AreasWidth(areas: seq<Rect>): nat {
    if |areas| == 0 then 0 else areas[0].width + AreasWidth(areas[1..])
  }

  /** Placed areas sit side by side from the left edge of the area: each
      is as wide as its column asks, on the same row and height, and
      together they fit the area. */
  lemma {:induction false} TileLayout(shown: seq<Column>, k: nat, area: Rect)
    requires k <= |shown| && Tile(shown, k, area).Ok?
    ensures var areas := Tile(shown, k, area).value;
      && AreasWidth(areas) <= area.width
      && (|areas| > 0 ==> areas[0].x == area.x)
      && (forall j :: 0 <= j < |areas| ==>
            areas[j].width == LengthOf(shown[k + j]) && areas[j].y == area.y && areas[j].height == area.height)
      && (forall j :: 0 <= j < |areas| - 1 ==> areas[j + 1].x == areas[j].x + areas[j].width)
    decreases |shown| - k
  {
    if k < |shown| && IsLength(shown[k]) && LengthOf(shown[k]) <= area.width {
      var (left, right) := SplitHorizontally(area, LengthOf(shown[k])).value;
      TileLayout(shown, k + 1, right);
      var areas := Tile(shown, k, area).value;
      var rest := Tile(shown, k + 1, right).value;
      assert areas == [left] + rest;
      assert areas[1..] == rest;
      forall j | 0 <= j < |areas|
        ensures areas[j].width == LengthOf(shown[k + j]) && areas[j].y == area.y && areas[j].height == area.height
      {
        if j > 0 {
          assert areas[j] == rest[j - 1];
        }
      }
    }
  }

  /** Columns that all ask for a length and together fit the area are all
      placed. */
  lemma {:induction false} TilePlacesAll(shown: seq<Column>, k: nat, area: Rect)
    requires k <= |shown| && AllLengthFrom(shown, k) && WidthFrom(shown, k) <= area.width
    ensures Tile(shown, k, area).Ok? && |Tile(shown, k, area).value| == |shown| - k
    decreases |shown| - k
  {
    if k < |shown| {
      assert IsLength(shown[k]);
      var right := SplitHorizontally(area, LengthOf(shown[k])).value.1;
      TilePlacesAll(shown, k + 1, right);
    }
  }

  /** Columns that all ask for a length are never an error to place. */
  lemma {:induction false} TileLengthsOk(shown: seq<Column>, k: nat, area: Rect)
    requires k <= |shown| && AllLengthFrom(shown, k)
    ensures Tile(shown, k, area).Ok?
    decreases |shown| - k
  {
    if k < |shown| {
      assert IsLength(shown[k]);
      var split := SplitHorizontally(area, LengthOf(shown[k]));
      if split.Some? {
        TileLengthsOk(shown, k + 1, split.value.1);
      }
    }
  }

  /** The columns with their areas from `areas`, starting at index `from`. */
  function Placed(cols: seq<Column>, from: nat, areas: seq<Rect>): (r: seq<Column>)
    requires from + |areas| <= |cols|
    ensures |r| == |cols|
  {
    seq(|cols|, j requires 0 <= j < |cols| =>
      if from <= j < from + |areas| then cols[j].(area := areas[j - from]) else cols[j])
  }

  // ---------------------------------------------------------------------
  // `split_area`

  /** The shown columns as a range of all columns, given how many fit: one
      that fits alone is the last column if it is active and the one
      before it (the column under the cursor, left of its preview)
      otherwise; any other count shows that many from the right. */
  function ShownRange(cols: seq<Column>, visible: nat): (r: (nat, nat))
    requires visible <= |cols|
    ensures r.0 <= r.1 <= |cols| && r.1 - r.0 == visible
  {
    if visible == 1 then
      if |cols| == 1 then (0, 1)
      else if cols[|cols| - 1].isActive then (|cols| - 1, |cols|)
      else (|cols| - 2, |cols| - 1)
    else (|cols| - visible, |cols|)
  }

  /** `split_area` on values: the result, the columns, and the shown
      columns (left as they were when counting fails). */
  function SplitAreaSpec(cols: seq<Column>, area: Rect, shown: seq<Column>): (r: (Result<(), Failure>, seq<Column>, seq<Column>))
    ensures |r.1| == |cols|
  {
    match VisibleCount(cols, area.width) {
      case Err(e) => (Err(e), cols, shown)
      case Ok(visible) =>
        var (from, to) := ShownRange(cols, visible);
        match Tile(cols[from..to], 0, area) {
          case Err(e) => (Err(e), cols, cols[from..to])
          case Ok(areas) =>
            var placed := Placed(cols, from, areas);
            (Ok(()), placed, placed[from..to])
        }
    }
  }

  /** Once the count succeeds, placing the shown columns cannot fail:
      every shown column was looked at by the count. */
  lemma SplitAreaOk(cols: seq<Column>, area: Rect, shown: seq<Column>)
    ensures SplitAreaSpec(cols, area, shown).0.Ok? <==> VisibleCount(cols, area.width).Ok?
  {
    var v := VisibleCount(cols, area.width);
    if v.Ok? {
      VisibleCountFits(cols, area.width);
      var (from, to) := ShownRange(cols, v.value);
      if v.value == 1 && |cols| > 1 && !cols[|cols| - 1].isActive {
        assert IsLength(cols[|cols| - 2]);
      }
      assert AllLengthFrom(cols[from..to], 0) by {
        forall j | 0 <= j < to - from
          ensures IsLength(cols[from..to][j])
        {
          assert cols[from..to][j] == cols[from + j];
        }
      }
      TileLengthsOk(cols[from..to], 0, area);
    }
  }

  /** After a successful split the shown columns are the range picked by
      `ShownRange`, aliasing the columns: they are exactly the columns at
      those indices, areas included. Columns only ever change their area. */
  lemma SplitAreaShows(cols: seq<Column>, area: Rect, shown: seq<Column>)
    requires SplitAreaSpec(cols, area, shown).0.Ok?
    ensures var (_, placed, show) := SplitAreaSpec(cols, area, shown);
      var (from, to) := ShownRange(cols, VisibleCount(cols, area.width).value);
      && show == placed[from..to]
      && (forall j :: 0 <= j < |cols| ==> placed[j] == cols[j].(area := placed[j].area))
      && (forall j :: 0 <= j < |cols| && !(from <= j < to) ==> placed[j] == cols[j])
  {
  }

  /** Columns side by side from the left edge of `area`, each as wide as
      it asks and as high as the area. */
  predicate LaidOut(show: seq<Column>, area: Rect) {
    && (|show| > 0 ==> show[0].area.x == area.x)
    && (forall j :: 0 <= j < |show| ==>
          show[j].area.width == LengthOf(show[j]) && show[j].area.y == area.y && show[j].area.height == area.height)
    && (forall j :: 0 <= j < |show| - 1 ==> show[j + 1].area.x == show[j].area.x + show[j].area.width)
  }

  /** When more than one column fits, or the only column shown is the last
      one, every shown column is placed, side by side from the left edge
      of the table's area, each as wide as it asks. */
  lemma SplitAreaPlacesShown(cols: seq<Column>, area: Rect, shown: seq<Column>)
    requires VisibleCount(cols, area.width).Ok?
    requires var v := VisibleCount(cols, area.width).value; v != 1 || |cols| == 1 || cols[|cols| - 1].isActive
    ensures var (_, placed, show) := SplitAreaSpec(cols, area, shown);
      |show| == VisibleCount(cols, area.width).value && LaidOut(show, area)
  {
    var v := VisibleCount(cols, area.width).value;
    VisibleCountFits(cols, area.width);
    var (from, to) := ShownRange(cols, v);
    assert from == |cols| - v && to == |cols|;
    var s := cols[from..to];
    SuffixLengths(cols, from);
    assert s == cols[from..];
    TilePlacesAll(s, 0, area);
    var areas := Tile(s, 0, area).value;
    assert SplitAreaSpec(cols, area, shown).2 == Placed(cols, from, areas)[from..to];
    PlacedRange(cols, from, to, areas);
    TiledLaidOut(s, areas, area, Placed(cols, from, areas)[from..to]);
  }

  /** Columns given the areas the tiling made for them are laid out. */
  lemma TiledLaidOut(s: seq<Column>, areas: seq<Rect>, area: Rect, show: seq<Column>)
    requires Tile(s, 0, area) == Ok(areas) && |show| == |areas| == |s|
    requires forall j :: 0 <= j < |show| ==> show[j] == s[j].(area := areas[j])
    ensures LaidOut(show, area)
  {
    TileLayout(s, 0, area);
    forall j | 0 <= j < |show|
      ensures LengthOf(show[j]) == LengthOf(s[j])
    {
    }
  }

  /** A suffix of columns that all ask for a length, seen on its own. */
  lemma SuffixLengths(cols: seq<Column>, from: nat)
    requires from <= |cols| && AllLengthFrom(cols, from)
    ensures AllLengthFrom(cols[from..], 0) && WidthFrom(cols[from..], 0) == WidthFrom(cols, from)
  {
    forall j | 0 <= j < |cols| - from
      ensures IsLength(cols[from..][j])
    {
      assert cols[from..][j] == cols[from + j];
    }
    WidthFromSuffix(cols, from, 0);
  }

  /** Placing areas over a full range gives the range's columns their
      areas and nothing else. */
  lemma PlacedRange(cols: seq<Column>, from: nat, to: nat, areas: seq<Rect>)
    requires from <= to <= |cols| && |areas| == to - from
    ensures var show := Placed(cols, from, areas)[from..to];
      forall j :: 0 <= j < |show| ==> show[j] == cols[from..to][j].(area := areas[j])
  {
  }

  /** The summed lengths of a suffix of columns, counted inside the suffix. */
  lemma {:induction false} WidthFromSuffix(cols: seq<Column>, from: nat, k: nat)
    requires from <= |cols|
    ensures WidthFrom(cols[from..], k) == WidthFrom(cols, from + k)
    decreases |cols| - from - k
  {
    if from + k < |cols| {
      WidthFromSuffix(cols, from, k + 1);
      assert cols[from..][k] == cols[from + k];
    }
  }

  // ---------------------------------------------------------------------
  // `update`

  /** Whether the new columns bring the active column: one of the last
      two of them is active. */
  function NewActive(newColumns: seq<Column>): (r: bool)
    ensures r <==> exists j :: |newColumns| - 2 <= j < |newColumns| && 0 <= j && newColumns[j].isActive
  {
    if |newColumns| >= 2 then
      newColumns[|newColumns| - 2].isActive || newColumns[|newColumns| - 1].isActive
    else if |newColumns| == 1 then newColumns[0].isActive
    else false
  }

  /** The kept columns after the move: the highlight and the active flag
      of the last one or two change, depending on the direction. A move to
      the right with no column left is an error. */
  function Retouched(kept: seq<Column>, dir: CursorDirection, highlight: Option<nat>, newActive: bool): (r: Result<seq<Column>, Failure>)
  {
    var n := |kept|;
    match dir {
      case Up => Ok(if n >= 1 then kept[n - 1 := kept[n - 1].(highlightIndex := highlight, isActive := !newActive)] else kept)
      case Down => Ok(if n >= 1 then kept[n - 1 := kept[n - 1].(highlightIndex := highlight, isActive := !newActive)] else kept)
      case Right =>
        if n >= 2 then Ok(kept[n - 2 := kept[n - 2].(isActive := false)][n - 1 := kept[n - 1].(highlightIndex := highlight, isActive := true)])
        else if n == 1 then Ok([kept[0].(isActive := true)])
        else Err(Fail)
      case Left => Ok(if n >= 1 then kept[n - 1 := kept[n - 1].(isActive := true)] else kept)
    }
  }

  /** The move leaves the number of columns alone and touches at most the
      last two, and only in their highlight and active flag; to the right
      it fails exactly when no column is left. */
  lemma RetouchedKeeps(kept: seq<Column>, dir: CursorDirection, highlight: Option<nat>, newActive: bool)
    ensures var r := Retouched(kept, dir, highlight, newActive);
      && (r.Err? <==> dir == Right && |kept| == 0)
      && (r.Ok? ==> && |r.value| == |kept|
                    && (forall j :: 0 <= j < |kept| - 2 ==> r.value[j] == kept[j])
                    && (forall j :: 0 <= j < |kept| ==>
                          r.value[j] == kept[j].(highlightIndex := r.value[j].highlightIndex, isActive := r.value[j].isActive)))
  {
  }

  /** After a move up or down the last kept column holds the new highlight,
      and it stays active exactly when the new columns bring no active
      column. After a move to the right it is active and holds the
      highlight (when a column is left of it) and its left neighbour is
      not active; after a move to the left it is active. */
  lemma RetouchedLast(kept: seq<Column>, dir: CursorDirection, highlight: Option<nat>, newActive: bool)
    requires |kept| > 0
    ensures var r := Retouched(kept, dir, highlight, newActive).value;
      var last := r[|r| - 1];
      && ((dir == Up || dir == Down) ==> last.highlightIndex == highlight && (last.isActive <==> !newActive))
      && (dir == Right ==> last.isActive && (|kept| >= 2 ==> last.highlightIndex == highlight && !r[|r| - 2].isActive))
      && (dir == Left ==> last.isActive && last.highlightIndex == kept[|kept| - 1].highlightIndex)
  {
  }

  /** The columns kept by a drain. */
  function Drained(cols: seq<Column>, drain: Option<nat>): (r: seq<Column>)
    requires drain.Some? ==> drain.value <= |cols|
    ensures drain.Some? ==> r == cols[..drain.value]
    ensures drain.None? ==> r == cols
  {
    if drain.Some? then cols[..drain.value] else cols
  }

  /** `TableModel`: the table's area, all its columns, and the columns shown.
      The shown columns are shared with the list of all columns in the
      source; here they are copies, equal to a range of that list after
      every successful split. */
  class TableModel {
    var area: Rect
    var hideColumns: seq<Column>
    var showColumns: seq<Column>
    var transparent: bool
    var constraint: DirectionalConstraint

    /** `TableModel::default`. */
    constructor()
      ensures area == DEFAULT_RECT && hideColumns == [] && showColumns == []
    {
      area := DEFAULT_RECT;
      hideColumns := [];
      showColumns := [];
      transparent := false;
      constraint := Undefined;
    }

    /** `split_area` (src/table_model.rs:81-151): counts the columns that
        fit, picks the shown ones, cuts their areas off the table's area
        from the left, and hands each shown column its area. */
    method SplitArea() returns (r: Result<(), Failure>)
      modifies this`hideColumns, this`showColumns
      ensures (r, hideColumns, showColumns) == SplitAreaSpec(old(hideColumns), area, old(showColumns))
    {
      var visible :- AmountOfVisibleColumns(hideColumns, area.width);
      var len := |hideColumns|;
      var from, to;
      if visible == 1 {
        if len == 1 {
          from, to := 0, 1;
        } else if hideColumns[len - 1].isActive {
          from, to := len - 1, len;
        } else {
          from, to := len - 2, len - 1;
        }
      } else {
        from, to := len - visible, len;
      }
      assert (from, to) == ShownRange(hideColumns, visible);
      showColumns := hideColumns[from..to];
      var areas := PlaceShown(showColumns, area);
      if areas.Err? {
        return Err(areas.error);
      }
      AssignAreas(from, to, areas.value);
      r := Ok(());
    }

    /** The zip of `split_area` (src/table_model.rs:142-148): the `k`-th
        shown column takes the `k`-th area, in both lists. */
    method AssignAreas(from: nat, to: nat, areas: seq<Rect>)
      requires from <= to <= |hideColumns| && |areas| <= to - from
      requires showColumns == hideColumns[from..to]
      modifies this`hideColumns, this`showColumns
      ensures hideColumns == Placed(old(hideColumns), from, areas)
      ensures showColumns == hideColumns[from..to]
    {
      ghost var cols := hideColumns;
      for j := 0 to |areas|
        invariant hideColumns == Placed(cols, from, areas[..j])
        invariant showColumns == hideColumns[from..to]
      {
        hideColumns := hideColumns[from + j := hideColumns[from + j].(area := areas[j])];
        showColumns := showColumns[j := showColumns[j].(area := areas[j])];
      }
      assert areas[..|areas|] == areas;
    }

    /** `area_update`: a new area, and the columns split over it. */
    method AreaUpdate(value: Rect) returns (r: Result<(), Failure>)
      modifies this
      ensures area == value
      ensures (r, hideColumns, showColumns) == SplitAreaSpec(old(hideColumns), value, old(showColumns))
    {
      area := value;
      r := SplitArea();
    }

    /** `update` (src/table_model.rs:153-245): drops the columns from the
        drain index on, adjusts the last kept ones for the move, appends
        the new columns and splits again. A drain index past the end
        panics in the source and is excluded here. */
    method Update(dir: CursorDirection, drain: Option<nat>, highlight: Option<nat>, newColumns: seq<Column>)
      returns (r: Result<(), Failure>)
      requires drain.Some? ==> drain.value <= |hideColumns|
      modifies this`hideColumns, this`showColumns
      ensures var kept := Drained(old(hideColumns), drain);
        var t := Retouched(kept, dir, highlight, NewActive(newColumns));
        && (t.Err? ==> r.Err? && hideColumns == kept && showColumns == old(showColumns))
        && (t.Ok? ==> (r, hideColumns, showColumns) == SplitAreaSpec(t.value + newColumns, area, old(showColumns)))
    {
      if drain.Some? {
        hideColumns := hideColumns[..drain.value];
      }
      ghost var kept := hideColumns;
      var newActive := NewActive(newColumns);
      var n := |hideColumns|;
      match dir {
        case Up =>
          if n >= 1 {
            hideColumns := hideColumns[n - 1 := hideColumns[n - 1].(highlightIndex := highlight, isActive := !newActive)];
          }
        case Down =>
          if n >= 1 {
            hideColumns := hideColumns[n - 1 := hideColumns[n - 1].(highlightIndex := highlight, isActive := !newActive)];
          }
        case Right =>
          if n >= 2 {
            hideColumns := hideColumns[n - 2 := hideColumns[n - 2].(isActive := false)];
            hideColumns := hideColumns[n - 1 := hideColumns[n - 1].(highlightIndex := highlight, isActive := true)];
          } else if n == 1 {
            hideColumns := hideColumns[0 := hideColumns[0].(isActive := true)];
          } else {
            return Err(Fail);
          }
        case Left =>
          if n >= 1 {
            hideColumns := hideColumns[n - 1 := hideColumns[n - 1].(isActive := true)];
          }
      }
      assert hideColumns == Retouched(kept, dir, highlight, newActive).value;
      hideColumns := hideColumns + newColumns;
      r := SplitArea();
    }
  }

  /** The area loop of `split_area` (src/table_model.rs:121-140): cuts each
      shown column's length off the left of what remains, and stops at the
      first column that no longer fits. */
  method PlaceShown(shown: seq<Column>, area: Rect) returns (r: Result<seq<Rect>, Failure>)
    ensures r == Tile(shown, 0, area)
  {
    var splitting := area;
    var areas: seq<Rect> := [];
    var k := 0;
    assert Tile(shown, 0, area).Ok? ==> [] + Tile(shown, 0, area).value == Tile(shown, 0, area).value;
    while k < |shown|
      invariant k <= |shown|
      invariant Tile(shown, 0, area) == Prefixed(areas, Tile(shown, k, splitting))
    {
      var column := shown[k];
      if !IsLength(column) {
        return Err(Fail);
      }
      var split := SplitHorizontally(splitting, column.constraint.h.length);
      if split.None? {
        assert Tile(shown, k, splitting) == Ok([]);
        assert areas + [] == areas;
        break;
      }
      var (left, right) := split.value;
      var rest := Tile(shown, k + 1, right);
      assert Tile(shown, k, splitting) == if rest.Ok? then Ok([left] + rest.value) else rest;
      assert rest.Ok? ==> areas + ([left] + rest.value) == (areas + [left]) + rest.value;
      areas := areas + [left];
      splitting := right;
      k := k + 1;
    }
    assert k == |shown| ==> Tile(shown, k, splitting) == Ok([]) && areas + [] == areas;
    return Ok(areas);
  }
}
