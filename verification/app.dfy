/** The application state of src/app.rs: the tree and the cursor, the
    preferred column widths, and the columns of the left (navigation) and
    right (selection) tables. */
module AppModel {
  import opened Types
  import opened Tree
  import opened Navigation
  import opened Walks
  import opened Prefs
  import Table

  // ---------------------------------------------------------------------
  // `nodes_in_path_to_columns`

  /** The nodes along a path: the node it starts from, then the node each
      step leads to. */
  function PathNodes(n: Node, path: Path): (r: Result<seq<Node>, Failure>)
    ensures r.Ok? ==> |r.value| == |path| + 1 && r.value[0] == n
    ensures r.Ok? <==> NodeAt(n, path).Ok?
    decreases |path|
  {
    if |path| == 0 then Ok([n])
    else if path[0] < n.paginator.start then Err(Fail)
    else
      var s := path[0] - n.paginator.start;
      if s < |n.children| then
        var rest :- PathNodes(n.children[s], path[1..]);
        Ok([n] + rest)
      else Err(Fail)
  }

  /** `child` is the loaded child of `parent` that `step` selects. */
  predicate Holds(parent: Node, step: Step, child: Node) {
    parent.paginator.start <= step && step - parent.paginator.start < |parent.children|
    && parent.children[step - parent.paginator.start] == child
  }

  /** `nodes` are the nodes at depths `base`, `base + 1`, ... of `path`, down
      to the node the whole path leads to, each holding the next. */
  predicate Linked(nodes: seq<Node>, base: nat, path: Path) {
    && (|nodes| == 0 || base + |nodes| == |path| + 1)
    && forall k :: 0 <= k < |nodes| - 1 ==> Holds(nodes[k], path[base + k], nodes[k + 1])
  }

  lemma {:induction false} PathNodesLinked(n: Node, path: Path)
    requires PathNodes(n, path).Ok?
    ensures Linked(PathNodes(n, path).value, 0, path)
    ensures PathNodes(n, path).value[|path|] == NodeAt(n, path).value
    decreases |path|
  {
    if |path| > 0 {
      var s := path[0] - n.paginator.start;
      var child := n.children[s];
      PathNodesLinked(child, path[1..]);
      var nodes := PathNodes(n, path).value;
      var rest := PathNodes(child, path[1..]).value;
      assert nodes == [n] + rest;
      forall k | 0 <= k < |nodes| - 1
        ensures Holds(nodes[k], path[k], nodes[k + 1])
      {
        if k > 0 {
          assert path[k] == path[1..][k - 1];
        }
      }
    }
  }

  /** What is left after skipping the first `k` elements. */
  function Drop<T>(s: seq<T>, k: nat): (r: seq<T>)
    ensures k <= |s| ==> r == s[k..]
    ensures k > |s| ==> r == []
  {
    if k <= |s| then s[k..] else []
  }

  lemma DropLinked(nodes: seq<Node>, offset: nat, path: Path)
    requires Linked(nodes, 0, path)
    ensures Linked(Drop(nodes, offset), offset, path)
  {
    var d := Drop(nodes, offset);
    forall k | 0 <= k < |d| - 1
      ensures Holds(d[k], path[offset + k], d[k + 1])
    {
      assert d[k] == nodes[offset + k] && d[k + 1] == nodes[offset + k + 1];
    }
  }

  /** The entries of a node's loaded children. */
  function Entries(n: Node): (r: seq<Entry>)
    ensures |r| == |n.children|
    ensures forall k :: 0 <= k < |r| ==> r[k] == n.children[k].entry
  {
    seq(|n.children|, k requires 0 <= k < |n.children| => n.children[k].entry)
  }

  /** The highlight of the column for the node at depth `j`: the path's step
      there, less the page start (none below the path, or when the step
      lies before the page). */
  function Highlight(n: Node, j: nat, path: Path): Option<nat> {
    if j < |path| && path[j] >= n.paginator.start then Some(path[j] - n.paginator.start) else None
  }

  /** The column for the node at depth `j`. */
  function ColumnOf(n: Node, j: nat, path: Path, selected: seq<Entry>, width: nat): Column {
    Column(DEFAULT_RECT, Highlight(n, j, path), j + 1 == |path|, Entries(n), selected, false,
           Horizontal(Length(width)))
  }

  /** One column per node with loaded children, in path order; `base` is
      the depth of the first node. */
  function ColumnsOf(nodes: seq<Node>, base: nat, path: Path, selected: seq<Entry>, width: nat): (r: seq<Column>)
    ensures |r| <= |nodes|
  {
    if |nodes| == 0 then []
    else
      (if |nodes[0].children| > 0 then [ColumnOf(nodes[0], base, path, selected, width)] else [])
      + ColumnsOf(nodes[1..], base + 1, path, selected, width)
  }

  /** `nodes_in_path_to_columns` on values: the columns for the nodes at
      depth `offset` and below. */
  function ColumnsSpec(root: Node, path: Path, offset: nat, selected: seq<Entry>, width: nat): (r: Result<seq<Column>, Failure>)
    ensures r.Ok? <==> |path| > 0 && NodeAt(root, path).Ok?
  {
    if |path| == 0 then Err(Fail)
    else
      var nodes :- PathNodes(root, path);
      Ok(ColumnsOf(Drop(nodes, offset), offset, path, selected, width))
  }

  /** The nodes seen so far, followed by those still to come. */
  function PrefixedNodes(seen: seq<Node>, t: Result<seq<Node>, Failure>): Result<seq<Node>, Failure> {
    if t.Ok? then Ok(seen + t.value) else t
  }

  /** `nodes_in_path_to_columns` (src/app.rs:33-104): walks the path,
      keeping the nodes from depth `offset` on, then makes a column of each
      of them that has loaded children. */
  method NodesInPathToColumns(root: Node, path: Path, offset: nat, selected: seq<Entry>, width: nat)
    returns (r: Result<seq<Column>, Failure>)
    ensures r == ColumnsSpec(root, path, offset, selected, width)
  {
    if |path| == 0 {
      return Err(Fail);
    }
    var nodes := NodesFrom(root, path, offset);
    if nodes.Err? {
      assert PathNodes(root, path).error.Fail?;
      return Err(Fail);
    }
    var columns := MakeColumns(nodes.value, offset, path, selected, width);
    r := Ok(columns);
  }

  /** The walk of src/app.rs:43-75: the nodes along the path from depth
      `offset` on; a step outside its node's loaded page is an error. */
  method NodesFrom(root: Node, path: Path, offset: nat) returns (r: Result<seq<Node>, Failure>)
    ensures r.Ok? <==> PathNodes(root, path).Ok?
    ensures r.Ok? ==> r.value == Drop(PathNodes(root, path).value, offset)
  {
    var current := root;
    var nodes: seq<Node> := if offset == 0 then [root] else [];
    ghost var seen: seq<Node> := [];
    assert path[0..] == path;
    ghost var t := PathNodes(root, path);
    assert t.Ok? ==> [] + t.value == t.value;
    for i := 0 to |path|
      invariant |seen| == i
      invariant PathNodes(root, path) == PrefixedNodes(seen, PathNodes(current, path[i..]))
      invariant nodes == Drop(seen + [current], offset)
    {
      PathNodesStep(seen, current, path, i);
      if path[i] < current.paginator.start {
        return Err(Fail);
      }
      var s := path[i] - current.paginator.start;
      if s >= |current.children| {
        return Err(Fail);
      }
      var next := current.children[s];
      DropSnoc(seen + [current], next, offset);
      seen := seen + [current];
      current := next;
      if i + 1 >= offset {
        nodes := nodes + [current];
      }
    }
    assert path[|path|..] == [];
    assert PathNodes(root, path) == Ok(seen + [current]);
    r := Ok(nodes);
  }

  /** One step of the walk: a step outside the node's loaded page ends it
      in an error, any other step moves the node to the nodes seen. */
  lemma PathNodesStep(seen: seq<Node>, current: Node, path: Path, i: nat)
    requires i < |path|
    ensures var t := PrefixedNodes(seen, PathNodes(current, path[i..]));
      && (path[i] < current.paginator.start || path[i] - current.paginator.start >= |current.children| ==> t.Err?)
      && (current.paginator.start <= path[i] && path[i] - current.paginator.start < |current.children| ==>
            t == PrefixedNodes(seen + [current], PathNodes(current.children[path[i] - current.paginator.start], path[i + 1..])))
  {
    assert path[i..][0] == path[i];
    assert path[i..][1..] == path[i + 1..];
    if current.paginator.start <= path[i] && path[i] - current.paginator.start < |current.children| {
      var rest := PathNodes(current.children[path[i] - current.paginator.start], path[i + 1..]);
      if rest.Ok? {
        assert seen + ([current] + rest.value) == (seen + [current]) + rest.value;
      }
    }
  }

  /** The column loop of src/app.rs:77-101. */
  method MakeColumns(nodes: seq<Node>, offset: nat, path: Path, selected: seq<Entry>, width: nat)
    returns (columns: seq<Column>)
    ensures columns == ColumnsOf(nodes, offset, path, selected, width)
  {
    columns := [];
    for k := 0 to |nodes|
      invariant ColumnsOf(nodes, offset, path, selected, width) == columns + ColumnsOf(nodes[k..], offset + k, path, selected, width)
    {
      ColumnsOfStep(nodes, k, offset, path, selected, width, columns);
      if |nodes[k].children| > 0 {
        columns := columns + [ColumnOf(nodes[k], offset + k, path, selected, width)];
      }
    }
    assert nodes[|nodes|..] == [];
  }

  lemma ColumnsOfStep(nodes: seq<Node>, k: nat, offset: nat, path: Path, selected: seq<Entry>, width: nat, columns: seq<Column>)
    requires k < |nodes|
    ensures var here := if |nodes[k].children| > 0 then [ColumnOf(nodes[k], offset + k, path, selected, width)] else [];
      columns + ColumnsOf(nodes[k..], offset + k, path, selected, width)
      == (columns + here) + ColumnsOf(nodes[k + 1..], offset + k + 1, path, selected, width)
  {
    assert nodes[k..][1..] == nodes[k + 1..];
  }

  lemma DropSnoc<T>(s: seq<T>, x: T, k: nat)
    ensures Drop(s + [x], k) == if k <= |s| then Drop(s, k) + [x] else []
  {
    if k <= |s| {
      assert (s + [x])[k..] == s[k..] + [x];
    }
  }

  /** A column lists a non-empty page of entries, with the selection and
      the width it was made with, and its highlight points into the
      entries. */
  predicate WellFormedColumn(c: Column, selected: seq<Entry>, width: nat) {
    && |c.entries| > 0 && c.selectedEntries == selected
    && c.constraint == Horizontal(Length(width)) && c.area == DEFAULT_RECT
    && (c.highlightIndex.Some? ==> c.highlightIndex.value < |c.entries|)
  }

  /** Every column made from linked nodes is well formed. */
  lemma {:induction false} ColumnsWellFormed(nodes: seq<Node>, base: nat, path: Path, selected: seq<Entry>, width: nat)
    requires Linked(nodes, base, path)
    ensures forall c :: c in ColumnsOf(nodes, base, path, selected, width) ==> WellFormedColumn(c, selected, width)
  {
    if |nodes| > 0 {
      var tail := nodes[1..];
      assert Linked(tail, base + 1, path) by {
        forall k | 0 <= k < |tail| - 1
          ensures Holds(tail[k], path[base + 1 + k], tail[k + 1])
        {
          assert tail[k] == nodes[k + 1] && tail[k + 1] == nodes[k + 2];
        }
      }
      ColumnsWellFormed(tail, base + 1, path, selected, width);
      var rest := ColumnsOf(tail, base + 1, path, selected, width);
      var head := ColumnOf(nodes[0], base, path, selected, width);
      var cols := ColumnsOf(nodes, base, path, selected, width);
      if |nodes| >= 2 {
        assert Holds(nodes[0], path[base], nodes[1]);
      } else {
        assert base == |path|;
      }
      if |nodes[0].children| > 0 {
        assert cols == [head] + rest;
        assert WellFormedColumn(head, selected, width);
      } else {
        assert cols == rest;
      }
    }
  }

  /** Columns of consecutive runs of nodes are consecutive. */
  lemma {:induction false} ColumnsOfConcat(a: seq<Node>, b: seq<Node>, base: nat, path: Path, selected: seq<Entry>, width: nat)
    ensures ColumnsOf(a + b, base, path, selected, width)
         == ColumnsOf(a, base, path, selected, width) + ColumnsOf(b, base + |a|, path, selected, width)
    decreases |a|
  {
    if |a| > 0 {
      assert (a + b)[0] == a[0] && (a + b)[1..] == a[1..] + b;
      ColumnsOfConcat(a[1..], b, base + 1, path, selected, width);
    } else {
      assert a + b == b;
    }
  }

  /** No column of a node above the cursor's parent level is active. */
  lemma {:induction false} ColumnsInactive(nodes: seq<Node>, base: nat, path: Path, selected: seq<Entry>, width: nat)
    requires base + |nodes| < |path| || base >= |path|
    ensures forall c :: c in ColumnsOf(nodes, base, path, selected, width) ==> !c.isActive
    decreases |nodes|
  {
    if |nodes| > 0 {
      ColumnsInactive(nodes[1..], base + 1, path, selected, width);
    }
  }

  /** The columns of linked nodes reaching below the cursor's parent: those
      of the nodes above it, the parent's own column, and the column of the
      node under the cursor when it has loaded children. */
  lemma ColumnsSplitLast(nodes: seq<Node>, base: nat, path: Path, selected: seq<Entry>, width: nat)
    requires |nodes| >= 2 && base + |nodes| == |path| + 1 && |nodes[|nodes| - 2].children| > 0
    ensures var n := |nodes|;
      ColumnsOf(nodes, base, path, selected, width)
      == ColumnsOf(nodes[..n - 2], base, path, selected, width)
         + ([ColumnOf(nodes[n - 2], |path| - 1, path, selected, width)]
            + ColumnsOf([nodes[n - 1]], |path|, path, selected, width))
  {
    var n := |nodes|;
    var pq := nodes[n - 2..];
    assert pq[0] == nodes[n - 2] && pq[1..] == [nodes[n - 1]];
    assert ColumnsOf(pq, |path| - 1, path, selected, width)
        == [ColumnOf(nodes[n - 2], |path| - 1, path, selected, width)] + ColumnsOf(pq[1..], |path|, path, selected, width);
    assert nodes[..n - 2] + pq == nodes;
    ColumnsOfConcat(nodes[..n - 2], pq, base, path, selected, width);
  }

  /** Columns made of inactive ones around a single active one. */
  lemma OneActive(head: seq<Column>, col: Column, last: seq<Column>)
    requires forall c :: c in head ==> !c.isActive
    requires forall c :: c in last ==> !c.isActive
    requires col.isActive && |last| <= 1
    ensures var cols := head + ([col] + last);
      && cols[|head|] == col && |head| + 2 >= |cols|
      && forall i :: 0 <= i < |cols| && cols[i].isActive ==> i == |head|
  {
    var cols := head + ([col] + last);
    forall i | 0 <= i < |cols| && i != |head|
      ensures !cols[i].isActive
    {
      if i < |head| {
        assert cols[i] == head[i];
      } else {
        assert cols[i] == last[i - |head| - 1];
      }
    }
  }

  /** Exactly one column is active when the nodes reach the level above the
      cursor, and none otherwise. The active column is one of the last two,
      its highlight is set, and the entry it highlights is the entry of the
      node the path leads to. */
  lemma ColumnsActive(nodes: seq<Node>, base: nat, path: Path, selected: seq<Entry>, width: nat)
    requires Linked(nodes, base, path) && |path| > 0
    ensures var cols := ColumnsOf(nodes, base, path, selected, width);
      && ((exists i :: 0 <= i < |cols| && cols[i].isActive) <==> |nodes| >= 2)
      && (forall i, j :: 0 <= i < |cols| && 0 <= j < |cols| && cols[i].isActive && cols[j].isActive ==> i == j)
      && (forall i :: 0 <= i < |cols| && cols[i].isActive ==>
            && i + 2 >= |cols| && cols[i].highlightIndex.Some?
            && cols[i].highlightIndex.value < |cols[i].entries|
            && cols[i].entries[cols[i].highlightIndex.value] == nodes[|nodes| - 1].entry)
  {
    var cols := ColumnsOf(nodes, base, path, selected, width);
    if |nodes| >= 2 {
      var n := |nodes|;
      var p, q := nodes[n - 2], nodes[n - 1];
      assert Holds(p, path[|path| - 1], q);
      ColumnsSplitLast(nodes, base, path, selected, width);
      ColumnsInactive(nodes[..n - 2], base, path, selected, width);
      ColumnsInactive([q], |path|, path, selected, width);
      var head := ColumnsOf(nodes[..n - 2], base, path, selected, width);
      var col := ColumnOf(p, |path| - 1, path, selected, width);
      var last := ColumnsOf([q], |path|, path, selected, width);
      OneActive(head, col, last);
    } else if |nodes| == 1 {
      assert base == |path|;
      ColumnsInactive(nodes, base, path, selected, width);
      forall i | 0 <= i < |cols|
        ensures !cols[i].isActive
      {
        assert cols[i] in cols;
      }
    }
  }

  /** The columns of a path that leads to a node: well formed, and the
      active one (there is exactly one when `offset` is above the cursor's
      level) highlights the entry under the cursor. */
  lemma NodesInPathToColumnsFacts(root: Node, path: Path, offset: nat, selected: seq<Entry>, width: nat)
    requires ColumnsSpec(root, path, offset, selected, width).Ok?
    ensures var cols := ColumnsSpec(root, path, offset, selected, width).value;
      && (forall c :: c in cols ==> WellFormedColumn(c, selected, width))
      && ((exists i :: 0 <= i < |cols| && cols[i].isActive) <==> offset < |path|)
      && (forall i, j :: 0 <= i < |cols| && 0 <= j < |cols| && cols[i].isActive && cols[j].isActive ==> i == j)
      && (forall i :: 0 <= i < |cols| && cols[i].isActive ==>
            && i + 2 >= |cols| && cols[i].highlightIndex.Some?
            && cols[i].highlightIndex.value < |cols[i].entries|
            && cols[i].entries[cols[i].highlightIndex.value] == NodeAt(root, path).value.entry)
  {
    var nodes := PathNodes(root, path).value;
    PathNodesLinked(root, path);
    DropLinked(nodes, offset, path);
    var d := Drop(nodes, offset);
    ColumnsWellFormed(d, offset, path, selected, width);
    ColumnsActive(d, offset, path, selected, width);
    if |d| > 0 {
      assert d[|d| - 1] == nodes[|path|];
    }
  }

  /** The new columns bring the active column exactly when they start above
      the cursor's level, which is what the table's update consults. */
  lemma ColumnsNewActive(root: Node, path: Path, offset: nat, selected: seq<Entry>, width: nat)
    requires ColumnsSpec(root, path, offset, selected, width).Ok?
    ensures Table.NewActive(ColumnsSpec(root, path, offset, selected, width).value) <==> offset < |path|
  {
    var cols := ColumnsSpec(root, path, offset, selected, width).value;
    NodesInPathToColumnsFacts(root, path, offset, selected, width);
    if offset < |path| {
      var i :| 0 <= i < |cols| && cols[i].isActive;
      assert |cols| - 2 <= i;
    }
  }

  // ---------------------------------------------------------------------
  // The empty-path check of `App::new`

  /** `App::new` (src/app.rs:155-158): the start path, validated against the
      tree, must keep at least one step. */
  function InitialPath(root: Node, steps: Path): (r: Result<(Node, Path), Failure>)
    requires Sized(root)
    ensures r.Ok? ==> |r.value.1| > 0 && Sized(r.value.0)
  {
    var (newRoot, path) :- Validate(root, steps);
    if |path| == 0 then Err(Fail) else Ok((newRoot, path))
  }

  /** The start path leads to a node of the new tree, and it is never
      longer than the one asked for. */
  lemma InitialPathResolves(root: Node, steps: Path)
    requires Sized(root) && InitialPath(root, steps).Ok?
    ensures var (newRoot, path) := InitialPath(root, steps).value;
      NodeAt(newRoot, path).Ok? && |path| <= |steps|
  {
    ValidateResolves(root, steps);
  }

  /** A non-empty start path that already leads to a loaded node is taken
      as it is. */
  lemma InitialPathKeeps(root: Node, steps: Path)
    requires Sized(root) && |steps| > 0 && NodeAt(root, steps).Ok?
    ensures InitialPath(root, steps).Ok? && InitialPath(root, steps).value.1 == steps
  {
    ValidateKeepsLoaded(root, steps);
  }

  // ---------------------------------------------------------------------
  // `update_data`

  /** What `update_data` leaves behind: the changed tree, and what it
      reports — the new path, the index from which both tables drop their
      columns (`None`: none are dropped), the depth the new columns start
      at, and the row the last kept column highlights. */
  datatype Moved = Moved(root: Node, path: Path, drain: Option<nat>, offset: nat, highlight: Option<nat>)

  /** The highlight of src/app.rs:273-278: the step at level `i` as a row
      of its parent's loaded page. A step below the page start panics in
      the source (`usize` subtraction) and is an error here. */
  function HighlightAt(root: Node, path: Path, i: nat): (r: Result<nat, Failure>)
    ensures r.Ok? ==> i < |path| && NodeAt(root, path[..i]).Ok?
    ensures r.Ok? ==> NodeAt(root, path[..i]).value.paginator.start + r.value == path[i]
  {
    if i >= |path| then Err(Fail)
    else
      var parent :- NodeAt(root, path[..i]);
      if path[i] < parent.paginator.start then Err(Fail) else Ok(path[i] - parent.paginator.start)
  }

  /** `Down(i)` and `Up(i)` (src/app.rs:260-279, 313-332): the subtree under
      level `i` is cleared, the path moves by one at level `i`, and the
      moved step is highlighted. */
  function StepWithin(root: Node, path: Path, i: nat, down: bool): (r: Result<Moved, Failure>)
    requires Sized(root)
    ensures r.Ok? ==> Sized(r.value.root) && r.value.drain == Some(i + 1) && r.value.offset == i + 1
    ensures r.Ok? ==> r.value.highlight.Some? && HighlightAt(r.value.root, r.value.path, i) == Ok(r.value.highlight.value)
  {
    var killed :- KillAt(root, path, i + 1);
    var moved :- UpdatePathSpec(killed, path, if down then StepDown(i) else StepUp(i));
    var h :- HighlightAt(moved.0, moved.1, i);
    Ok(Moved(moved.0, moved.1, Some(i + 1), i + 1, Some(h)))
  }

  /** `NextPage(i)` and `PrevPage(i)` (src/app.rs:280-294, 333-347): the
      subtree at level `i` is cleared and reloaded with the next or the
      previous page; no row is highlighted. */
  function TurnPage(root: Node, path: Path, i: nat, down: bool): (r: Result<Moved, Failure>)
    requires Sized(root)
    ensures r.Ok? ==> Sized(r.value.root) && r.value.drain == Some(i) && r.value.offset == i && r.value.highlight.None?
  {
    var killed :- KillAt(root, path, i);
    var moved :- UpdatePathSpec(killed, path, if down then StepDown(i) else StepUp(i));
    Ok(Moved(moved.0, moved.1, Some(i), i, None))
  }

  /** `Prohibited` (src/app.rs:295-301, 348-354): the whole tree is cleared
      and the cursor wraps to the first (Down) or the last (Up) entry at
      every level. */
  function Wrap(root: Node, path: Path, down: bool): (r: Result<Moved, Failure>)
    requires Sized(root)
    ensures r.Ok? ==> Sized(r.value.root) && r.value.drain == Some(0) && r.value.offset == 0 && r.value.highlight.None?
    ensures r.Ok? ==> |r.value.path| <= |path|
  {
    var killed := KillAt(root, path, 0).value;
    var moved :- if down then SetPathStepsToMin(killed, path) else SetPathStepsToMax(killed, path);
    Ok(Moved(moved.0, moved.1, Some(0), 0, None))
  }

  /** `update_data` (src/app.rs:244-380) on values. Left on an empty path
      underflows `self.path.len() - 1` in the source, so it is excluded. */
  function UpdateDataSpec(root: Node, path: Path, dir: CursorDirection): (r: Result<Moved, Failure>)
    requires Sized(root) && (dir == Left ==> |path| > 0)
    ensures r.Ok? ==> Sized(r.value.root)
    ensures r.Ok? && dir != Right ==> r.value.drain == Some(r.value.offset)
    ensures r.Ok? && dir == Right ==> r.value.drain.None? && r.value.offset == |r.value.path| && r.value.highlight == Some(0)
    ensures r.Ok? && dir == Left ==> r.value.offset == |path| - 1 && r.value.highlight.None?
  {
    match dir {
    case Down =>
      var loc :- ChangeLocation(root, path, Down);
      match loc {
        case MoveDown(i) => StepWithin(root, path, i, true)
        case NextPage(i) => TurnPage(root, path, i, true)
        case Prohibited => Wrap(root, path, true)
        case _ => Err(Fail)
      }
    case Up =>
      var loc :- ChangeLocation(root, path, Up);
      match loc {
        case MoveUp(i) => StepWithin(root, path, i, false)
        case PrevPage(i) => TurnPage(root, path, i, false)
        case Prohibited => Wrap(root, path, false)
        case _ => Err(Fail)
      }
    case Right =>
      var moved :- UpdatePathSpec(root, path, StepRight);
      Ok(Moved(moved.0, moved.1, None, |moved.1|, Some(0)))
    case Left =>
      var moved :- UpdatePathSpec(root, path, StepLeft);
      Ok(Moved(moved.0, moved.1, Some(|path| - 1), |path| - 1, None))
    }
  }

  /** The depth whose subtree a vertical move clears first: below the moved
      level for a move within the page, the level itself for a page turn,
      and the root for a wrap. */
  function ClearDepth(loc: PathChangeLocation): nat {
    match loc
    case MoveDown(i) => i + 1
    case MoveUp(i) => i + 1
    case NextPage(i) => i
    case PrevPage(i) => i
    case Prohibited => 0
  }

  /** On Up and Down the clearing never fails: the first steps of the path
      lead to a node, which loses its loaded children while the rest of the
      tree above it is kept. */
  lemma UpdateDataClears(root: Node, path: Path, dir: CursorDirection)
    requires Sized(root) && (dir == Up || dir == Down) && ChangeLocation(root, path, dir).Ok?
    ensures var d := ClearDepth(ChangeLocation(root, path, dir).value);
      && d <= |path| && KillAt(root, path, d).Ok? && NodeAt(root, path[..d]).Ok?
      && NodeAt(KillAt(root, path, d).value, path[..d]) == Ok(KillChildren(NodeAt(root, path[..d]).value))
  {
    var loc := ChangeLocation(root, path, dir).value;
    var d := ClearDepth(loc);
    assert d <= |path|;
    assert path[..d] + path[d..] == path;
    NodeAtConcat(root, path[..d], path[d..]);
    KillAtOk(root, path, d);
    KillAtKills(root, path, d);
  }

  /** Left on a path of two steps or more, whose parent level leads to a
      node, drops exactly the last step and drains the columns from the
      new path's end: the columns rebuilt start at the node returned to,
      which shows its first page. */
  lemma UpdateDataLeft(root: Node, path: Path)
    requires Sized(root) && |path| >= 2 && NodeAt(root, path[..|path| - 1]).Ok?
    ensures var r := UpdateDataSpec(root, path, Left);
      && r.Ok? && r.value.path == path[..|path| - 1]
      && r.value.drain == Some(|r.value.path|) && r.value.offset == |r.value.path|
      && NodeAt(r.value.root, r.value.path).Ok? && NodeAt(r.value.root, r.value.path).value.paginator.start == 0
  {
    UpdatePathLeft(root, path);
  }

  /** Right on a path that leads to a node drains nothing, extends the path
      by 0 exactly when the focused node has a loaded child, and starts the
      new columns at the new path's end. */
  lemma UpdateDataRight(root: Node, path: Path)
    requires Sized(root) && |path| > 0 && NodeAt(root, path).Ok?
    ensures var focused := NodeAt(root, path).value;
      var r := UpdateDataSpec(root, path, Right);
      && r.Ok? && r.value.path == path + (if |focused.children| > 0 then [0] else [])
      && r.value.drain.None? && r.value.offset == |r.value.path|
  {
    UpdatePathRight(root, path);
  }

  /** The tuple `update_data` returns. */
  type Reported = (Path, Option<nat>, nat, Option<nat>)

  function ReportOf(m: Moved): Reported {
    (m.path, m.drain, m.offset, m.highlight)
  }

  // ---------------------------------------------------------------------
  // Selection lists

  /** `retain(|entry| *entry != e)`: every copy of `e` removed, the rest
      kept in order. */
  function Remove(s: seq<Entry>, e: Entry): (r: seq<Entry>)
    ensures e !in r && |r| <= |s|
    ensures forall x :: x != e ==> (x in r <==> x in s)
    ensures multiset(r) == multiset(s)[e := 0]
    ensures e !in s ==> r == s
  {
    if |s| == 0 then []
    else
      var rest := Remove(s[1..], e);
      assert s == [s[0]] + s[1..];
      if s[0] == e then rest else [s[0]] + rest
  }

  /** The toggle of src/app.rs:718-728: remove the entry when it is
      present, insert it at the front otherwise. */
  function Toggled(s: seq<Entry>, e: Entry, present: bool): seq<Entry> {
    if present then Remove(s, e) else [e] + s
  }

  /** Toggling an entry by its own presence flips its membership and leaves
      every other entry's membership alone. */
  lemma ToggledFlips(s: seq<Entry>, e: Entry)
    ensures var t := Toggled(s, e, e in s);
      && (e in t <==> e !in s)
      && (forall x :: x != e ==> (x in t <==> x in s))
  {
  }

  /** Selecting an absent entry and then unselecting it restores the list. */
  lemma ToggledTwice(s: seq<Entry>, e: Entry)
    requires e !in s
    ensures Toggled(Toggled(s, e, e in s), e, e in Toggled(s, e, e in s)) == s
  {
    assert Remove([e] + s, e) == Remove(s, e) by {
      assert ([e] + s)[1..] == s;
    }
  }

  /** A column whose selected list got the toggle. */
  function SelectToggled(c: Column, e: Entry, present: bool): Column {
    c.(selectedEntries := Toggled(c.selectedEntries, e, present))
  }

  /** `clear_selected` for one column: the selected list emptied, and the
      entries too when `entries` is set. */
  function Emptied(c: Column, entries: bool): Column {
    if entries then c.(entries := [], selectedEntries := []) else c.(selectedEntries := [])
  }

  /** Every column's selected list toggled. */
  function ToggleAll(cols: seq<Column>, e: Entry, present: bool): (r: seq<Column>)
    ensures |r| == |cols|
    ensures forall i :: 0 <= i < |r| ==> r[i] == SelectToggled(cols[i], e, present)
  {
    seq(|cols|, i requires 0 <= i < |cols| => SelectToggled(cols[i], e, present))
  }

  /** Every column emptied. */
  function EmptyAll(cols: seq<Column>, entries: bool): (r: seq<Column>)
    ensures |r| == |cols|
    ensures forall i :: 0 <= i < |r| ==> r[i] == Emptied(cols[i], entries)
  {
    seq(|cols|, i requires 0 <= i < |cols| => Emptied(cols[i], entries))
  }

  /** The loops of src/app.rs:748-782: every column's selected list gets
      the same toggle. */
  method ToggleEach(cols: seq<Column>, e: Entry, present: bool) returns (r: seq<Column>)
    ensures r == ToggleAll(cols, e, present)
  {
    r := cols;
    for i := 0 to |r|
      invariant |r| == |cols|
      invariant forall k :: 0 <= k < i ==> r[k] == SelectToggled(cols[k], e, present)
      invariant forall k :: i <= k < |r| ==> r[k] == cols[k]
    {
      r := r[i := SelectToggled(r[i], e, present)];
    }
  }

  /** The loops of src/app.rs:805-826. */
  method EmptyEach(cols: seq<Column>, entries: bool) returns (r: seq<Column>)
    ensures r == EmptyAll(cols, entries)
  {
    r := cols;
    for i := 0 to |r|
      invariant |r| == |cols|
      invariant forall k :: 0 <= k < i ==> r[k] == Emptied(cols[k], entries)
      invariant forall k :: i <= k < |r| ==> r[k] == cols[k]
    {
      r := r[i := Emptied(r[i], entries)];
    }
  }

  /** The columns of both tables after `cursor_select` toggled `e`: the
      right table's first column lists the selection, and its presence
      there decides the toggle applied to every selected list. */
  function Selected(left: seq<Column>, rght: seq<Column>, e: Entry): (seq<Column>, seq<Column>)
    requires |rght| > 0
  {
    var present := e in rght[0].entries;
    var listed := rght[0 := rght[0].(entries := Toggled(rght[0].entries, e, present))];
    (ToggleAll(left, e, present), ToggleAll(listed, e, present))
  }

  /** The selection is mirrored: every column of both tables carries the
      list the right table's first column shows. */
  predicate Synced(left: seq<Column>, rght: seq<Column>) {
    && |rght| > 0
    && (forall i :: 0 <= i < |left| ==> left[i].selectedEntries == rght[0].entries)
    && (forall i :: 0 <= i < |rght| ==> rght[i].selectedEntries == rght[0].entries)
  }

  /** `cursor_select` keeps the selection mirrored, and the entry is then
      selected exactly when it was not before, every other entry keeping
      its state. */
  lemma {:induction false} SelectedSynced(left: seq<Column>, rght: seq<Column>, e: Entry)
    requires Synced(left, rght)
    ensures var (l, r) := Selected(left, rght, e);
      && Synced(l, r)
      && (e in r[0].entries <==> e !in rght[0].entries)
      && (forall x :: x != e ==> (x in r[0].entries <==> x in rght[0].entries))
  {
    var (l, r) := Selected(left, rght, e);
    var present := e in rght[0].entries;
    assert r[0].entries == Toggled(rght[0].entries, e, present);
    ToggledFlips(rght[0].entries, e);
    forall i | 0 <= i < |l|
      ensures l[i].selectedEntries == r[0].entries
    {
      assert left[i].selectedEntries == rght[0].entries;
    }
    forall i | 0 <= i < |r|
      ensures r[i].selectedEntries == r[0].entries
    {
      assert rght[i].selectedEntries == rght[0].entries;
    }
  }

  /** After `clear_selected` the selection is empty and mirrored. */
  lemma ClearedSynced(left: seq<Column>, rght: seq<Column>)
    requires |rght| > 0
    ensures var (l, r) := (EmptyAll(left, false), EmptyAll(rght, true));
      Synced(l, r) && r[0].entries == []
  {
  }

  /** The width request a change of the selection's emptiness makes: none
      when it stays empty or non-empty, 0 when it became empty, and the
      preferred width when it became non-empty (src/app.rs:740-746). */
  function Resized(before: seq<Entry>, after: seq<Entry>, preferred: nat): seq<WidthRequest> {
    if (|before| == 0) == (|after| == 0) then []
    else [RghtTableWidth(if |after| == 0 then 0 else preferred)]
  }

  /** Selecting into an empty list opens the right table at its preferred
      width; unselecting hides it exactly when only copies of the entry
      were listed; and a list that stays non-empty asks for nothing. */
  lemma {:induction false} SelectResizes(s: seq<Entry>, e: Entry, preferred: nat)
    ensures var t := Toggled(s, e, e in s);
      && (|s| == 0 ==> Resized(s, t, preferred) == [RghtTableWidth(preferred)])
      && (e in s ==> (Resized(s, t, preferred) == [RghtTableWidth(0)] <==> forall x :: x in s ==> x == e))
      && (e !in s && |s| > 0 ==> Resized(s, t, preferred) == [])
  {
    if e in s {
      var t := Remove(s, e);
      if forall x :: x in s ==> x == e {
        if |t| > 0 {
          assert t[0] in t;
        }
      } else {
        var x :| x in s && x != e;
        assert x in t;
      }
    }
  }

  // ---------------------------------------------------------------------
  // Width requests

  /** A width the application asks the page layout to give one of its two
      tables; the layout itself is not part of this model. */
  datatype WidthRequest = LeftTableWidth(width: nat) | RghtTableWidth(width: nat)

  /** The requests `cursor_select` makes for the widths `apply_term_width`
      wrote (src/app.rs:699-704). */
  function Applied(newLeft: Option<nat>, newRght: Option<nat>): seq<WidthRequest> {
    (if newLeft.Some? then [LeftTableWidth(newLeft.value)] else [])
    + (if newRght.Some? then [RghtTableWidth(newRght.value)] else [])
  }

  /** The summed preferred widths of the tables that are visible. */
  function VisibleWidth(w: Widths, leftVisible: bool, rghtVisible: bool): nat {
    (if leftVisible then w.left else 0) + (if rghtVisible then w.rght else 0)
  }

  /** `inc_left_table_column_width` (src/app.rs:418-460) on values: the new
      preferred widths and the width requests. With room to spare the left
      width grows; when the visible tables fill the terminal exactly, the
      right width gives a column to the left one. The right width is
      lowered even when the left one is at `u16::MAX` and cannot grow. */
  function IncLeftSpec(w: Widths, leftVisible: bool, rghtVisible: bool, term: nat): (r: (Widths, seq<WidthRequest>))
    requires Floored(w)
    ensures Floored(r.0)
  {
    var current := VisibleWidth(w, leftVisible, rghtVisible);
    if current < term then
      if w.left < U16_MAX then
        (w.(left := w.left + 1), if leftVisible then [LeftTableWidth(w.left + 1)] else [])
      else (w, [])
    else if current == term && leftVisible && rghtVisible && w.rght > MIN_RGHT_TABLE_COLUMN_WIDTH then
      if w.left < U16_MAX then
        (Widths(w.left + 1, w.rght - 1), [LeftTableWidth(w.left + 1), RghtTableWidth(w.rght - 1)])
      else (w.(rght := w.rght - 1), [])
    else (w, [])
  }

  /** Widening the left table never lets the visible tables outgrow a
      terminal they fit, and it never shrinks the left width. */
  lemma IncLeftFits(w: Widths, leftVisible: bool, rghtVisible: bool, term: nat)
    requires Floored(w) && VisibleWidth(w, leftVisible, rghtVisible) <= term
    ensures var r := IncLeftSpec(w, leftVisible, rghtVisible, term).0;
      VisibleWidth(r, leftVisible, rghtVisible) <= term && r.left >= w.left
  {
  }

  /** With both tables visible and filling the terminal, the left width
      grows by one exactly as the right one shrinks by one, and both
      requests are made. */
  lemma IncLeftTrades(w: Widths, term: nat)
    requires Floored(w) && VisibleWidth(w, true, true) == term
    requires w.left < U16_MAX && w.rght > MIN_RGHT_TABLE_COLUMN_WIDTH
    ensures var r := IncLeftSpec(w, true, true, term);
      && r.0 == Widths(w.left + 1, w.rght - 1)
      && VisibleWidth(r.0, true, true) == term
      && r.1 == [LeftTableWidth(w.left + 1), RghtTableWidth(w.rght - 1)]
  {
  }

  // ---------------------------------------------------------------------
  // The application

  /** `App`: the tree and the cursor, the terminal width, the preferred
      widths, the two tables of the page, and the width requests made to
      the page's layout so far. */
  class App {
    var root: Node
    var path: Path
    var termWidth: nat
    var prefs: Preferences
    var left: Table.TableModel
    var rght: Table.TableModel
    var requests: seq<WidthRequest>

    predicate Valid()
      reads this, prefs
    {
      Sized(root) && prefs.Valid() && termWidth <= U16_MAX && left != rght
    }

    /** The state `App::new` (src/app.rs:145-242) starts from once the start
        path is known: default preferences, and both tables still empty
        (their columns and areas come from the page layout). */
    constructor(root: Node, path: Path, termWidth: nat)
      requires Sized(root) && termWidth <= U16_MAX
      ensures Valid() && fresh(prefs) && fresh(left) && fresh(rght)
      ensures this.root == root && this.path == path && this.termWidth == termWidth && requests == []
      ensures prefs.left == MIN_LEFT_TABLE_COLUMN_WIDTH && prefs.rght == MIN_RGHT_TABLE_COLUMN_WIDTH
      ensures left.hideColumns == [] && rght.hideColumns == []
    {
      this.root := root;
      this.path := path;
      this.termWidth := termWidth;
      prefs := new Preferences();
      left := new Table.TableModel();
      rght := new Table.TableModel();
      requests := [];
    }

    /** `update_data` (src/app.rs:244-380): the tree is changed by each
        step in turn; on success the tree and the report are the ones the
        specification gives. */
    method UpdateData(dir: CursorDirection) returns (r: Result<Reported, Failure>)
      requires Valid() && (dir == Left ==> |path| > 0)
      modifies this`root
      ensures Valid()
      ensures var spec := UpdateDataSpec(old(root), path, dir);
        && (r.Ok? <==> spec.Ok?)
        && (r.Ok? ==> root == spec.value.root && r.value == ReportOf(spec.value))
    {
      match dir {
        case Down =>
          var loc := PathChangeLocationOf(root, path, Down);
          if loc.Err? {
            return Err(Fail);
          }
          match loc.value {
            case MoveDown(i) => r := MoveWithin(i, true);
            case NextPage(i) => r := MovePage(i, true);
            case Prohibited => r := MoveWrap(true);
            case MoveUp(_) => return Err(Fail);
            case PrevPage(_) => return Err(Fail);
          }
        case Up =>
          var loc := PathChangeLocationOf(root, path, Up);
          if loc.Err? {
            return Err(Fail);
          }
          match loc.value {
            case MoveUp(i) => r := MoveWithin(i, false);
            case PrevPage(i) => r := MovePage(i, false);
            case Prohibited => r := MoveWrap(false);
            case MoveDown(_) => return Err(Fail);
            case NextPage(_) => return Err(Fail);
          }
        case Right =>
          var moved := UpdatePathSpec(root, path, StepRight);
          if moved.Err? {
            return Err(Fail);
          }
          root := moved.value.0;
          r := Ok((moved.value.1, None, |moved.value.1|, Some(0)));
        case Left =>
          var moved := UpdatePathSpec(root, path, StepLeft);
          if moved.Err? {
            return Err(Fail);
          }
          root := moved.value.0;
          r := Ok((moved.value.1, Some(|path| - 1), |path| - 1, None));
      }
    }

    /** src/app.rs:260-279 and 313-332. */
    method MoveWithin(i: nat, down: bool) returns (r: Result<Reported, Failure>)
      requires Valid()
      modifies this`root
      ensures Valid()
      ensures var spec := StepWithin(old(root), path, i, down);
        && (r.Ok? <==> spec.Ok?)
        && (r.Ok? ==> root == spec.value.root && r.value == ReportOf(spec.value))
    {
      var killed := KillAt(root, path, i + 1);
      if killed.Err? {
        return Err(Fail);
      }
      root := killed.value;
      var moved := UpdatePathSpec(root, path, if down then StepDown(i) else StepUp(i));
      if moved.Err? {
        return Err(Fail);
      }
      root := moved.value.0;
      var newPath := moved.value.1;
      var h := Highlight(root, newPath, i);
      if h.Err? {
        return Err(Fail);
      }
      r := Ok((newPath, Some(i + 1), i + 1, Some(h.value)));
    }

    /** src/app.rs:273-278: the step at level `i` less its parent's page
        start. */
    static method Highlight(root: Node, path: Path, i: nat) returns (r: Result<nat, Failure>)
      ensures r == HighlightAt(root, path, i)
    {
      if i >= |path| {
        return Err(Fail);
      }
      var parent := NodeByPath(root, path[..i]);
      if parent.Err? {
        assert NodeAt(root, path[..i]).error.Fail?;
        return Err(Fail);
      }
      if path[i] < parent.value.paginator.start {
        return Err(Fail);
      }
      r := Ok(path[i] - parent.value.paginator.start);
    }

    /** src/app.rs:280-294 and 333-347. */
    method MovePage(i: nat, down: bool) returns (r: Result<Reported, Failure>)
      requires Valid()
      modifies this`root
      ensures Valid()
      ensures var spec := TurnPage(old(root), path, i, down);
        && (r.Ok? <==> spec.Ok?)
        && (r.Ok? ==> root == spec.value.root && r.value == ReportOf(spec.value))
    {
      var killed := KillAt(root, path, i);
      if killed.Err? {
        return Err(Fail);
      }
      root := killed.value;
      var moved := UpdatePathSpec(root, path, if down then StepDown(i) else StepUp(i));
      if moved.Err? {
        return Err(Fail);
      }
      root := moved.value.0;
      r := Ok((moved.value.1, Some(i), i, None));
    }

    /** src/app.rs:295-301 and 348-354. */
    method MoveWrap(down: bool) returns (r: Result<Reported, Failure>)
      requires Valid()
      modifies this`root
      ensures Valid()
      ensures var spec := Wrap(old(root), path, down);
        && (r.Ok? <==> spec.Ok?)
        && (r.Ok? ==> root == spec.value.root && r.value == ReportOf(spec.value))
    {
      root := KillAt(root, path, 0).value;
      var moved := if down then SetPathStepsToMin(root, path) else SetPathStepsToMax(root, path);
      if moved.Err? {
        return Err(Fail);
      }
      root := moved.value.0;
      r := Ok((moved.value.1, Some(0), 0, None));
    }

    /** `cursor_select` (src/app.rs:690-788): the widths are fitted to the
        terminal, then the entry under the cursor is toggled in the right
        table's first column and in every column's selected list, and the
        right table is hidden or shown when the selection empties or fills.
        The `u16` sum in `apply_term_width` must not overflow. */
    method CursorSelect() returns (r: Result<(), Failure>)
      requires Valid() && prefs.left + prefs.rght <= U16_MAX
      modifies this`requests, prefs, left`hideColumns, rght`hideColumns
      ensures Valid()
      ensures NodeAt(root, path).Err? ==>
        && r.Err? && prefs.Current() == old(prefs.Current()) && requests == old(requests)
        && left.hideColumns == old(left.hideColumns) && rght.hideColumns == old(rght.hideColumns)
      ensures NodeAt(root, path).Ok? ==>
        var spec := ApplyTermWidthSpec(old(prefs.Current()), termWidth);
        var applied := old(requests) + Applied(spec.1, spec.2);
        && prefs.Current() == spec.0
        && (|old(rght.hideColumns)| == 0 ==>
              && r.Err? && requests == applied
              && left.hideColumns == old(left.hideColumns) && rght.hideColumns == old(rght.hideColumns))
        && (|old(rght.hideColumns)| > 0 ==>
              && r.Ok? && (left.hideColumns, rght.hideColumns) == Selected(old(left.hideColumns), old(rght.hideColumns), NodeAt(root, path).value.entry)
              && requests == applied + Resized(old(rght.hideColumns)[0].entries, rght.hideColumns[0].entries, spec.0.rght))
    {
      var hovered := NodeByPath(root, path);
      if hovered.Err? {
        return Err(Fail);
      }
      var e := hovered.value.entry;
      var widths := prefs.ApplyTermWidth(termWidth);
      var (newLeft, newRght) := widths.value;
      requests := requests + Applied(newLeft, newRght);
      if |rght.hideColumns| == 0 {
        return Err(Fail);
      }
      var listed := rght.hideColumns[0].entries;
      var present := e in listed;
      rght.hideColumns := rght.hideColumns[0 := rght.hideColumns[0].(entries := Toggled(listed, e, present))];
      var after := rght.hideColumns[0].entries;
      requests := requests + Resized(listed, after, prefs.rght);
      left.hideColumns := ToggleEach(left.hideColumns, e, present);
      rght.hideColumns := ToggleEach(rght.hideColumns, e, present);
      r := Ok(());
    }

    /** `clear_selected` (src/app.rs:803-832): every selected list is
        emptied, and so are the entries of the right table's columns. */
    method ClearSelected()
      requires Valid()
      modifies left`hideColumns, rght`hideColumns
      ensures Valid()
      ensures left.hideColumns == EmptyAll(old(left.hideColumns), false)
      ensures rght.hideColumns == EmptyAll(old(rght.hideColumns), true)
    {
      left.hideColumns := EmptyEach(left.hideColumns, false);
      rght.hideColumns := EmptyEach(rght.hideColumns, true);
    }

    /** `inc_left_table_column_width` (src/app.rs:418-460): a table counts
        as visible when its area is wider than 0. The `u16` sum of the
        visible widths must not overflow. */
    method IncLeftTableColumnWidth() returns (r: Result<(), Failure>)
      requires Valid() && VisibleWidth(prefs.Current(), left.area.width != 0, rght.area.width != 0) <= U16_MAX
      modifies this`requests, prefs
      ensures Valid() && r.Ok?
      ensures var spec := IncLeftSpec(old(prefs.Current()), left.area.width != 0, rght.area.width != 0, termWidth);
        prefs.Current() == spec.0 && requests == old(requests) + spec.1
    {
      var leftVisible := left.area.width != 0;
      var rghtVisible := rght.area.width != 0;
      var current := 0;
      if leftVisible {
        current := current + prefs.left;
      }
      if rghtVisible {
        current := current + prefs.rght;
      }
      if current < termWidth {
        var newWidth := prefs.LeftInc();
        if newWidth.Some? && leftVisible {
          requests := requests + [LeftTableWidth(newWidth.value)];
        }
      } else if current == termWidth {
        if leftVisible && rghtVisible {
          var newRght := prefs.RghtDec();
          if newRght.Some? {
            var newLeft := prefs.LeftInc();
            if newLeft.Some? {
              requests := requests + [LeftTableWidth(newLeft.value), RghtTableWidth(newRght.value)];
            }
          }
        }
      }
      r := Ok(());
    }
  }
}
