/** The path navigator of src/utils.rs. A cursor is a `Path` of global
    indices, one per level below the root; each step is looked up in its
    node's loaded page by subtracting the page start. The walks that change
    the tree (`validate_path`, `set_path_steps_to_min`/`max`, `update_path`,
    `kill_children_at_index`) follow a `&mut` cursor down the path; here
    they rebuild the nodes along the path and return the new root. */
module Navigation {
  import opened Types
  import opened Paging
  import opened Tree

  // ---------------------------------------------------------------------
  // Strings

  /** `clip_string`: a string longer than `length` keeps its first
      `length - |ending|` characters (saturating) followed by `ending`;
      length 0 gives the empty string. */
  function ClipString(s: string, ending: string, length: nat): (r: string)
    ensures length == 0 ==> r == []
    ensures 0 < length && |s| <= length ==> r == s
    ensures 0 < length < |s| ==> r == s[..SaturatingSub(length, |ending|)] + ending
  {
    if length == 0 then []
    else if |s| > length then s[..SaturatingSub(length, |ending|)] + ending
    else s
  }

  function SaturatingSub(a: nat, b: nat): (r: nat)
    ensures r == if a >= b then a - b else 0
  {
    if a >= b then a - b else 0
  }

  /** A clipped string fits its width whenever the ending does, and starts
      with a prefix of the original. */
  lemma ClipStringFits(s: string, ending: string, length: nat)
    requires |ending| <= length
    ensures var r := ClipString(s, ending, length);
      |r| <= length && (|r| == |s| ==> r == s)
      && (r != s ==> r == [] || r[..|r| - |ending|] == s[..|r| - |ending|])
  {
  }

  // ---------------------------------------------------------------------
  // Looking nodes up

  /** The node a path leads to: each step, less its node's page start, is an
      index into the loaded children. */
  function NodeAt(n: Node, path: Path): (r: Result<Node, Failure>)
    decreases |path|
  {
    if |path| == 0 then Ok(n)
    else if path[0] < n.paginator.start then Err(Fail)
    else
      var s := path[0] - n.paginator.start;
      if s < |n.children| then NodeAt(n.children[s], path[1..]) else Err(Fail)
  }

  /** Following a path and then a second path is following their
      concatenation. */
  lemma {:induction false} NodeAtConcat(n: Node, a: Path, b: Path)
    ensures NodeAt(n, a + b) == if NodeAt(n, a).Err? then Err(Fail) else NodeAt(NodeAt(n, a).value, b)
    decreases |a|
  {
    if |a| > 0 {
      assert (a + b)[0] == a[0] && (a + b)[1..] == a[1..] + b;
      if a[0] >= n.paginator.start && a[0] - n.paginator.start < |n.children| {
        NodeAtConcat(n.children[a[0] - n.paginator.start], a[1..], b);
      }
    } else {
      assert a + b == b;
    }
  }

  /** `node_by_path` (src/utils.rs:73-92). */
  method NodeByPath(root: Node, path: Path) returns (r: Result<Node, Failure>)
    ensures r == NodeAt(root, path)
  {
    var current := root;
    for i := 0 to |path|
      invariant NodeAt(root, path) == NodeAt(current, path[i..])
    {
      assert path[i..][1..] == path[i + 1..];
      if path[i] < current.paginator.start {
        return Err(Fail);
      }
      var shifted := path[i] - current.paginator.start;
      if shifted < |current.children| {
        current := current.children[shifted];
      } else {
        return Err(Fail);
      }
    }
    assert path[|path|..] == [];
    r := Ok(current);
  }

  /** The nodes a path passes through: the root and the node reached after
      each step but the last, one per step. */
  function NodesInPath(n: Node, path: Path): (r: Result<seq<Node>, Failure>)
    ensures r.Ok? ==> |r.value| == |path|
    ensures r.Ok? <==> NodeAt(n, path).Ok?
    decreases |path|
  {
    if |path| == 0 then Ok([])
    else if path[0] < n.paginator.start then Err(Fail)
    else
      var s := path[0] - n.paginator.start;
      if s < |n.children| then
        var rest :- NodesInPath(n.children[s], path[1..]);
        Ok([n] + rest)
      else Err(Fail)
  }

  /** Node `i` of the path is the node its first `i` steps lead to, and it
      holds the child for step `i`. */
  lemma {:induction false} NodesInPathAt(n: Node, path: Path, i: nat)
    requires NodesInPath(n, path).Ok? && i < |path|
    ensures var node := NodesInPath(n, path).value[i];
      && NodeAt(n, path[..i]) == Ok(node)
      && node.paginator.start <= path[i] < node.paginator.start + |node.children|
    decreases i
  {
    if i > 0 {
      var s := path[0] - n.paginator.start;
      NodesInPathAt(n.children[s], path[1..], i - 1);
      assert path[..i][1..] == path[1..][..i - 1];
    }
  }

  // ---------------------------------------------------------------------
  // Deciding where a vertical move goes

  datatype PathChangeLocation =
    | MoveDown(index: nat)
    | NextPage(index: nat)
    | MoveUp(index: nat)
    | PrevPage(index: nat)
    | Prohibited

  /** The backward scan of `path_change_location` over the levels below
      `k`, deepest first. */
  function ScanLevels(nodes: seq<Node>, path: Path, dir: CursorDirection, k: nat): (r: Result<PathChangeLocation, Failure>)
    requires |nodes| == |path| && k <= |path|
    ensures r == Ok(Prohibited) && dir == Up ==> forall j :: 0 <= j < k ==> path[j] == 0
    ensures r.Ok? && r.value.MoveUp? ==> var i := r.value.index;
      i < k && 0 < path[i] && path[i] != nodes[i].paginator.start && forall j :: i < j < k ==> path[j] == 0
    ensures r.Ok? && r.value.PrevPage? ==> var i := r.value.index;
      i < k && 0 < path[i] == nodes[i].paginator.start && forall j :: i < j < k ==> path[j] == 0
    ensures r.Ok? && r.value.MoveDown? ==> var i := r.value.index;
      i < k && nodes[i].paginator.start <= path[i] && path[i] - nodes[i].paginator.start + 1 < |nodes[i].children|
    ensures r.Ok? && r.value.NextPage? ==> var i := r.value.index;
      i < k && nodes[i].paginator.total.Some?
      && nodes[i].paginator.start + nodes[i].paginator.size < nodes[i].paginator.total.value
    ensures r.Ok? ==> dir == Up || dir == Down || k == 0
    ensures r.Ok? && dir == Up ==> !r.value.MoveDown? && !r.value.NextPage?
    ensures r.Ok? && dir == Down ==> !r.value.MoveUp? && !r.value.PrevPage?
  {
    if k == 0 then Ok(Prohibited)
    else
      var i := k - 1;
      var node, step := nodes[i], path[i];
      match dir
      case Up =>
        if step > 0 then
          if step == node.paginator.start then Ok(PrevPage(i)) else Ok(MoveUp(i))
        else ScanLevels(nodes, path, dir, i)
      case Down =>
        if step < node.paginator.start then Err(Fail)
        else if step - node.paginator.start + 1 < |node.children| then Ok(MoveDown(i))
        else if node.paginator.total.None? then Err(Fail)
        else if node.paginator.start + node.paginator.size < node.paginator.total.value then Ok(NextPage(i))
        else ScanLevels(nodes, path, dir, i)
      case _ => Err(Fail)
  }

  /** `path_change_location`: where an Up or Down key moves the cursor. */
  function ChangeLocation(root: Node, path: Path, dir: CursorDirection): (r: Result<PathChangeLocation, Failure>)
    ensures r.Ok? ==> NodeAt(root, path).Ok?
  {
    var nodes :- NodesInPath(root, path);
    ScanLevels(nodes, path, dir, |path|)
  }

  /** A Down move at level `i` stays on the loaded page: the next sibling is
      loaded, and every deeper level is on its last loaded child of its last
      page. */
  lemma ChangeDownDeeperAtEnd(root: Node, path: Path, i: nat, j: nat)
    requires ChangeLocation(root, path, Down) == Ok(MoveDown(i)) || ChangeLocation(root, path, Down) == Ok(NextPage(i))
    requires i < j < |path|
    ensures var node := NodesInPath(root, path).value[j];
      && path[j] - node.paginator.start + 1 == |node.children|
      && node.paginator.total.Some? && node.paginator.start + node.paginator.size >= node.paginator.total.value
  {
    var nodes := NodesInPath(root, path).value;
    forall l | 0 <= l < |path|
      ensures nodes[l].paginator.start <= path[l] < nodes[l].paginator.start + |nodes[l].children|
    {
      NodesInPathAt(root, path, l);
    }
    ScanDownSkips(nodes, path, |path|, j);
  }

  lemma {:induction false} ScanDownSkips(nodes: seq<Node>, path: Path, k: nat, j: nat)
    requires |nodes| == |path| && j < k <= |path|
    requires forall l :: 0 <= l < |path| ==> nodes[l].paginator.start <= path[l] < nodes[l].paginator.start + |nodes[l].children|
    requires ScanLevels(nodes, path, Down, k).Ok?
    requires ScanLevels(nodes, path, Down, k).value.MoveDown? || ScanLevels(nodes, path, Down, k).value.NextPage?
    requires ScanLevels(nodes, path, Down, k).value.index < j
    ensures path[j] - nodes[j].paginator.start + 1 == |nodes[j].children|
    ensures nodes[j].paginator.total.Some? && nodes[j].paginator.start + nodes[j].paginator.size >= nodes[j].paginator.total.value
    decreases k
  {
    if j < k - 1 {
      ScanDownSkips(nodes, path, k - 1, j);
    }
  }

  /** A level the Down scan passes over: the step is on the last loaded
      child, and the loaded page reaches the known total. */
  predicate AtLastEntry(node: Node, step: Step) {
    && node.paginator.start <= step && step - node.paginator.start + 1 >= |node.children|
    && node.paginator.total.Some? && node.paginator.start + node.paginator.size >= node.paginator.total.value
  }

  /** A level where the Down scan fails: the step lies before the loaded
      page, or it is on the last loaded child and no total is known. */
  predicate DownBlocked(node: Node, step: Step) {
    || step < node.paginator.start
    || (step - node.paginator.start + 1 >= |node.children| && node.paginator.total.None?)
  }

  /** The Down scan finds no move exactly when every level is on its last
      entry. */
  lemma {:induction false} ScanDownProhibited(nodes: seq<Node>, path: Path, k: nat)
    requires |nodes| == |path| && k <= |path|
    ensures ScanLevels(nodes, path, Down, k) == Ok(Prohibited) <==>
      forall j :: 0 <= j < k ==> AtLastEntry(nodes[j], path[j])
    decreases k
  {
    if k > 0 {
      ScanDownProhibited(nodes, path, k - 1);
      var i := k - 1;
      if AtLastEntry(nodes[i], path[i]) {
        assert ScanLevels(nodes, path, Down, k) == ScanLevels(nodes, path, Down, i);
      } else {
        assert ScanLevels(nodes, path, Down, k) != Ok(Prohibited);
      }
    }
  }

  /** The Down scan fails exactly when some level is blocked and every
      deeper level is on its last entry. */
  lemma {:induction false} ScanDownFails(nodes: seq<Node>, path: Path, k: nat)
    requires |nodes| == |path| && k <= |path|
    ensures ScanLevels(nodes, path, Down, k).Err? <==>
      exists j :: 0 <= j < k && DownBlocked(nodes[j], path[j]) && forall l :: j < l < k ==> AtLastEntry(nodes[l], path[l])
    decreases k
  {
    if k > 0 {
      ScanDownFails(nodes, path, k - 1);
      var i := k - 1;
      if AtLastEntry(nodes[i], path[i]) {
        assert ScanLevels(nodes, path, Down, k) == ScanLevels(nodes, path, Down, i);
        assert !DownBlocked(nodes[i], path[i]);
      } else if DownBlocked(nodes[i], path[i]) {
        assert ScanLevels(nodes, path, Down, k).Err?;
      } else {
        assert ScanLevels(nodes, path, Down, k).Ok?;
      }
    }
  }

  /** The Up scan never fails, and finds no move exactly when every step is
      0. */
  lemma {:induction false} ScanUpOutcome(nodes: seq<Node>, path: Path, k: nat)
    requires |nodes| == |path| && k <= |path|
    ensures ScanLevels(nodes, path, Up, k).Ok?
    ensures ScanLevels(nodes, path, Up, k) == Ok(Prohibited) <==> forall j :: 0 <= j < k ==> path[j] == 0
    decreases k
  {
    if k > 0 {
      ScanUpOutcome(nodes, path, k - 1);
    }
  }

  /** `path_change_location` for Down over a path that leads to a node:
      no move exactly when every level is on its last entry, and a failure
      exactly when some level is on its last loaded child with no total
      known and every deeper level is on its last entry. A path that does
      not lead to a node fails. */
  lemma ChangeDownOutcome(root: Node, path: Path)
    ensures NodesInPath(root, path).Err? ==> ChangeLocation(root, path, Down).Err?
    ensures NodesInPath(root, path).Ok? ==> var nodes := NodesInPath(root, path).value;
      && (ChangeLocation(root, path, Down) == Ok(Prohibited) <==>
            forall j :: 0 <= j < |path| ==> AtLastEntry(nodes[j], path[j]))
      && (ChangeLocation(root, path, Down).Err? <==>
            exists j :: 0 <= j < |path| && path[j] - nodes[j].paginator.start + 1 == |nodes[j].children|
              && nodes[j].paginator.total.None? && forall l :: j < l < |path| ==> AtLastEntry(nodes[l], path[l]))
  {
    if NodesInPath(root, path).Ok? {
      var nodes := NodesInPath(root, path).value;
      forall l | 0 <= l < |path|
        ensures nodes[l].paginator.start <= path[l] < nodes[l].paginator.start + |nodes[l].children|
      {
        NodesInPathAt(root, path, l);
      }
      ScanDownProhibited(nodes, path, |path|);
      ScanDownFails(nodes, path, |path|);
    }
  }

  /** `path_change_location` for Up over a path that leads to a node never
      fails, and finds no move exactly when every step is 0. */
  lemma ChangeUpOutcome(root: Node, path: Path)
    requires NodeAt(root, path).Ok?
    ensures ChangeLocation(root, path, Up).Ok?
    ensures ChangeLocation(root, path, Up) == Ok(Prohibited) <==> forall j :: 0 <= j < |path| ==> path[j] == 0
  {
    ScanUpOutcome(NodesInPath(root, path).value, path, |path|);
  }

  /** The first loop of `path_change_location` (src/utils.rs:100-114):
      the node at each step of the path, root first. */
  method CollectNodes(root: Node, path: Path) returns (r: Result<seq<Node>, Failure>)
    ensures r == NodesInPath(root, path)
  {
    var current := root;
    var nodes: seq<Node> := [];
    assert path[0..] == path;
    for i := 0 to |path|
      invariant |nodes| == i
      invariant NodesInPath(root, path).Ok? <==> NodesInPath(current, path[i..]).Ok?
      invariant NodesInPath(root, path).Ok? ==> NodesInPath(root, path).value == nodes + NodesInPath(current, path[i..]).value
    {
      assert path[i..][1..] == path[i + 1..];
      assert path[i..][0] == path[i];
      if path[i] < current.paginator.start || path[i] - current.paginator.start >= |current.children| {
        assert NodesInPath(root, path).error.Fail?;
        return Err(Fail);
      }
      var shifted := path[i] - current.paginator.start;
      ghost var rest := NodesInPath(current.children[shifted], path[i + 1..]);
      if rest.Ok? {
        assert nodes + ([current] + rest.value) == (nodes + [current]) + rest.value;
      }
      nodes := nodes + [current];
      current := current.children[shifted];
    }
    assert path[|path|..] == [];
    assert NodesInPath(current, path[|path|..]) == Ok([]);
    assert nodes + [] == nodes;
    r := Ok(nodes);
  }

  /** `path_change_location` (src/utils.rs:94-148): collects the nodes on
      the path, then scans them from the deepest up. */
  method PathChangeLocationOf(root: Node, path: Path, dir: CursorDirection) returns (r: Result<PathChangeLocation, Failure>)
    ensures r == ChangeLocation(root, path, dir)
  {
    var collected := CollectNodes(root, path);
    if collected.Err? {
      assert collected.error.Fail?;
      return Err(Fail);
    }
    var nodes := collected.value;
    var k: nat := |path|;
    while k > 0
      invariant k <= |path|
      invariant ScanLevels(nodes, path, dir, |path|) == ScanLevels(nodes, path, dir, k)
    {
      var i := k - 1;
      var node, step := nodes[i], path[i];
      match dir {
        case Up =>
          if step > 0 {
            if step == node.paginator.start {
              return Ok(PrevPage(i));
            } else {
              return Ok(MoveUp(i));
            }
          }
        case Down =>
          if step < node.paginator.start {
            return Err(Fail);
          }
          var shifted := step - node.paginator.start;
          if shifted + 1 < |node.children| {
            return Ok(MoveDown(i));
          } else if node.paginator.total.None? {
            return Err(Fail);
          } else if node.paginator.start + node.paginator.size < node.paginator.total.value {
            return Ok(NextPage(i));
          }
        case _ =>
          return Err(Fail);
      }
      k := i;
    }
    r := Ok(Prohibited);
  }

  // ---------------------------------------------------------------------
  // Changing the tree along a path

  /** The node with loaded child `s` replaced: how a walk that changed a
      child through `children_mut` leaves its parent. */
  function Graft(n: Node, s: nat, c: Node): (r: Node)
    requires s < |n.children|
    ensures |r.children| == |n.children| && r.children[s] == c
    ensures forall j :: 0 <= j < |n.children| && j != s ==> r.children[j] == n.children[j]
    ensures r.raw == n.raw && r.entry == n.entry && r.paginator == n.paginator
    ensures Sized(n) && Sized(c) ==> Sized(r)
  {
    n.(children := n.children[s := c])
  }

  /** Following a path through a grafted child is following the rest of it
      in that child. */
  lemma NodeAtGraft(n: Node, s: nat, c: Node, p: Path)
    requires s < |n.children|
    ensures NodeAt(Graft(n, s, c), [n.paginator.start + s] + p) == NodeAt(c, p)
  {
    assert ([n.paginator.start + s] + p)[1..] == p;
  }

  /** `make_children` with its `?`: the expanded node and the target it
      returned, or the failure. */
  function Expand(n: Node, t: Step): (r: Result<(Node, Step), Failure>)
    requires Sized(n)
    ensures r.Ok? <==> MakeChildrenSpec(n, t).1.Ok?
    ensures r.Ok? ==> r.value == (MakeChildrenSpec(n, t).0, MakeChildrenSpec(n, t).1.value)
    ensures r.Ok? ==> Sized(r.value.0)
  {
    MakeChildrenSized(n, t);
    var (m, x) := MakeChildrenSpec(n, t);
    if x.Err? then Err(Fail) else Ok((m, x.value))
  }

  /** Expanding a node from index 0 succeeds and returns 0. */
  lemma ExpandFromZero(n: Node)
    requires Sized(n)
    ensures Expand(n, 0).Ok? && Expand(n, 0).value.1 == 0
  {
    MakeChildrenFromZero(n);
  }

  /** `kill_children_at_index` (src/utils.rs:367-403): the children of the
      node `index` steps down the path are dropped. */
  function KillAt(n: Node, path: Path, index: nat): (r: Result<Node, Failure>)
    ensures r.Ok? ==> r.value.entry == n.entry && r.value.paginator == n.paginator
    ensures Sized(n) && r.Ok? ==> Sized(r.value)
    decreases |path|
  {
    if index == 0 then Ok(KillChildren(n))
    else if |path| == 0 || path[0] < n.paginator.start then Err(Fail)
    else
      var s := path[0] - n.paginator.start;
      if s < |n.children| then
        var c :- KillAt(n.children[s], path[1..], index - 1);
        Ok(Graft(n, s, c))
      else Err(Fail)
  }

  /** Clearing succeeds exactly when the first `index` steps of the path
      lead to a node. */
  lemma {:induction false} KillAtOk(n: Node, path: Path, index: nat)
    ensures KillAt(n, path, index).Ok? <==> index <= |path| && NodeAt(n, path[..index]).Ok?
    decreases |path|
  {
    if index > 0 && |path| > 0 {
      if index <= |path| {
        assert path[..index][0] == path[0];
        assert path[..index][1..] == path[1..][..index - 1];
      }
      if path[0] >= n.paginator.start && path[0] - n.paginator.start < |n.children| {
        KillAtOk(n.children[path[0] - n.paginator.start], path[1..], index - 1);
      }
    }
  }

  /** After clearing, the same steps lead to the node they led to before,
      now without children. */
  lemma {:induction false} KillAtKills(n: Node, path: Path, index: nat)
    requires KillAt(n, path, index).Ok?
    ensures index <= |path|
    ensures NodeAt(n, path[..index]).Ok?
    ensures NodeAt(KillAt(n, path, index).value, path[..index]) == Ok(KillChildren(NodeAt(n, path[..index]).value))
    decreases |path|
  {
    KillAtOk(n, path, index);
    if index > 0 {
      var s := path[0] - n.paginator.start;
      assert path[..index][0] == path[0];
      assert path[..index][1..] == path[1..][..index - 1];
      KillAtKills(n.children[s], path[1..], index - 1);
    }
  }

  // ---------------------------------------------------------------------
  // `validate_path`

  /** A node whose children are not loaded is expanded at the step; loaded
      children are kept and the step is unchanged. */
  function Load(n: Node, step: Step): (r: Result<(Node, Step), Failure>)
    requires Sized(n)
    ensures r.Ok? ==> Sized(r.value.0) && r.value.0.entry == n.entry
    ensures |n.children| > 0 ==> r == Ok((n, step))
  {
    if |n.children| == 0 then Expand(n, step) else Ok((n, step))
  }

  /** The preview at the end of a walk: a node without loaded children is
      expanded from 0. */
  function Preview(n: Node): (r: Result<Node, Failure>)
    requires Sized(n)
    ensures r.Ok? ==> Sized(r.value) && r.value.entry == n.entry
    ensures |n.children| > 0 ==> r == Ok(n)
  {
    if |n.children| == 0 then
      var e :- Expand(n, 0);
      Ok(e.0)
    else Ok(n)
  }

  /** A preview never fails. */
  lemma PreviewOk(n: Node)
    requires Sized(n)
    ensures Preview(n).Ok?
  {
    ExpandFromZero(n);
  }

  /** `validate_path` (src/utils.rs:228-264) from one node: the new node and
      the steps kept, cut at the first step without a loaded child. */
  function Validate(n: Node, steps: Path): (r: Result<(Node, Path), Failure>)
    requires Sized(n)
    ensures r.Ok? ==> Sized(r.value.0) && |r.value.1| <= |steps|
    decreases |steps|
  {
    if |steps| == 0 then Ok((n, []))
    else
      var loaded :- Load(n, steps[0]);
      var (n1, step) := loaded;
      if step < n1.paginator.start then Err(Fail)
      else
        var s := step - n1.paginator.start;
        if s >= |n1.children| then Ok((n1, []))
        else if |steps| == 1 then
          var c :- Preview(n1.children[s]);
          Ok((Graft(n1, s, c), [step]))
        else
          var sub :- Validate(n1.children[s], steps[1..]);
          Ok((Graft(n1, s, sub.0), [step] + sub.1))
  }

  /** The validated path leads to a node of the new tree. */
  lemma {:induction false} ValidateResolves(n: Node, steps: Path)
    requires Sized(n)
    ensures var r := Validate(n, steps);
      r.Ok? ==> NodeAt(r.value.0, r.value.1).Ok?
    decreases |steps|
  {
    if |steps| > 1 {
      var loaded := Load(n, steps[0]);
      if loaded.Ok? {
        var (n1, step) := loaded.value;
        if step >= n1.paginator.start && step - n1.paginator.start < |n1.children| {
          ValidateResolves(n1.children[step - n1.paginator.start], steps[1..]);
        }
      }
    }
  }

  /** A path that already leads to a node is kept as it is, and validating
      it cannot fail. */
  lemma {:induction false} ValidateKeepsLoaded(n: Node, steps: Path)
    requires Sized(n) && NodeAt(n, steps).Ok?
    ensures Validate(n, steps).Ok? && Validate(n, steps).value.1 == steps
    decreases |steps|
  {
    if |steps| > 0 {
      var s := steps[0] - n.paginator.start;
      if |steps| == 1 {
        PreviewOk(n.children[s]);
      } else {
        ValidateKeepsLoaded(n.children[s], steps[1..]);
      }
    }
  }
}
