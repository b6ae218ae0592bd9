/** The walks of src/utils.rs that change the tree while they rewrite the
    cursor: `set_path_steps_to_min`, `set_path_steps_to_max` and
    `update_path`. Each level of the walk may reload the current node's
    page, then steps into the child the (new) step selects; the result is
    the new root and the new path. */
module Walks {
  import opened Types
  import opened Tree
  import opened Navigation

  /** A node whose total exceeds its page size has its children dropped
      before it is reloaded, since the page will change. */
  function DropIfPaged(n: Node): (r: Node)
    requires Sized(n)
    ensures Sized(r) && r.raw == n.raw && r.entry == n.entry && r.paginator == n.paginator
    ensures n.paginator.total.Some? && n.paginator.total.value > n.paginator.size ==> r.children == []
    ensures !(n.paginator.total.Some? && n.paginator.total.value > n.paginator.size) ==> r == n
  {
    if n.paginator.total.Some? && n.paginator.total.value > n.paginator.size then KillChildren(n) else n
  }

  // ---------------------------------------------------------------------
  // `set_path_steps_to_min`

  /** The loop of `set_path_steps_to_min` from one node: every level is
      reloaded from index 0 and entered through the child at the returned
      step, read as a position in the loaded page. */
  function MinWalk(n: Node, steps: Path): (r: Result<(Node, Path), Failure>)
    requires Sized(n) && |steps| > 0
    ensures r.Ok? ==> Sized(r.value.0) && |r.value.1| <= |steps|
    decreases |steps|
  {
    var e :- Expand(DropIfPaged(n), 0);
    var (n1, step) := e;
    if step >= |n1.children| then Ok((n1, []))
    else if |steps| == 1 then
      var c :- Preview(n1.children[step]);
      Ok((Graft(n1, step, c), [step]))
    else
      var sub :- MinWalk(n1.children[step], steps[1..]);
      Ok((Graft(n1, step, sub.0), [step] + sub.1))
  }

  /** `set_path_steps_to_min` (src/utils.rs:150-187): an empty path fails
      at `len() - 1`. */
  function SetPathStepsToMin(root: Node, path: Path): (r: Result<(Node, Path), Failure>)
    requires Sized(root)
    ensures |path| == 0 ==> r.Err?
    ensures r.Ok? ==> Sized(r.value.0) && |r.value.1| <= |path|
  {
    if |path| == 0 then Err(Fail) else MinWalk(root, path)
  }

  /** Every level reloads from 0, so the walk never fails and every kept
      step is 0. */
  lemma {:induction false} MinWalkZeros(n: Node, steps: Path)
    requires Sized(n) && |steps| > 0
    ensures MinWalk(n, steps).Ok?
    ensures forall j :: 0 <= j < |MinWalk(n, steps).value.1| ==> MinWalk(n, steps).value.1[j] == 0
    decreases |steps|
  {
    ExpandFromZero(DropIfPaged(n));
    var (n1, step) := Expand(DropIfPaged(n), 0).value;
    if step < |n1.children| {
      if |steps| == 1 {
        PreviewOk(n1.children[step]);
      } else {
        MinWalkZeros(n1.children[step], steps[1..]);
      }
    }
  }

  /** `set_path_steps_to_min` fails exactly on the empty path, and otherwise
      yields a path of zeros no longer than the input. */
  lemma SetPathStepsToMinZeros(root: Node, path: Path)
    requires Sized(root)
    ensures SetPathStepsToMin(root, path).Ok? <==> |path| > 0
    ensures var r := SetPathStepsToMin(root, path);
      r.Ok? ==> forall j :: 0 <= j < |r.value.1| ==> r.value.1[j] == 0
  {
    if |path| > 0 {
      MinWalkZeros(root, path);
    }
  }

  // ---------------------------------------------------------------------
  // `set_path_steps_to_max`

  /** The loop of `set_path_steps_to_max` from one node: every level is
      reloaded for `Step::MAX` and then descended from, so each step kept
      is the last index of its level whenever that level's total is
      accurate, which it always is for a countable node whose total was
      unknown. */
  function MaxWalk(n: Node, steps: Path): (r: Result<(Node, Path), Failure>)
    requires Sized(n) && |steps| > 0
    ensures r.Ok? ==> Sized(r.value.0) && |r.value.1| <= |steps|
    ensures r.Ok? ==> LastAlong(r.value.0, r.value.1, 0)
    decreases |steps|, 1
  {
    MakeChildrenToLast(DropIfPaged(n));
    var e :- Expand(DropIfPaged(n), STEP_MAX);
    MaxDescend(e.0, e.1, steps)
  }

  /** The rest of one level of `set_path_steps_to_max`: the reloaded node
      is entered through the child at the returned step less the page
      start, or the path ends there when that child is not loaded. */
  function MaxDescend(n1: Node, step: Step, steps: Path): (r: Result<(Node, Path), Failure>)
    requires Sized(n1) && |steps| > 0
    ensures r.Ok? ==> Sized(r.value.0) && |r.value.1| <= |steps|
    ensures r.Ok? ==> r.value.0.raw == n1.raw && r.value.0.paginator == n1.paginator
    ensures r.Ok? && |r.value.1| > 0 ==>
      r.value.1[0] == step && n1.paginator.start <= step && step - n1.paginator.start < |r.value.0.children|
    ensures r.Ok? && (Counted(n1) ==> step == ItemCount(n1.raw.value) - 1) ==> LastAlong(r.value.0, r.value.1, 0)
    decreases |steps|, 0
  {
    if step < n1.paginator.start then Err(Fail)
    else
      var s := step - n1.paginator.start;
      if s >= |n1.children| then Ok((n1, []))
      else if |steps| == 1 then
        var c :- Preview(n1.children[s]);
        Ok((Graft(n1, s, c), [step]))
      else
        var sub :- MaxWalk(n1.children[s], steps[1..]);
        Ok((Graft(n1, s, sub.0), [step] + sub.1))
  }

  /** `set_path_steps_to_max` (src/utils.rs:189-226): an empty path is
      returned as it is, and any other path it returns leads to a node of
      the new tree. */
  function SetPathStepsToMax(root: Node, path: Path): (r: Result<(Node, Path), Failure>)
    requires Sized(root)
    ensures |path| == 0 ==> r == Ok((root, []))
    ensures r.Ok? ==> Sized(r.value.0) && |r.value.1| <= |path|
    ensures r.Ok? ==> NodeAt(r.value.0, r.value.1).Ok?
  {
    if |path| == 0 then Ok((root, []))
    else
      MaxWalkResolves(root, path);
      MaxWalk(root, path)
  }

  /** Step `j` of a path is the last index of the level it selects in,
      whenever that level's total is known and is its item count. */
  predicate LastIndexAt(root: Node, path: Path, j: nat)
    requires j < |path|
  {
    var level := NodeAt(root, path[..j]);
    level.Ok? && (Counted(level.value) ==> path[j] == ItemCount(level.value.raw.value) - 1)
  }

  /** The path leads to a node, and from level `from` on each step is the
      last index of its level whenever that level's total is accurate. */
  predicate LastAlong(n: Node, path: Path, from: nat)
    decreases |path|
  {
    || |path| == 0
    || (&& (from == 0 && Counted(n) ==> path[0] == ItemCount(n.raw.value) - 1)
        && n.paginator.start <= path[0] && path[0] - n.paginator.start < |n.children|
        && LastAlong(n.children[path[0] - n.paginator.start], path[1..], if from == 0 then 0 else from - 1))
  }

  /** `LastAlong` read level by level. */
  lemma {:induction false} LastAlongAt(n: Node, path: Path, from: nat, j: nat)
    requires LastAlong(n, path, from) && from <= j < |path|
    ensures LastIndexAt(n, path, j)
    decreases j
  {
    if j == 0 {
      assert path[..0] == [];
    } else {
      var child := n.children[path[0] - n.paginator.start];
      LastAlongAt(child, path[1..], if from == 0 then 0 else from - 1, j - 1);
      assert path[..j][0] == path[0] && path[..j][1..] == path[1..][..j - 1];
    }
  }

  /** A path with `LastAlong` leads to a node. */
  lemma {:induction false} LastAlongResolves(n: Node, path: Path, from: nat)
    requires LastAlong(n, path, from)
    ensures NodeAt(n, path).Ok?
    decreases |path|
  {
    if |path| > 0 {
      LastAlongResolves(n.children[path[0] - n.paginator.start], path[1..], if from == 0 then 0 else from - 1);
    }
  }

  /** The path `set_path_steps_to_max` keeps leads to a node of the new
      tree. */
  lemma MaxWalkResolves(n: Node, steps: Path)
    requires Sized(n) && |steps| > 0
    ensures var r := MaxWalk(n, steps);
      r.Ok? ==> NodeAt(r.value.0, r.value.1).Ok?
  {
    var r := MaxWalk(n, steps);
    if r.Ok? {
      LastAlongResolves(r.value.0, r.value.1, 0);
    }
  }

  /** `set_path_steps_to_max` jumps to the last reachable entry: every step
      it keeps is the last index of its level whenever that level's total
      is accurate. */
  lemma SetPathStepsToMaxLast(root: Node, path: Path)
    requires Sized(root)
    ensures var r := SetPathStepsToMax(root, path);
      r.Ok? ==> forall j :: 0 <= j < |r.value.1| ==> LastIndexAt(r.value.0, r.value.1, j)
  {
    var r := SetPathStepsToMax(root, path);
    if |path| > 0 && r.Ok? {
      forall j | 0 <= j < |r.value.1|
        ensures LastIndexAt(r.value.0, r.value.1, j)
      {
        LastAlongAt(r.value.0, r.value.1, 0, j);
      }
    }
  }

  // ---------------------------------------------------------------------
  // `update_path`

  /** `UpdatePath` (src/utils.rs:65-71): a vertical move at a level, or a
      move into or out of the focused node. */
  datatype UpdatePath =
    | StepUp(index: nat)
    | StepDown(index: nat)
    | StepRight
    | StepLeft

  /** `update_path` (src/utils.rs:266-365). Its loop matches on the change
      at every level; the kind of change is fixed for the whole walk, so the
      loop is written as one walk per kind. An empty path is returned as it
      is. */
  function UpdatePathSpec(root: Node, path: Path, change: UpdatePath): (r: Result<(Node, Path), Failure>)
    requires Sized(root)
    ensures |path| == 0 ==> r == Ok((root, []))
    ensures r.Ok? ==> Sized(r.value.0)
  {
    if |path| == 0 then Ok((root, []))
    else
      match change
      case StepUp(c) => VerticalWalk(root, path, 0, c, false)
      case StepDown(c) => VerticalWalk(root, path, 0, c, true)
      case StepLeft => LeftWalk(root, path, 0)
      case StepRight => RightWalk(root, path, 0)
  }

  /** The first match of src/utils.rs:281-309 at level `i` for a vertical
      move at level `c`: that level steps by one (saturating) and reloads
      only when it leaves the loaded page; every deeper level is reloaded
      from its first (Down) or last (Up) page, Up leaving the step on the
      level's last index when the total is accurate. */
  function Reposition(n: Node, step: Step, i: nat, c: nat, down: bool): (r: Result<(Node, Step), Failure>)
    requires Sized(n)
    ensures r.Ok? ==> Sized(r.value.0)
    ensures i < c ==> r == Ok((n, step))
    ensures down && i > c ==> r.Ok? && r.value.1 == 0
    ensures !down && i > c && Countable(n) && (n.paginator.total.None? || Counted(n)) ==> r.Ok? && Counted(r.value.0)
    ensures !down && i > c && r.Ok? && Counted(r.value.0) ==>
      && r.value.1 == ItemCount(r.value.0.raw.value) - 1
      && r.value.0.paginator.start <= r.value.1 && r.value.1 - r.value.0.paginator.start + 1 == |r.value.0.children|
  {
    if i < c then Ok((n, step))
    else if i == c then
      if down then
        var st := SaturatingInc(step);
        if st >= n.paginator.start + n.paginator.size then Expand(KillChildren(n), st) else Ok((n, st))
      else
        var st := SaturatingDec(step);
        if st < n.paginator.start then Expand(KillChildren(n), st) else Ok((n, st))
    else if down then
      ExpandFromZero(KillChildren(n));
      Expand(KillChildren(n), 0)
    else
      MakeChildrenToLast(KillChildren(n));
      Expand(KillChildren(n), STEP_MAX)
  }

  /** The walk of `update_path` for Up (`down` false) or Down at level `c`,
      from level `i`: the new node and the steps kept from level `i` on. */
  function VerticalWalk(n: Node, path: Path, i: nat, c: nat, down: bool): (r: Result<(Node, Path), Failure>)
    requires Sized(n) && i < |path|
    ensures r.Ok? ==> Sized(r.value.0) && |r.value.1| <= |path| - i
    ensures r.Ok? ==> forall j :: 0 <= j < |r.value.1| && i + j < c ==> r.value.1[j] == path[i + j]
    ensures r.Ok? && down ==> forall j :: 0 <= j < |r.value.1| && i + j > c ==> r.value.1[j] == 0
    ensures r.Ok? && i == c && |r.value.1| > 0 ==>
      && (down && SaturatingInc(path[c]) < n.paginator.start + n.paginator.size ==> r.value.1[0] == SaturatingInc(path[c]))
      && (!down && n.paginator.start <= SaturatingDec(path[c]) ==> r.value.1[0] == SaturatingDec(path[c]))
    ensures r.Ok? && !down ==> LastAlong(r.value.0, r.value.1, BelowMove(i, c))
    decreases |path| - i, 1
  {
    var a :- Reposition(n, path[i], i, c, down);
    VerticalDescend(a.0, a.1, path, i, c, down)
  }

  /** The rest of level `i` of the vertical walk: the repositioned node is
      entered through the child at the new step less the page start, the
      path ends there when that child is not loaded, and the focused node
      is previewed (src/utils.rs:320-331). */
  function VerticalDescend(n1: Node, step: Step, path: Path, i: nat, c: nat, down: bool): (r: Result<(Node, Path), Failure>)
    requires Sized(n1) && i < |path|
    ensures r.Ok? ==> Sized(r.value.0) && |r.value.1| <= |path| - i
    ensures r.Ok? ==> r.value.0.raw == n1.raw && r.value.0.paginator == n1.paginator
    ensures r.Ok? && |r.value.1| > 0 ==>
      r.value.1[0] == step && n1.paginator.start <= step && step - n1.paginator.start < |r.value.0.children|
    ensures r.Ok? ==> forall j :: 0 < j < |r.value.1| && i + j < c ==> r.value.1[j] == path[i + j]
    ensures r.Ok? && down ==> forall j :: 0 < j < |r.value.1| && i + j > c ==> r.value.1[j] == 0
    ensures r.Ok? && !down && (i > c && Counted(n1) ==> step == ItemCount(n1.raw.value) - 1) ==>
      LastAlong(r.value.0, r.value.1, BelowMove(i, c))
    decreases |path| - i, 0
  {
    if step < n1.paginator.start then Err(Fail)
    else
      var s := step - n1.paginator.start;
      if s >= |n1.children| then Ok((n1, []))
      else if i + 1 == |path| then
        var p :- Preview(n1.children[s]);
        Ok((Graft(n1, s, p), [step]))
      else
        var w :- VerticalWalk(n1.children[s], path, i + 1, c, down);
        Ok((Graft(n1, s, w.0), [step] + w.1))
  }

  /** The first level an Up walk at level `c` reloads for `Step::MAX`,
      counted from level `i`. */
  function BelowMove(i: nat, c: nat): nat {
    if c + 1 >= i then c + 1 - i else 0
  }

  /** `update_path` with Up at level `c` jumps to the last reachable entry
      below it: every step kept past level `c` is the last index of its
      level whenever that level's total is accurate (the mirror of the
      zeros a Down move leaves there). */
  lemma UpdatePathUpLast(root: Node, path: Path, c: nat)
    requires Sized(root)
    ensures var r := UpdatePathSpec(root, path, StepUp(c));
      r.Ok? ==> forall j :: c < j < |r.value.1| ==> LastIndexAt(r.value.0, r.value.1, j)
  {
    var r := UpdatePathSpec(root, path, StepUp(c));
    if |path| > 0 && r.Ok? {
      forall j | c < j < |r.value.1|
        ensures LastIndexAt(r.value.0, r.value.1, j)
      {
        LastAlongAt(r.value.0, r.value.1, BelowMove(0, c), j);
      }
    }
  }

  /** The walk of `update_path` for Left from level `i` (src/utils.rs:333-342):
      at the second-to-last level the node returned to loses its children,
      its page start goes back to 0 and it is reloaded from 0; the path is
      drained from the last level. The Rust loop still visits that last
      level, where Left changes nothing, so the walk stops. */
  function LeftWalk(n: Node, path: Path, i: nat): (r: Result<(Node, Path), Failure>)
    requires Sized(n) && i < |path|
    ensures r.Ok? ==> Sized(r.value.0) && |r.value.1| <= |path| - i
    decreases |path| - i
  {
    if path[i] < n.paginator.start then Err(Fail)
    else
      var s := path[i] - n.paginator.start;
      if s >= |n.children| then Ok((n, []))
      else if i + 1 == |path| then Ok((n, [path[i]]))
      else if i + 2 == |path| then
        var k := KillChildren(n.children[s]);
        SizedChild(n, s);
        var e :- Expand(k.(paginator := k.paginator.(start := 0)), 0);
        Ok((Graft(n, s, e.0), [path[i]]))
      else
        var w :- LeftWalk(n.children[s], path, i + 1);
        Ok((Graft(n, s, w.0), [path[i]] + w.1))
  }

  /** The walk of `update_path` for Right from level `i`
      (src/utils.rs:343-352): at the last level, when the focused node has a
      loaded child at position 0, that child is expanded from 0 and 0 is
      appended to the path. The path is drained and extended in one go,
      since the extension is only made when nothing was drained. */
  function RightWalk(n: Node, path: Path, i: nat): (r: Result<(Node, Path), Failure>)
    requires Sized(n) && i < |path|
    ensures r.Ok? ==> Sized(r.value.0) && |r.value.1| <= |path| - i + 1
    decreases |path| - i
  {
    if path[i] < n.paginator.start then Err(Fail)
    else
      var s := path[i] - n.paginator.start;
      if s >= |n.children| then Ok((n, []))
      else
        var c := n.children[s];
        if i + 1 == |path| then
          if |c.children| > 0 then
            SizedChild(n, s);
            SizedChild(c, 0);
            var e :- Expand(c.children[0], 0);
            Ok((Graft(n, s, Graft(c, 0, e.0)), [path[i], 0]))
          else Ok((n, [path[i]]))
        else
          var w :- RightWalk(c, path, i + 1);
          Ok((Graft(n, s, w.0), [path[i]] + w.1))
  }

  /** Above the level of a vertical move the walk keeps the step and
      continues in the child it selects. */
  lemma VerticalWalkAbove(n: Node, path: Path, i: nat, c: nat, down: bool)
    requires Sized(n) && i < c < |path|
    requires n.paginator.start <= path[i] && path[i] - n.paginator.start < |n.children|
    requires Sized(n.children[path[i] - n.paginator.start])
    ensures var s := path[i] - n.paginator.start;
      var w := VerticalWalk(n.children[s], path, i + 1, c, down);
      VerticalWalk(n, path, i, c, down) == if w.Err? then Err(Fail) else Ok((Graft(n, s, w.value.0), [path[i]] + w.value.1))
  {
    var s := path[i] - n.paginator.start;
    var w := VerticalWalk(n.children[s], path, i + 1, c, down);
    var r := VerticalWalk(n, path, i, c, down);
    assert Reposition(n, path[i], i, c, down) == Ok((n, path[i]));
    assert r == VerticalDescend(n, path[i], path, i, c, down);
    assert i + 1 != |path|;
    if w.Err? {
      assert w.error.Fail?;
      assert r.Err?;
    } else {
      assert r == Ok((Graft(n, s, w.value.0), [path[i]] + w.value.1));
    }
  }

  /** So the step at the moved level is the one the child's walk chose. */
  lemma VerticalPassesThrough(n: Node, path: Path, i: nat, c: nat, down: bool)
    requires Sized(n) && i < c < |path|
    requires n.paginator.start <= path[i] && path[i] - n.paginator.start < |n.children|
    requires Sized(n.children[path[i] - n.paginator.start])
    ensures var w := VerticalWalk(n.children[path[i] - n.paginator.start], path, i + 1, c, down);
      var r := VerticalWalk(n, path, i, c, down);
      r.Ok? && c - i < |r.value.1| ==> w.Ok? && c - (i + 1) < |w.value.1| && r.value.1[c - i] == w.value.1[c - (i + 1)]
  {
    VerticalWalkAbove(n, path, i, c, down);
    var w := VerticalWalk(n.children[path[i] - n.paginator.start], path, i + 1, c, down);
    if w.Ok? {
      var steps := [path[i]] + w.value.1;
      if c - i < |steps| {
        assert steps[c - i] == w.value.1[c - (i + 1)];
      }
    }
  }

  /** At the level of a vertical move the step moves by one (saturating)
      whenever the new step stays on the page loaded there. */
  lemma {:induction false} VerticalMoved(n: Node, path: Path, i: nat, c: nat, down: bool)
    requires Sized(n) && i <= c < |path| && NodeAt(n, path[i..c]).Ok?
    ensures var node := NodeAt(n, path[i..c]).value;
      var r := VerticalWalk(n, path, i, c, down);
      r.Ok? && c - i < |r.value.1| ==>
        && (down && SaturatingInc(path[c]) < node.paginator.start + node.paginator.size ==>
              r.value.1[c - i] == SaturatingInc(path[c]))
        && (!down && node.paginator.start <= SaturatingDec(path[c]) ==>
              r.value.1[c - i] == SaturatingDec(path[c]))
    decreases c - i
  {
    if i < c {
      var s := path[i] - n.paginator.start;
      assert path[i..c][0] == path[i];
      assert path[i..c][1..] == path[i + 1..c];
      var child := n.children[s];
      assert NodeAt(n, path[i..c]) == NodeAt(child, path[i + 1..c]);
      SizedChild(n, s);
      VerticalMoved(child, path, i + 1, c, down);
      VerticalPassesThrough(n, path, i, c, down);
    } else {
      assert path[i..c] == [];
    }
  }

  /** `update_path` with Up or Down at level `c` of a path whose first `c`
      steps lead to a node: the moved step is the old one plus or minus one
      when that stays on the node's loaded page. */
  lemma UpdatePathMoved(root: Node, path: Path, change: UpdatePath)
    requires Sized(root) && (change.StepUp? || change.StepDown?)
    requires change.index < |path| && NodeAt(root, path[..change.index]).Ok?
    ensures var node := NodeAt(root, path[..change.index]).value;
      var c := change.index;
      var r := UpdatePathSpec(root, path, change);
      r.Ok? && c < |r.value.1| ==>
        && (change.StepDown? && SaturatingInc(path[c]) < node.paginator.start + node.paginator.size ==>
              r.value.1[c] == SaturatingInc(path[c]))
        && (change.StepUp? && node.paginator.start <= SaturatingDec(path[c]) ==>
              r.value.1[c] == SaturatingDec(path[c]))
  {
    assert path[0..change.index] == path[..change.index];
    VerticalMoved(root, path, 0, change.index, change.StepDown?);
  }

  /** Left, walked from level `i` along a path whose steps up to the
      second-to-last lead to a node: succeeds, keeps exactly those steps,
      and the node they lead to has its page start back at 0. */
  lemma {:induction false} LeftWalkDrops(n: Node, path: Path, i: nat)
    requires Sized(n) && 2 <= |path| && i <= |path| - 2
    requires NodeAt(n, path[i..|path| - 1]).Ok?
    ensures var r := LeftWalk(n, path, i);
      && r.Ok? && r.value.1 == path[i..|path| - 1]
      && NodeAt(r.value.0, r.value.1).Ok? && NodeAt(r.value.0, r.value.1).value.paginator.start == 0
    decreases |path| - i
  {
    var s := path[i] - n.paginator.start;
    assert path[i..|path| - 1][0] == path[i];
    assert path[i..|path| - 1][1..] == path[i + 1..|path| - 1];
    var c := n.children[s];
    if i + 2 == |path| {
      var k := KillChildren(c);
      var k0 := k.(paginator := k.paginator.(start := 0));
      ExpandFromZero(k0);
      MakeChildrenKeepsStart(k0);
      var e := Expand(k0, 0).value.0;
      assert NodeAt(e, []) == Ok(e);
      assert NodeAt(Graft(n, s, e), [path[i]]) == NodeAt(e, []);
    } else {
      LeftWalkDrops(c, path, i + 1);
      var w := LeftWalk(c, path, i + 1).value;
      assert [path[i]] + path[i + 1..|path| - 1] == path[i..|path| - 1];
      assert ([path[i]] + w.1)[1..] == w.1;
    }
  }

  /** `update_path` with Left on a path of at least two steps, all but the
      last leading to a node: exactly the last step is dropped, and the node
      the cursor returns to shows its first page. */
  lemma UpdatePathLeft(root: Node, path: Path)
    requires Sized(root) && |path| >= 2 && NodeAt(root, path[..|path| - 1]).Ok?
    ensures var r := UpdatePathSpec(root, path, StepLeft);
      && r.Ok? && r.value.1 == path[..|path| - 1]
      && NodeAt(r.value.0, r.value.1).Ok? && NodeAt(r.value.0, r.value.1).value.paginator.start == 0
  {
    assert path[0..|path| - 1] == path[..|path| - 1];
    LeftWalkDrops(root, path, 0);
  }

  /** `update_path` with Left on a path of one step that leads to a node
      changes neither the tree nor the path. */
  lemma UpdatePathLeftShort(root: Node, path: Path)
    requires Sized(root) && |path| <= 1 && NodeAt(root, path).Ok?
    ensures UpdatePathSpec(root, path, StepLeft) == Ok((root, path))
  {
    if |path| == 1 {
      assert [path[0]] == path;
    }
  }

  /** Right, walked from level `i` along a path that leads to a node: keeps
      the path and appends 0 exactly when that node has a loaded child. */
  lemma {:induction false} RightWalkExtends(n: Node, path: Path, i: nat)
    requires Sized(n) && i < |path| && NodeAt(n, path[i..]).Ok?
    ensures var focused := NodeAt(n, path[i..]).value;
      var r := RightWalk(n, path, i);
      r.Ok? && r.value.1 == path[i..] + (if |focused.children| > 0 then [0] else [])
    decreases |path| - i
  {
    var s := path[i] - n.paginator.start;
    assert path[i..][0] == path[i];
    assert path[i..][1..] == path[i + 1..];
    var c := n.children[s];
    if i + 1 == |path| {
      assert path[i + 1..] == [] && path[i..] == [path[i]];
      if |c.children| > 0 {
        ExpandFromZero(c.children[0]);
      }
    } else {
      RightWalkExtends(c, path, i + 1);
      assert path[i..] == [path[i]] + path[i + 1..];
    }
  }

  /** `update_path` with Right on a path that leads to a node: the path is
      kept and extended by 0 exactly when that node has a loaded child. */
  lemma UpdatePathRight(root: Node, path: Path)
    requires Sized(root) && |path| > 0 && NodeAt(root, path).Ok?
    ensures var focused := NodeAt(root, path).value;
      var r := UpdatePathSpec(root, path, StepRight);
      r.Ok? && r.value.1 == path + (if |focused.children| > 0 then [0] else [])
  {
    assert path[0..] == path;
    RightWalkExtends(root, path, 0);
  }
}
