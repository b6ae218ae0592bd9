/** The lazily expanded tree of src/node.rs. A node holds the JSON value it
    stands for, its entry (display name and global index path), the page of
    children loaded so far and the paginator that says which page that is.
    The JSON text itself is replaced by an abstract value whose scalars carry
    their serialised form. */
module Tree {
  import opened Types
  import opened Paging

  /** A JSON value: objects keep their members in source order; a scalar
      (string, number, boolean or null) is kept as its serialised text. */
  datatype Json =
    | Object(members: seq<(string, Json)>)
    | Array(items: seq<Json>)
    | Scalar(rendered: string, isString: bool)

  /** `Node`: the value (`None` for a leaf built from a scalar), the entry,
      the loaded children and the paginator. */
  datatype Node = Node(raw: Option<Json>, entry: Entry, children: seq<Node>, paginator: Paginator)

  /** `Node::new`: a node with no children loaded. */
  function NewNode(raw: Option<Json>, entry: Entry, paginator: Paginator): (n: Node)
    ensures n.children == [] && n.raw == raw && n.entry == entry && n.paginator == paginator
  {
    Node(raw, entry, [], paginator)
  }

  /** `kill_children`: drops the loaded children and keeps everything else. */
  function KillChildren(n: Node): (r: Node)
    ensures r.children == []
    ensures r.raw == n.raw && r.entry == n.entry && r.paginator == n.paginator
  {
    n.(children := [])
  }

  /** Every paginator in the tree has a positive page size that fits a
      `usize`. */
  predicate Sized(n: Node)
    decreases n
  {
    0 < n.paginator.size <= STEP_MAX && forall i :: 0 <= i < |n.children| ==> Sized(n.children[i])
  }

  /** The loaded children of a sized node are sized. */
  lemma SizedChild(n: Node, s: nat)
    requires Sized(n) && s < |n.children|
    ensures Sized(n.children[s])
    ensures 0 < n.children[s].paginator.size <= STEP_MAX
  {
  }

  // ---------------------------------------------------------------------
  // Building children

  /** The display name of a scalar: a string's serialised form without its
      first and last characters (empty when that form has at most two), any
      other scalar's serialised form as it is. */
  function ScalarName(rendered: string, isString: bool): (name: string)
    ensures !isString ==> name == rendered
    ensures isString && |rendered| <= 2 ==> name == []
    ensures isString && |rendered| > 2 ==>
      |name| == |rendered| - 2 && forall i :: 0 <= i < |name| ==> name[i] == rendered[i + 1]
  {
    if !isString then rendered
    else if |rendered| <= 2 then []
    else rendered[1..|rendered| - 1]
  }

  const OBJECT_LABEL: string := "{...}"
  const ARRAY_LABEL: string := "[...]"

  /** A leaf made from a scalar: no value and a total of zero children. */
  function LeafNode(size: nat, name: string, path: Path): Node {
    NewNode(None, Entry(name, path), Paginator(size, 0, Some(0)))
  }

  /** The child made from an object member: named by its key, keeping its
      value whatever kind it is, with a fresh paginator. */
  function MemberChild(size: nat, path: Path, member: (string, Json)): Node {
    NewNode(Some(member.1), Entry(member.0, path), Paginator(size, 0, None))
  }

  /** The child made from an array element: containers keep their value
      under a placeholder label, scalars become leaves. */
  function ElementChild(size: nat, path: Path, item: Json): Node {
    match item
    case Object(_) => NewNode(Some(item), Entry(OBJECT_LABEL, path), Paginator(size, 0, None))
    case Array(_) => NewNode(Some(item), Entry(ARRAY_LABEL, path), Paginator(size, 0, None))
    case Scalar(rendered, isString) => LeafNode(size, ScalarName(rendered, isString), path)
  }

  /** The `k`-th child of a page starting at global index `start` has the
      parent's path followed by `start + k`. */
  function ChildPath(base: Path, start: nat, k: nat): Path {
    base + [start + k]
  }

  function MemberChildren(size: nat, base: Path, start: nat, page: seq<(string, Json)>): (cs: seq<Node>)
    ensures |cs| == |page|
    ensures forall k :: 0 <= k < |cs| ==> cs[k].paginator.size == size && cs[k].children == []
  {
    seq(|page|, k requires 0 <= k < |page| => MemberChild(size, ChildPath(base, start, k), page[k]))
  }

  function ElementChildren(size: nat, base: Path, start: nat, page: seq<Json>): (cs: seq<Node>)
    ensures |cs| == |page|
    ensures forall k :: 0 <= k < |cs| ==> cs[k].paginator.size == size && cs[k].children == []
  {
    seq(|page|, k requires 0 <= k < |page| => ElementChild(size, ChildPath(base, start, k), page[k]))
  }

  /** Numbering `n` children from `start` needs `checked_add` to step past
      `Step::MAX`. */
  predicate StepsOverflow(start: nat, n: nat) {
    start <= STEP_MAX < start + n
  }

  /** `make_children`: the node with its children replaced by the page that
      holds `target`, and the target as the windowing left it. A failure
      inside the windowing leaves the node as it was; an index overflow
      after it leaves the new paginator in place. */
  function MakeChildrenSpec(n: Node, target: Step): (r: (Node, Result<Step, Failure>))
    requires n.paginator.size > 0
    ensures r.0.raw == n.raw && r.0.entry == n.entry && r.0.paginator.size == n.paginator.size
  {
    match n.raw
    case None => (n.(children := []), Ok(target))
    case Some(Object(members)) =>
      var v := VisitMapSpec(n.paginator, target, members, []);
      if v.Err? then (n, Err(Fail))
      else
        var p := v.value.paginator;
        if StepsOverflow(p.start, |v.value.data|) then (n.(paginator := p), Err(Fail))
        else (n.(paginator := p, children := MemberChildren(p.size, n.entry.path, p.start, v.value.data)), Ok(v.value.target))
    case Some(Array(items)) =>
      var v := VisitSeqSpec(n.paginator, target, items, []);
      if v.Err? then (n, Err(Fail))
      else
        var p := v.value.paginator;
        if StepsOverflow(p.start, |v.value.data|) then (n.(paginator := p), Err(Fail))
        else (n.(paginator := p, children := ElementChildren(p.size, n.entry.path, p.start, v.value.data)), Ok(v.value.target))
    case Some(Scalar(rendered, isString)) =>
      var p := n.paginator.(total := Some(1));
      var child := LeafNode(p.size, ScalarName(rendered, isString), n.entry.path + [n.paginator.start]);
      (n.(paginator := p, children := [child]), Ok(0))
  }

  /** The loop of src/node.rs:107-117 numbering the children of an object
      page: one child per member, the last path step counting up from
      `start` with `checked_add`. */
  method NumberMembers(size: nat, base: Path, start: nat, page: seq<(string, Json)>) returns (children: seq<Node>, ok: bool)
    ensures ok == !StepsOverflow(start, |page|)
    ensures ok ==> children == MemberChildren(size, base, start, page)
  {
    children := [];
    var path := base + [start];
    for k := 0 to |page|
      invariant path == ChildPath(base, start, k)
      invariant !StepsOverflow(start, k)
      invariant children == MemberChildren(size, base, start, page)[..k]
    {
      children := children + [MemberChild(size, path, page[k])];
      var last := path[|path| - 1];
      if last == STEP_MAX {
        return children, false;
      }
      path := path[..|path| - 1] + [last + 1];
    }
    assert children == MemberChildren(size, base, start, page);
    ok := true;
  }

  /** The loop of src/node.rs:130-169 numbering the children of an array
      page, as `NumberMembers`. */
  method NumberElements(size: nat, base: Path, start: nat, page: seq<Json>) returns (children: seq<Node>, ok: bool)
    ensures ok == !StepsOverflow(start, |page|)
    ensures ok ==> children == ElementChildren(size, base, start, page)
  {
    children := [];
    var path := base + [start];
    for k := 0 to |page|
      invariant path == ChildPath(base, start, k)
      invariant !StepsOverflow(start, k)
      invariant children == ElementChildren(size, base, start, page)[..k]
    {
      var node := ElementChild(size, path, page[k]);
      var last := path[|path| - 1];
      if last == STEP_MAX {
        return children, false;
      }
      path := path[..|path| - 1] + [last + 1];
      children := children + [node];
    }
    assert children == ElementChildren(size, base, start, page);
    ok := true;
  }

  /** `make_children` (src/node.rs:86-206): windows the value, then numbers
      the children of the page it keeps. */
  method MakeChildren(n: Node, target: Step) returns (m: Node, r: Result<Step, Failure>)
    requires n.paginator.size > 0
    ensures (m, r) == MakeChildrenSpec(n, target)
  {
    match n.raw {
      case None =>
        m, r := n.(children := []), Ok(target);
      case Some(Object(members)) =>
        var treemap := new PaginatedMap<string, Json>(n.paginator);
        var visited := treemap.VisitMap(members, target);
        if visited.Err? {
          return n, Err(Fail);
        }
        var children, ok := NumberMembers(treemap.paginator.size, n.entry.path, treemap.paginator.start, treemap.data);
        if !ok {
          return n.(paginator := treemap.paginator), Err(Fail);
        }
        m, r := n.(paginator := treemap.paginator, children := children), Ok(visited.value);
      case Some(Array(items)) =>
        var vector := new PaginatedVec<Json>(n.paginator);
        var visited := vector.VisitSeq(items, target);
        if visited.Err? {
          return n, Err(Fail);
        }
        var children, ok := NumberElements(vector.paginator.size, n.entry.path, vector.paginator.start, vector.data);
        if !ok {
          return n.(paginator := vector.paginator), Err(Fail);
        }
        m, r := n.(paginator := vector.paginator, children := children), Ok(visited.value);
      case Some(Scalar(rendered, isString)) =>
        var p := n.paginator.(total := Some(1));
        var child := LeafNode(p.size, ScalarName(rendered, isString), n.entry.path + [n.paginator.start]);
        m, r := n.(paginator := p, children := [child]), Ok(0);
    }
  }

  // ---------------------------------------------------------------------
  // Properties of `make_children`

  /** Without a value there is nothing to expand: the children are dropped
      and the target comes back unchanged. */
  lemma MakeChildrenNoValue(n: Node, target: Step)
    requires n.paginator.size > 0 && n.raw.None?
    ensures MakeChildrenSpec(n, target) == (KillChildren(n), Ok(target))
  {
  }

  /** The children of an object whose keys are distinct: child `k` is the
      member at global index `start + k`, named by its key, keeping its
      value, with a fresh paginator and its index appended to the path; the
      window's paginator is copied into the node. */
  lemma MakeChildrenMembers(n: Node, target: Step)
    requires n.paginator.size > 0 && n.raw.Some? && n.raw.value.Object?
    requires DistinctKeys(n.raw.value.members)
    ensures var (m, r) := MakeChildrenSpec(n, target);
      var members := n.raw.value.members;
      var v := VisitMapSpec(n.paginator, target, members, []);
      r.Ok? ==>
        && v.Ok? && m.paginator == v.value.paginator && r.value == v.value.target
        && |m.children| <= n.paginator.size
        && forall k :: 0 <= k < |m.children| ==>
             var i := m.paginator.start + k;
             && i < |members|
             && m.children[k].entry == Entry(members[i].0, n.entry.path + [i])
             && m.children[k].raw == Some(members[i].1)
             && m.children[k].paginator == Paginator(n.paginator.size, 0, None)
             && m.children[k].children == []
  {
    var members := n.raw.value.members;
    var (m, r) := MakeChildrenSpec(n, target);
    if r.Ok? {
      var v := VisitMapSpec(n.paginator, target, members, []);
      var p := v.value.paginator;
      assert m.children == MemberChildren(p.size, n.entry.path, p.start, v.value.data);
      VisitMapDistinct(n.paginator, target, members, []);
      VisitSeqContiguous(n.paginator, target, members);
      MembersOfRun(p.size, n.entry.path, members, p.start, v.value.data);
    }
  }

  /** Children numbered from a run of members starting at `start`: child
      `k` is member `start + k`. */
  lemma MembersOfRun(size: nat, base: Path, members: seq<(string, Json)>, start: nat, page: seq<(string, Json)>)
    requires RunAt(members, start, page)
    ensures var cs := MemberChildren(size, base, start, page);
      forall k :: 0 <= k < |cs| ==>
        && start + k < |members|
        && cs[k].entry == Entry(members[start + k].0, base + [start + k])
        && cs[k].raw == Some(members[start + k].1)
        && cs[k].paginator == Paginator(size, 0, None)
        && cs[k].children == []
  {
    var cs := MemberChildren(size, base, start, page);
    forall k | 0 <= k < |cs|
      ensures start + k < |members| && page[k] == members[start + k]
    {
      assert page[k] == members[start..start + |page|][k];
    }
  }

  /** The children of an array: child `k` is the element at global index
      `start + k`; objects and arrays keep their value under a placeholder
      label and a fresh paginator, scalars become leaves named by
      `ScalarName` with a total of zero. */
  lemma MakeChildrenElements(n: Node, target: Step)
    requires n.paginator.size > 0 && n.raw.Some? && n.raw.value.Array?
    ensures var (m, r) := MakeChildrenSpec(n, target);
      var items := n.raw.value.items;
      var v := VisitSeqSpec(n.paginator, target, items, []);
      r.Ok? ==>
        && v.Ok? && m.paginator == v.value.paginator && r.value == v.value.target
        && |m.children| <= n.paginator.size
        && forall k :: 0 <= k < |m.children| ==>
             var i := m.paginator.start + k;
             && i < |items|
             && m.children[k].entry.path == n.entry.path + [i]
             && m.children[k].children == []
             && match items[i]
                case Object(_) =>
                  m.children[k].entry.name == OBJECT_LABEL && m.children[k].raw == Some(items[i])
                  && m.children[k].paginator == Paginator(n.paginator.size, 0, None)
                case Array(_) =>
                  m.children[k].entry.name == ARRAY_LABEL && m.children[k].raw == Some(items[i])
                  && m.children[k].paginator == Paginator(n.paginator.size, 0, None)
                case Scalar(rendered, isString) =>
                  m.children[k].entry.name == ScalarName(rendered, isString) && m.children[k].raw.None?
                  && m.children[k].paginator == Paginator(n.paginator.size, 0, Some(0))
  {
    var items := n.raw.value.items;
    var (m, r) := MakeChildrenSpec(n, target);
    if r.Ok? {
      var v := VisitSeqSpec(n.paginator, target, items, []);
      var p := v.value.paginator;
      assert m.children == ElementChildren(p.size, n.entry.path, p.start, v.value.data);
      VisitSeqContiguous(n.paginator, target, items);
      ElementsOfRun(p.size, n.entry.path, items, p.start, v.value.data);
    }
  }

  /** Children numbered from a run of elements starting at `start`: child
      `k` is made from element `start + k`. */
  lemma ElementsOfRun(size: nat, base: Path, items: seq<Json>, start: nat, page: seq<Json>)
    requires RunAt(items, start, page)
    ensures var cs := ElementChildren(size, base, start, page);
      forall k :: 0 <= k < |cs| ==>
        start + k < |items| && cs[k] == ElementChild(size, base + [start + k], items[start + k])
  {
    var cs := ElementChildren(size, base, start, page);
    forall k | 0 <= k < |cs|
      ensures start + k < |items| && page[k] == items[start + k]
    {
      assert page[k] == items[start..start + |page|][k];
    }
  }

  /** A scalar expands to exactly one leaf at the current page start; the
      total becomes one and the target is reset to 0. */
  lemma MakeChildrenScalar(n: Node, target: Step)
    requires n.paginator.size > 0 && n.raw.Some? && n.raw.value.Scalar?
    ensures var (m, r) := MakeChildrenSpec(n, target);
      && r == Ok(0)
      && m.paginator == n.paginator.(total := Some(1))
      && |m.children| == 1
      && m.children[0].entry == Entry(ScalarName(n.raw.value.rendered, n.raw.value.isString), n.entry.path + [n.paginator.start])
      && m.children[0].raw.None? && m.children[0].children == []
  {
  }

  /** `make_children` replaces the children and never appends: when it
      succeeds, what was loaded before makes no difference. */
  lemma MakeChildrenReplaces(n: Node, old_children: seq<Node>, target: Step)
    requires n.paginator.size > 0
    ensures var a := MakeChildrenSpec(n, target);
      var b := MakeChildrenSpec(n.(children := old_children), target);
      a.1 == b.1 && (a.1.Ok? ==> a.0 == b.0)
  {
  }

  /** Children inherit the parent's page size, so page sizes stay positive. */
  lemma MakeChildrenSized(n: Node, target: Step)
    requires Sized(n)
    ensures Sized(MakeChildrenSpec(n, target).0)
  {
    var m := MakeChildrenSpec(n, target).0;
    if m.children != n.children {
      forall i | 0 <= i < |m.children|
        ensures m.children[i].paginator.size == n.paginator.size && m.children[i].children == []
      {
        FreshChild(n, target, i);
      }
    }
  }

  /** A child `make_children` built is a leaf sized like its parent. */
  lemma FreshChild(n: Node, target: Step, i: nat)
    requires n.paginator.size > 0
    requires var m := MakeChildrenSpec(n, target).0; m.children != n.children && i < |m.children|
    ensures var c := MakeChildrenSpec(n, target).0.children[i];
      c.paginator.size == n.paginator.size && c.children == []
  {
  }

  /** Expanding from index 0 cannot fail: the first page is read, numbering
      it cannot overflow, and the target comes back as 0. An object or array
      then shows its first page. */
  lemma MakeChildrenFromZero(n: Node)
    requires 0 < n.paginator.size <= STEP_MAX
    ensures var (m, r) := MakeChildrenSpec(n, 0);
      && r == Ok(0)
      && (n.raw.Some? && !n.raw.value.Scalar? ==> m.paginator.start == 0)
  {
    match n.raw {
      case None =>
      case Some(Object(members)) =>
        VisitMapFromZero(n.paginator, members, []);
      case Some(Array(items)) =>
        VisitSeqReachesTarget(n.paginator, 0, items, [], 0);
      case Some(Scalar(_, _)) =>
    }
  }

  /** A node reloaded from 0 whose page start is 0 keeps start 0. */
  lemma MakeChildrenKeepsStart(n: Node)
    requires 0 < n.paginator.size <= STEP_MAX && n.paginator.start == 0
    ensures MakeChildrenSpec(n, 0).0.paginator.start == 0
  {
    MakeChildrenFromZero(n);
  }

  /** The number of children a value expands to. */
  function ItemCount(v: Json): (r: nat)
    ensures v.Object? ==> r == |v.members|
    ensures v.Array? ==> r == |v.items|
    ensures v.Scalar? ==> r == 0
  {
    match v
    case Object(members) => |members|
    case Array(items) => |items|
    case Scalar(_, _) => 0
  }

  /** A node whose value pages as a plain sequence of at least one item: an
      array, or an object whose keys are distinct, with room for one more
      page below `Step::MAX`. */
  predicate Countable(n: Node) {
    && n.raw.Some?
    && (n.raw.value.Array? || (n.raw.value.Object? && DistinctKeys(n.raw.value.members)))
    && 0 < ItemCount(n.raw.value) && ItemCount(n.raw.value) + n.paginator.size <= STEP_MAX
  }

  /** A countable node whose total is known and is its item count. */
  predicate Counted(n: Node) {
    Countable(n) && n.paginator.total == Some(ItemCount(n.raw.value))
  }

  /** Expanding for `Step::MAX` (the Up side of a move) a countable node
      whose total is unknown or accurate succeeds with an accurate total;
      and whenever the expanded node has an accurate total, the target
      comes back as the last index and it selects the last loaded child. */
  lemma MakeChildrenToLast(n: Node)
    requires n.paginator.size > 0
    ensures var (m, r) := MakeChildrenSpec(n, STEP_MAX);
      Countable(n) && (n.paginator.total.None? || Counted(n)) ==> r.Ok? && Counted(m)
    ensures var (m, r) := MakeChildrenSpec(n, STEP_MAX);
      Counted(m) ==>
        && r == Ok(ItemCount(n.raw.value) - 1)
        && m.paginator.start <= r.value && r.value - m.paginator.start + 1 == |m.children|
  {
    match n.raw {
      case Some(Array(items)) => ElementsToLast(n, items);
      case Some(Object(members)) => MembersToLast(n, members);
      case _ =>
    }
  }

  /** `MakeChildrenToLast` for an array. */
  lemma ElementsToLast(n: Node, items: seq<Json>)
    requires n.paginator.size > 0 && n.raw == Some(Array(items))
    ensures var (m, r) := MakeChildrenSpec(n, STEP_MAX);
      Countable(n) && (n.paginator.total.None? || Counted(n)) ==> r.Ok? && Counted(m)
    ensures var (m, r) := MakeChildrenSpec(n, STEP_MAX);
      Counted(m) ==>
        && r == Ok(|items| - 1)
        && m.paginator.start <= r.value && r.value - m.paginator.start + 1 == |m.children|
  {
    if Countable(n) && (n.paginator.total.None? || Counted(n)) {
      VisitSeqToLast(n.paginator, items);
    }
  }

  /** `MakeChildrenToLast` for an object. */
  lemma MembersToLast(n: Node, members: seq<(string, Json)>)
    requires n.paginator.size > 0 && n.raw == Some(Object(members))
    ensures var (m, r) := MakeChildrenSpec(n, STEP_MAX);
      Countable(n) && (n.paginator.total.None? || Counted(n)) ==> r.Ok? && Counted(m)
    ensures var (m, r) := MakeChildrenSpec(n, STEP_MAX);
      Counted(m) ==>
        && r == Ok(|members| - 1)
        && m.paginator.start <= r.value && r.value - m.paginator.start + 1 == |m.children|
  {
    if Countable(n) && (n.paginator.total.None? || Counted(n)) {
      VisitMapDistinct(n.paginator, STEP_MAX, members, []);
      VisitSeqToLast(n.paginator, members);
    }
  }
}
