/** Page windowing of src/paginated_vec.rs and src/paginated_map.rs: a
    stream of elements (or key/value entries) is consumed page by page and
    the page that holds the target index is kept, together with the page
    start, the element count and a possibly corrected target. The serde
    stream is a sequence read left to right; `IgnoredAny` reads skip. */
module Paging {
  import opened Types

  function MinNat(a: nat, b: nat): (m: nat)
    ensures m <= a && m <= b && (m == a || m == b)
  {
    if a <= b then a else b
  }

  /** The result of one visit: the updated paginator, the kept page and the
      target as written back through `&mut Step`. */
  datatype Page<T> = Page(paginator: Paginator, data: seq<T>, target: Step)

  // ---------------------------------------------------------------------
  // The skip phase (known total only)

  /** `cs` is reached from 0 by whole pages: a multiple of `size`. */
  predicate Aligned(cs: nat, size: nat)
    requires size > 0
    decreases cs
  {
    cs == 0 || (cs >= size && Aligned(cs - size, size))
  }

  /** An aligned start is `k` whole pages from 0. */
  lemma {:induction false} AlignedIsMultiple(cs: nat, size: nat) returns (k: nat)
    requires size > 0 && Aligned(cs, size)
    ensures cs == k * size
    decreases cs
  {
    if cs == 0 {
      k := 0;
    } else {
      var j := AlignedIsMultiple(cs - size, size);
      k := j + 1;
      assert k * size == j * size + size;
    }
  }

  /** The bound the skip loop cannot pass: the target, or for the
      `Step::MAX` request the total. */
  function SkipBound(total: nat, t: Step): nat {
    if t == STEP_MAX then total else t
  }

  /** The page start at which the skip loop stops: the target's page, or
      for `Step::MAX` the first page start at or past `total - size`. */
  function SkipPages(size: nat, total: nat, t: Step, cs: nat): (r: nat)
    requires size > 0 && cs <= SkipBound(total, t)
    ensures cs <= r
    ensures Aligned(cs, size) ==> Aligned(r, size)
    decreases SkipBound(total, t) - cs
  {
    if t == STEP_MAX && (total < size || cs >= total - size) then cs
    else if cs <= t < cs + size then cs
    else SkipPages(size, total, t, cs + size)
  }

  /** Without `Step::MAX`, skipping stops at the page that holds the target. */
  lemma {:induction false} SkipToTargetPage(size: nat, total: nat, t: Step, cs: nat)
    requires size > 0 && t != STEP_MAX && cs <= t
    ensures var r := SkipPages(size, total, t, cs);
      r <= t < r + size
    decreases t - cs
  {
    if !(cs <= t < cs + size) {
      SkipToTargetPage(size, total, t, cs + size);
    }
  }

  /** With `Step::MAX` and a known total, skipping stops at 0 when the
      total is below `size`, and otherwise at the first page start at or
      past `total - size`, which lies below the total. */
  lemma {:induction false} SkipToLastPage(size: nat, total: nat, cs: nat)
    requires size > 0 && cs <= total && total < STEP_MAX
    requires cs == 0 || total < size || cs - size < total - size
    ensures var r := SkipPages(size, total, STEP_MAX, cs);
      && (total < size ==> r == cs)
      && (total >= size ==> total - size <= r && (r == 0 || r - size < total - size) && (r < total || r == cs))
    decreases total - cs
  {
    if !(total < size || cs >= total - size) {
      SkipToLastPage(size, total, cs + size);
    }
  }

  // ---------------------------------------------------------------------
  // The page loop of `PaginatedVec`

  /** The page read at start `cs`: the stream is at `min(cs, |xs|)`. */
  function PageAt<T>(xs: seq<T>, size: nat, cs: nat): (page: seq<T>)
    ensures |page| <= size
    ensures page == xs[MinNat(cs, |xs|)..MinNat(cs + size, |xs|)]
  {
    xs[MinNat(cs, |xs|)..MinNat(cs + size, |xs|)]
  }

  /** The main loop from page start `cs` with `data` the page kept so far:
      the page start, the data and the target it leaves, or a failure when
      the stream ends on the very first page and `current_start -= size`
      would underflow. */
  function VecLoop<T>(size: nat, t: Step, xs: seq<T>, cs: nat, data: seq<T>): (r: Result<(nat, seq<T>, Step), Failure>)
    requires size > 0
    ensures r.Ok? && Aligned(cs, size) ==> Aligned(r.value.0, size)
    ensures r.Ok? ==> |r.value.1| <= size || r.value.1 == data
    decreases |xs| - MinNat(cs, |xs|)
  {
    var page := PageAt(xs, size, cs);
    if cs <= t < cs + size then Ok((cs, page, t))
    else if |page| == 0 then
      if cs < size then Err(Fail) else Ok((cs - size, data, cs - 1))
    else if |page| < size then Ok((cs, page, cs + |page| - 1))
    else VecLoop(size, t, xs, cs + size, page)
  }

  /** The page start the skip phase leaves. */
  function FirstStart(p: Paginator, t: Step): (cs: nat)
    requires p.size > 0
    ensures Aligned(cs, p.size)
  {
    if p.total.Some? then SkipPages(p.size, p.total.value, t, 0) else 0
  }

  /** The target correction at src/paginated_vec.rs:126-128: on the first
      page a target at or past the data length is clamped to the last
      element counted. */
  function Clamp(start: nat, dataLen: nat, t: Step, counted: nat): (r: Step)
    ensures r <= t
    ensures !(dataLen <= t && start == 0) ==> r == t
  {
    if dataLen <= t && start == 0 then MinNat(t, SaturatingDec(counted)) else t
  }

  /** One round of the sequence loop, with the page already read. */
  lemma VecLoopUnfold<T>(size: nat, t: Step, xs: seq<T>, cs: nat, data: seq<T>, page: seq<T>)
    requires size > 0 && page == PageAt(xs, size, cs)
    ensures VecLoop(size, t, xs, cs, data) ==
      if cs <= t < cs + size then Ok((cs, page, t))
      else if |page| == 0 then (if cs < size then Err(Fail) else Ok((cs - size, data, cs - 1)))
      else if |page| < size then Ok((cs, page, cs + |page| - 1))
      else VecLoop(size, t, xs, cs + size, page)
  {
  }

  /** `visit_seq`: skip, loop over pages, count the rest, correct the
      target and record the total when it was unknown. */
  function VisitSeqSpec<T>(p: Paginator, target: Step, xs: seq<T>, data: seq<T>): (r: Result<Page<T>, Failure>)
    requires p.size > 0
    ensures r.Ok? ==> r.value.paginator.size == p.size && Aligned(r.value.paginator.start, p.size)
    ensures r.Ok? ==> |r.value.data| <= p.size || r.value.data == data
    ensures r.Ok? ==> r.value.paginator.total == if p.total.Some? then p.total else Some(|xs|)
  {
    var cs0 := FirstStart(p, target);
    var m :- VecLoop(p.size, target, xs, cs0, data);
    var counted := |xs| - MinNat(cs0, |xs|);
    var total := if p.total.None? then Some(counted) else p.total;
    Ok(Page(Paginator(p.size, m.0, total), m.1, Clamp(m.0, |m.1|, m.2, counted)))
  }

  // ---------------------------------------------------------------------
  // Properties of the vec visit

  /** Two aligned starts differ by at least a page. */
  lemma {:induction false} AlignedGap(cs: nat, r: nat, size: nat)
    requires size > 0 && Aligned(cs, size) && Aligned(r, size) && cs < r
    ensures cs + size <= r
    decreases cs
  {
    if cs != 0 {
      AlignedGap(cs - size, r - size, size);
    }
  }

  /** Reading from an aligned start up to an aligned page `r` that holds the
      target and starts inside the stream stops at `r` and keeps its page. */
  lemma {:induction false} VecLoopReaches<T>(size: nat, t: Step, xs: seq<T>, cs: nat, data: seq<T>, r: nat)
    requires size > 0 && Aligned(cs, size) && Aligned(r, size)
    requires cs <= r <= t < r + size && r <= |xs|
    ensures VecLoop(size, t, xs, cs, data) == Ok((r, PageAt(xs, size, r), t))
    decreases r - cs
  {
    if cs < r {
      AlignedGap(cs, r, size);
      VecLoopReaches(size, t, xs, cs + size, PageAt(xs, size, cs), r);
    }
  }

  /** The kept data is a run of consecutive elements of the stream starting
      at the kept page start (or nothing). */
  ghost predicate RunAt<T>(xs: seq<T>, start: nat, data: seq<T>) {
    data == [] || (start + |data| <= |xs| && data == xs[start..start + |data|])
  }

  lemma {:induction false} VecLoopContiguous<T>(size: nat, t: Step, xs: seq<T>, cs: nat, data: seq<T>)
    requires size > 0
    requires data == [] || (cs >= size && cs <= |xs| && data == xs[cs - size..cs])
    ensures var r := VecLoop(size, t, xs, cs, data);
      r.Ok? ==> RunAt(xs, r.value.0, r.value.1)
    decreases |xs| - MinNat(cs, |xs|)
  {
    var page := PageAt(xs, size, cs);
    if !(cs <= t < cs + size) && |page| == size {
      assert cs + size <= |xs| && page == xs[cs..cs + size];
      VecLoopContiguous(size, t, xs, cs + size, page);
    }
  }

  /** Starting from an empty `data`, `visit_seq` keeps a run of consecutive
      elements starting at the page start, at most a page long. */
  lemma VisitSeqContiguous<T>(p: Paginator, t: Step, xs: seq<T>)
    requires p.size > 0
    ensures var v := VisitSeqSpec(p, t, xs, []);
      v.Ok? ==> RunAt(xs, v.value.paginator.start, v.value.data) && |v.value.data| <= p.size
  {
    VecLoopContiguous(p.size, t, xs, FirstStart(p, t), []);
  }

  /** The target lies past every page that starts inside the stream. */
  predicate Beyond<T>(size: nat, xs: seq<T>, t: Step)
    requires size > 0
  {
    forall c: nat | c <= |xs| && Aligned(c, size) :: c + size <= t
  }

  /** The loop ended on the last non-empty page: its start, the tail of
      the stream from there, and the last index as target. */
  ghost predicate LastPage<T>(size: nat, xs: seq<T>, r: Result<(nat, seq<T>, Step), Failure>)
    requires size > 0
  {
    && r.Ok? && r.value.2 == |xs| - 1 && Aligned(r.value.0, size)
    && r.value.0 < |xs| <= r.value.0 + size && r.value.1 == xs[r.value.0..]
  }

  /** When the target lies past the stream, the loop keeps the last
      non-empty page and moves the target to the last element; an empty
      stream makes `current_start -= size` underflow. */
  lemma {:induction false} VecLoopPastEnd<T>(size: nat, t: Step, xs: seq<T>, cs: nat, data: seq<T>)
    requires size > 0 && Aligned(cs, size) && cs <= |xs| && Beyond(size, xs, t)
    requires cs == |xs| && cs > 0 ==> cs >= size && data == xs[cs - size..]
    ensures |xs| == 0 ==> VecLoop(size, t, xs, cs, data).Err?
    ensures |xs| > 0 ==> LastPage(size, xs, VecLoop(size, t, xs, cs, data))
    decreases |xs| - cs
  {
    var page := PageAt(xs, size, cs);
    assert cs + size <= t;
    if cs == |xs| {
      assert page == [];
      if cs > 0 {
        AlignedGap(0, cs, size);
      }
    } else if cs + size <= |xs| {
      assert page == xs[cs..cs + size];
      VecLoopPastEnd(size, t, xs, cs + size, page);
    } else {
      assert page == xs[cs..];
    }
  }

  /** `visit_seq` with an unknown total and the target in a page that
      starts inside the stream (or with a known total and any target but
      `Step::MAX`): that page is kept at its own start and the target stays,
      except that on the first page a target past the data is clamped. */
  lemma VisitSeqReachesTarget<T>(p: Paginator, t: Step, xs: seq<T>, data: seq<T>, r: nat)
    requires p.size > 0 && Aligned(r, p.size) && r <= t < r + p.size
    requires (p.total.None? && r <= |xs|) || (p.total.Some? && t != STEP_MAX)
    ensures var v := VisitSeqSpec(p, t, xs, data);
      && v.Ok? && v.value.paginator.start == r && v.value.data == PageAt(xs, p.size, r)
      && v.value.target == (if r == 0 && |xs| <= t then SaturatingDec(|xs|) else t)
  {
    var cs0 := FirstStart(p, t);
    if p.total.Some? {
      SkipToTargetPage(p.size, p.total.value, t, 0);
      if cs0 < r {
        AlignedGap(cs0, r, p.size);
      } else if r < cs0 {
        AlignedGap(r, cs0, p.size);
      }
    } else {
      VecLoopReaches(p.size, t, xs, 0, data, r);
    }
  }

  /** `visit_seq` with an unknown total and a target whose page starts past
      the stream: the last non-empty page is kept and the target becomes
      the last index; an empty stream is a failure. */
  lemma VisitSeqPastEnd<T>(p: Paginator, t: Step, xs: seq<T>, data: seq<T>, k: nat)
    requires p.size > 0 && p.total.None? && Aligned(k, p.size) && |xs| < k <= t
    ensures var v := VisitSeqSpec(p, t, xs, data);
      && (|xs| == 0 ==> v.Err?)
      && (|xs| > 0 ==> (v.Ok? && v.value.target == |xs| - 1
            && v.value.paginator.start < |xs| <= v.value.paginator.start + p.size
            && v.value.data == xs[v.value.paginator.start..]))
  {
    forall c: nat | c <= |xs| && Aligned(c, p.size)
      ensures c + p.size <= t
    {
      AlignedGap(c, k, p.size);
    }
    VecLoopPastEnd(p.size, t, xs, 0, data);
  }

  /** `visit_seq` asked for `Step::MAX` with a known and accurate total:
      the final page is loaded and the target becomes the last index. */
  lemma VisitSeqLastPage<T>(p: Paginator, xs: seq<T>, data: seq<T>)
    requires p.size > 0 && p.total == Some(|xs|) && 0 < |xs| && |xs| + p.size <= STEP_MAX
    ensures var v := VisitSeqSpec(p, STEP_MAX, xs, data);
      && v.Ok? && v.value.target == |xs| - 1
      && v.value.paginator.start < |xs| <= v.value.paginator.start + p.size
      && v.value.data == xs[v.value.paginator.start..]
  {
    var cs0 := FirstStart(p, STEP_MAX);
    SkipToLastPage(p.size, |xs|, 0);
    forall c: nat | c <= |xs| && Aligned(c, p.size)
      ensures c + p.size <= STEP_MAX
    {
    }
    VecLoopPastEnd(p.size, STEP_MAX, xs, cs0, data);
  }

  /** Some aligned start lies past `m` by at most a page. */
  lemma {:induction false} AlignedAbove(m: nat, size: nat) returns (k: nat)
    requires size > 0
    ensures Aligned(k, size) && m < k <= m + size
    decreases m
  {
    if m < size {
      k := size;
      assert Aligned(k - size, size);
    } else {
      var j := AlignedAbove(m - size, size);
      k := j + size;
    }
  }

  /** `visit_seq` asked for `Step::MAX` over a non-empty stream whose total
      is unknown or accurate: the final page is kept whole, the target
      becomes the last index and the total is the stream's length. */
  lemma VisitSeqToLast<T>(p: Paginator, xs: seq<T>)
    requires p.size > 0 && 0 < |xs| && |xs| + p.size <= STEP_MAX
    requires p.total.None? || p.total == Some(|xs|)
    ensures var v := VisitSeqSpec(p, STEP_MAX, xs, []);
      && v.Ok? && v.value.target == |xs| - 1 && v.value.paginator.total == Some(|xs|)
      && v.value.paginator.start < |xs| == v.value.paginator.start + |v.value.data|
  {
    if p.total.None? {
      var k := AlignedAbove(|xs|, p.size);
      VisitSeqPastEnd(p, STEP_MAX, xs, [], k);
    } else {
      VisitSeqLastPage(p, xs, []);
    }
  }

  // ---------------------------------------------------------------------
  // `PaginatedVec` and its `visit_seq`

  /** The skip loop of src/paginated_vec.rs:61-83 (and of the map visitor):
      whole pages are read and dropped until the target's page, or for
      `Step::MAX` the last page, starts. Returns the page start and how
      many elements of `xs` were consumed. */
  method SkipToStart<T>(size: nat, total: nat, target: Step, xs: seq<T>) returns (currentStart: nat, next: nat)
    requires size > 0
    ensures currentStart == SkipPages(size, total, target, 0)
    ensures next == MinNat(currentStart, |xs|)
  {
    currentStart, next := 0, 0;
    while true
      invariant currentStart <= SkipBound(total, target)
      invariant SkipPages(size, total, target, currentStart) == SkipPages(size, total, target, 0)
      invariant next == MinNat(currentStart, |xs|)
      decreases SkipBound(total, target) - currentStart
    {
      if target == STEP_MAX {
        if total < size {
          break;
        } else if currentStart >= total - size {
          break;
        }
      }
      if currentStart <= target < currentStart + size {
        break;
      }
      for i := 0 to size
        invariant next == MinNat(currentStart + i, |xs|)
      {
        if next < |xs| {
          next := next + 1;
        }
      }
      currentStart := currentStart + size;
    }
  }

  /** The inner loop of src/paginated_vec.rs:86-95: up to `size` elements
      read from position `min(currentStart, |xs|)`; the stream stops early
      at its end. */
  method ReadPage<T>(xs: seq<T>, size: nat, currentStart: nat) returns (sliding: seq<T>, next: nat)
    ensures sliding == PageAt(xs, size, currentStart)
    ensures next == MinNat(currentStart + size, |xs|)
  {
    sliding, next := [], MinNat(currentStart, |xs|);
    for i := 0 to size
      invariant next == MinNat(currentStart + i, |xs|)
      invariant sliding == xs[MinNat(currentStart, |xs|)..next]
    {
      if next < |xs| {
        sliding := sliding + [xs[next]];
        next := next + 1;
      } else {
        break;
      }
    }
  }

  /** A window of at most `paginator.size` elements of a longer sequence. */
  class PaginatedVec<T> {
    var data: seq<T>
    var paginator: Paginator

    constructor (p: Paginator)
      ensures data == [] && paginator == p
    {
      data := [];
      paginator := p;
    }

    /** The page loop of src/paginated_vec.rs:85-119 from page start
        `currentStart`, with `next` elements of `xs` consumed: reads page
        after page, keeping each full one in `data`, until the target's page,
        a short page or the end of the stream. Returns the target as it
        leaves the loop and the number of elements consumed. */
    method KeepTargetPage(xs: seq<T>, target: Step, currentStart: nat, next: nat) returns (r: Result<Step, Failure>, consumed: nat)
      requires paginator.size > 0 && next == MinNat(currentStart, |xs|)
      requires currentStart == 0 || currentStart >= paginator.size
      modifies this
      ensures var v := VecLoop(old(paginator.size), target, xs, currentStart, old(data));
        && (r.Ok? <==> v.Ok?)
        && (r.Ok? ==> paginator == old(paginator).(start := v.value.0) && data == v.value.1 && r.value == v.value.2)
        && (r.Err? ==> data == old(data) && paginator == old(paginator))
      ensures MinNat(currentStart, |xs|) <= consumed <= |xs|
    {
      ghost var p0, d0 := paginator, data;
      ghost var whole := VecLoop(p0.size, target, xs, currentStart, d0);
      var size := paginator.size;
      var cs: nat := currentStart;
      consumed := next;
      var tgt := target;
      while true
        invariant currentStart <= cs && consumed == MinNat(cs, |xs|)
        invariant paginator == p0
        invariant (cs == currentStart && data == d0) || cs >= size
        invariant VecLoop(size, target, xs, cs, data) == whole
        decreases |xs| - consumed
      {
        var sliding;
        sliding, consumed := ReadPage(xs, size, cs);
        VecLoopUnfold(size, target, xs, cs, data, sliding);

        if cs <= target < cs + size {
          paginator := paginator.(start := cs);
          data := sliding;
          break;
        }

        if |sliding| == 0 {
          if cs < size {
            return Err(Fail), consumed;
          }
          cs := cs - size;
          paginator := paginator.(start := cs);
          tgt := cs + size - 1;
          break;
        } else if |sliding| < size {
          data := sliding;
          paginator := paginator.(start := cs);
          tgt := cs + |data| - 1;
          break;
        } else {
          data := sliding;
        }
        cs := cs + size;
      }
      r := Ok(tgt);
    }

    /** `visit_seq` (src/paginated_vec.rs:54-135): reads the stream `xs`
        element by element, keeping the page that holds `target`, and
        returns the target as written back through `&mut Step`. */
    method VisitSeq(xs: seq<T>, target: Step) returns (r: Result<Step, Failure>)
      requires paginator.size > 0
      modifies this
      ensures var v := VisitSeqSpec(old(paginator), target, xs, old(data));
        && (r.Ok? <==> v.Ok?)
        && (r.Ok? ==> data == v.value.data && paginator == v.value.paginator && r.value == v.value.target)
        && (r.Err? ==> data == old(data) && paginator == old(paginator))
    {
      ghost var p0, d0 := paginator, data;
      var size := paginator.size;
      var currentStart: nat := 0;
      var next: nat := 0;  // elements of `xs` consumed so far

      if paginator.total.Some? {
        currentStart, next := SkipToStart(size, paginator.total.value, target, xs);
      }
      var tgt;
      tgt, next := KeepTargetPage(xs, target, currentStart, next);
      if tgt.Err? {
        return Err(Fail);
      }
      // total_counter counts every element read after the skip phase
      var totalCounter: nat := next - MinNat(currentStart, |xs|);

      while next < |xs|
        invariant next <= |xs|
        invariant totalCounter == next - MinNat(currentStart, |xs|)
        decreases |xs| - next
      {
        next := next + 1;
        totalCounter := totalCounter + 1;
      }

      var t := tgt.value;
      if |data| <= t && paginator.start == 0 {
        t := MinNat(t, SaturatingDec(totalCounter));
      }
      if paginator.total.None? {
        paginator := paginator.(total := Some(totalCounter));
      }
      r := Ok(t);
    }
  
  }

  // ---------------------------------------------------------------------
  // The insertion-ordered map of `PaginatedMap` (`IndexMap`)

  /** Some entry of `m` has key `k`. */
  predicate HasKey<K(==), V>(m: seq<(K, V)>, k: K) {
    exists i :: 0 <= i < |m| && m[i].0 == k
  }

  /** No key occurs twice. */
  predicate DistinctKeys<K(==), V>(m: seq<(K, V)>) {
    forall i, j :: 0 <= i < j < |m| ==> m[i].0 != m[j].0
  }

  /** The position of the first entry with key `k` at or after `i`. */
  function KeyIndexFrom<K(==), V>(m: seq<(K, V)>, k: K, i: nat): (r: Option<nat>)
    requires i <= |m|
    ensures r.Some? ==> i <= r.value < |m| && m[r.value].0 == k
    ensures r.None? ==> forall j :: i <= j < |m| ==> m[j].0 != k
    decreases |m| - i
  {
    if i == |m| then None
    else if m[i].0 == k then Some(i)
    else KeyIndexFrom(m, k, i + 1)
  }

  /** `IndexMap::insert`: a present key keeps its position and takes the
      new value; a new key is appended. */
  function IndexInsert<K(==), V>(m: seq<(K, V)>, k: K, v: V): (r: seq<(K, V)>)
    ensures 0 < |r| && |m| <= |r| <= |m| + 1
  {
    match KeyIndexFrom(m, k, 0)
    case None => m + [(k, v)]
    case Some(i) => m[i := (k, v)]
  }

  /** What an insertion does: a new key is appended; otherwise every entry
      keeps its key, the entries with other keys are untouched and the new
      entry is present. Distinct keys stay distinct. */
  lemma IndexInsertSpec<K, V>(m: seq<(K, V)>, k: K, v: V)
    ensures var r := IndexInsert(m, k, v);
      && (!HasKey(m, k) ==> r == m + [(k, v)])
      && (HasKey(m, k) ==> |r| == |m|)
      && (k, v) in r
      && (forall i :: 0 <= i < |m| ==> r[i].0 == m[i].0)
      && (forall i :: 0 <= i < |m| && m[i].0 != k ==> r[i] == m[i])
      && (DistinctKeys(m) ==> DistinctKeys(r))
  {
    match KeyIndexFrom(m, k, 0)
    case None =>
    case Some(i) =>
      assert IndexInsert(m, k, v)[i] == (k, v);
  }

  /** The map built by inserting `entries` in order into an empty map. */
  function Build<K(==), V>(entries: seq<(K, V)>): (r: seq<(K, V)>)
    ensures |r| <= |entries|
    ensures |r| == 0 <==> |entries| == 0
  {
    if |entries| == 0 then []
    else
      var last := entries[|entries| - 1];
      IndexInsert(Build(entries[..|entries| - 1]), last.0, last.1)
  }

  /** A built map never holds a key twice. */
  lemma {:induction false} BuildKeysDistinct<K, V>(entries: seq<(K, V)>)
    ensures DistinctKeys(Build(entries))
  {
    if |entries| > 0 {
      BuildKeysDistinct(entries[..|entries| - 1]);
    }
  }

  /** Building one more entry inserts it into the map built so far. */
  lemma BuildSnoc<K, V>(entries: seq<(K, V)>, e: (K, V))
    ensures Build(entries + [e]) == IndexInsert(Build(entries), e.0, e.1)
  {
    assert (entries + [e])[..|entries|] == entries;
  }

  /** Reading entry `next` of the stream inserts it into the page built so
      far. */
  lemma ReadMapStep<K, V>(xs: seq<(K, V)>, lo: nat, next: nat)
    requires lo <= next < |xs|
    ensures Build(xs[lo..next + 1]) == IndexInsert(Build(xs[lo..next]), xs[next].0, xs[next].1)
  {
    assert xs[lo..next + 1] == xs[lo..next] + [xs[next]];
    BuildSnoc(xs[lo..next], xs[next]);
  }

  /** Inserting entries whose keys are pairwise distinct keeps them all, in
      order. */
  lemma {:induction false} BuildDistinct<K, V>(entries: seq<(K, V)>)
    requires DistinctKeys(entries)
    ensures Build(entries) == entries
  {
    if |entries| > 0 {
      var init := entries[..|entries| - 1];
      var last := entries[|entries| - 1];
      BuildDistinct(init);
      forall i | 0 <= i < |init|
        ensures init[i].0 != last.0
      {
        assert init[i] == entries[i];
      }
      assert init + [last] == entries;
    }
  }

  /** A repeated key collapses: the map holds fewer entries than were read. */
  lemma {:induction false} BuildShrinks<K, V>(entries: seq<(K, V)>)
    requires !DistinctKeys(entries)
    ensures |Build(entries)| < |entries|
  {
    var init := entries[..|entries| - 1];
    var last := entries[|entries| - 1];
    if DistinctKeys(init) {
      var i, j :| 0 <= i < j < |entries| && entries[i].0 == entries[j].0;
      assert j == |entries| - 1;
      BuildDistinct(init);
      assert init[i].0 == last.0;
    } else {
      BuildShrinks(init);
    }
  }

  // ---------------------------------------------------------------------
  // The page loop of `PaginatedMap`

  /** As `VecLoop`, but each page is an `IndexMap` built from the entries
      read, and the page-length tests count distinct keys. */
  function MapLoop<K(==), V>(size: nat, t: Step, xs: seq<(K, V)>, cs: nat, data: seq<(K, V)>): (r: Result<(nat, seq<(K, V)>, Step), Failure>)
    requires size > 0
    ensures r.Ok? && Aligned(cs, size) ==> Aligned(r.value.0, size)
    decreases |xs| - MinNat(cs, |xs|)
  {
    var page := Build(PageAt(xs, size, cs));
    if cs <= t < cs + size then Ok((cs, page, t))
    else if |page| == 0 then
      if cs < size then Err(Fail) else Ok((cs - size, data, cs - 1))
    else if |page| < size then Ok((cs, page, cs + |page| - 1))
    else MapLoop(size, t, xs, cs + size, page)
  }

  /** One round of the map loop, with the page already built. */
  lemma MapLoopUnfold<K, V>(size: nat, t: Step, xs: seq<(K, V)>, cs: nat, data: seq<(K, V)>, page: seq<(K, V)>)
    requires size > 0 && page == Build(PageAt(xs, size, cs))
    ensures MapLoop(size, t, xs, cs, data) ==
      if cs <= t < cs + size then Ok((cs, page, t))
      else if |page| == 0 then (if cs < size then Err(Fail) else Ok((cs - size, data, cs - 1)))
      else if |page| < size then Ok((cs, page, cs + |page| - 1))
      else MapLoop(size, t, xs, cs + size, page)
  {
  }

  /** `visit_map`: as `visit_seq`, the counter counting entries read. */
  function VisitMapSpec<K(==), V>(p: Paginator, target: Step, xs: seq<(K, V)>, data: seq<(K, V)>): (r: Result<Page<(K, V)>, Failure>)
    requires p.size > 0
    ensures r.Ok? ==> r.value.paginator.size == p.size && Aligned(r.value.paginator.start, p.size)
    ensures r.Ok? ==> r.value.paginator.total == if p.total.Some? then p.total else Some(|xs|)
  {
    var cs0 := FirstStart(p, target);
    var m :- MapLoop(p.size, target, xs, cs0, data);
    var counted := |xs| - MinNat(cs0, |xs|);
    var total := if p.total.None? then Some(counted) else p.total;
    Ok(Page(Paginator(p.size, m.0, total), m.1, Clamp(m.0, |m.1|, m.2, counted)))
  }

  /** With pairwise distinct keys the map loop keeps exactly the page the
      sequence loop keeps. */
  lemma {:induction false} MapLoopDistinct<K, V>(size: nat, t: Step, xs: seq<(K, V)>, cs: nat, data: seq<(K, V)>)
    requires size > 0 && DistinctKeys(xs)
    ensures MapLoop(size, t, xs, cs, data) == VecLoop(size, t, xs, cs, data)
    decreases |xs| - MinNat(cs, |xs|)
  {
    var page := PageAt(xs, size, cs);
    PageBuildsItself(xs, size, cs);
    if !(cs <= t < cs + size) && |page| == size {
      MapLoopDistinct(size, t, xs, cs + size, page);
    }
  }

  /** A page cut from entries with distinct keys builds to itself. */
  lemma PageBuildsItself<K, V>(xs: seq<(K, V)>, size: nat, cs: nat)
    requires DistinctKeys(xs)
    ensures Build(PageAt(xs, size, cs)) == PageAt(xs, size, cs)
  {
    var page := PageAt(xs, size, cs);
    var lo := MinNat(cs, |xs|);
    forall i, j | 0 <= i < j < |page|
      ensures page[i].0 != page[j].0
    {
      assert page[i] == xs[lo + i] && page[j] == xs[lo + j];
    }
    BuildDistinct(page);
  }

  /** An object whose keys are pairwise distinct pages exactly as the
      equivalent array of entries: every property proved of `visit_seq`
      holds of `visit_map`. */
  lemma VisitMapDistinct<K, V>(p: Paginator, target: Step, xs: seq<(K, V)>, data: seq<(K, V)>)
    requires p.size > 0 && DistinctKeys(xs)
    ensures VisitMapSpec(p, target, xs, data) == VisitSeqSpec(p, target, xs, data)
  {
    MapLoopDistinct(p.size, target, xs, FirstStart(p, target), data);
  }

  /** Reading a map from index 0 keeps its first page at start 0 and
      leaves the target at 0. */
  lemma VisitMapFromZero<K, V>(p: Paginator, xs: seq<(K, V)>, data: seq<(K, V)>)
    requires p.size > 0
    ensures var v := VisitMapSpec(p, 0, xs, data);
      && v.Ok? && v.value.paginator.start == 0 && v.value.target == 0
      && v.value.data == Build(PageAt(xs, p.size, 0))
  {
    if p.total.Some? {
      SkipToTargetPage(p.size, p.total.value, 0, 0);
    }
  }

  /** A full page with a repeated key looks short to the map loop: reading
      stops there, with the target moved to that page's last entry, even
      when later entries follow. */
  lemma DuplicateKeyEndsPaging<K, V>(size: nat, t: Step, xs: seq<(K, V)>, cs: nat, data: seq<(K, V)>)
    requires size > 0 && cs + size <= |xs| && !(cs <= t < cs + size)
    requires !DistinctKeys(xs[cs..cs + size])
    ensures var page := Build(xs[cs..cs + size]);
      MapLoop(size, t, xs, cs, data) == Ok((cs, page, cs + |page| - 1))
  {
    BuildShrinks(xs[cs..cs + size]);
  }

  // ---------------------------------------------------------------------
  // `PaginatedMap` and its `visit_map`

  /** The inner loop of src/paginated_map.rs:95-105: up to `size` entries
      read from position `min(currentStart, |xs|)` and inserted in order
      into a fresh map. */
  method ReadMapPage<K(==), V>(xs: seq<(K, V)>, size: nat, currentStart: nat) returns (sliding: seq<(K, V)>, next: nat)
    ensures sliding == Build(PageAt(xs, size, currentStart))
    ensures next == MinNat(currentStart + size, |xs|)
  {
    var lo := MinNat(currentStart, |xs|);
    sliding, next := [], lo;
    for i := 0 to size
      invariant next == MinNat(currentStart + i, |xs|)
      invariant sliding == Build(xs[lo..next])
    {
      if next < |xs| {
        ReadMapStep(xs, lo, next);
        sliding := IndexInsert(sliding, xs[next].0, xs[next].1);
        next := next + 1;
      } else {
        break;
      }
    }
  }

  /** A window of at most `paginator.size` entries of a longer map, kept in
      insertion order. */
  class PaginatedMap<K(==), V> {
    var data: seq<(K, V)>
    var paginator: Paginator

    constructor (p: Paginator)
      ensures data == [] && paginator == p
    {
      data := [];
      paginator := p;
    }

    /** The page loop of src/paginated_map.rs:94-129, as
        `PaginatedVec.KeepTargetPage` with pages built as maps. */
    method KeepTargetPage(xs: seq<(K, V)>, target: Step, currentStart: nat, next: nat) returns (r: Result<Step, Failure>, consumed: nat)
      requires paginator.size > 0 && next == MinNat(currentStart, |xs|)
      requires currentStart == 0 || currentStart >= paginator.size
      modifies this
      ensures var v := MapLoop(old(paginator.size), target, xs, currentStart, old(data));
        && (r.Ok? <==> v.Ok?)
        && (r.Ok? ==> paginator == old(paginator).(start := v.value.0) && data == v.value.1 && r.value == v.value.2)
        && (r.Err? ==> data == old(data) && paginator == old(paginator))
      ensures MinNat(currentStart, |xs|) <= consumed <= |xs|
    {
      ghost var p0, d0 := paginator, data;
      ghost var whole := MapLoop(p0.size, target, xs, currentStart, d0);
      var size := paginator.size;
      var cs: nat := currentStart;
      consumed := next;
      var tgt := target;
      while true
        invariant currentStart <= cs && consumed == MinNat(cs, |xs|)
        invariant paginator == p0
        invariant (cs == currentStart && data == d0) || cs >= size
        invariant MapLoop(size, target, xs, cs, data) == whole
        decreases |xs| - consumed
      {
        var sliding;
        sliding, consumed := ReadMapPage(xs, size, cs);
        MapLoopUnfold(size, target, xs, cs, data, sliding);

        if cs <= target < cs + size {
          paginator := paginator.(start := cs);
          data := sliding;
          break;
        }

        if |sliding| == 0 {
          if cs < size {
            return Err(Fail), consumed;
          }
          cs := cs - size;
          paginator := paginator.(start := cs);
          tgt := cs + size - 1;
          break;
        } else if |sliding| < size {
          data := sliding;
          paginator := paginator.(start := cs);
          tgt := cs + |data| - 1;
          break;
        } else {
          data := sliding;
        }
        cs := cs + size;
      }
      r := Ok(tgt);
    }

    /** `visit_map` (src/paginated_map.rs:61-145): as `visit_seq`, over the
        entries of a map. */
    method VisitMap(xs: seq<(K, V)>, target: Step) returns (r: Result<Step, Failure>)
      requires paginator.size > 0
      modifies this
      ensures var v := VisitMapSpec(old(paginator), target, xs, old(data));
        && (r.Ok? <==> v.Ok?)
        && (r.Ok? ==> data == v.value.data && paginator == v.value.paginator && r.value == v.value.target)
        && (r.Err? ==> data == old(data) && paginator == old(paginator))
    {
      var size := paginator.size;
      var currentStart: nat := 0;
      var next: nat := 0;  // entries of `xs` consumed so far

      if paginator.total.Some? {
        currentStart, next := SkipToStart(size, paginator.total.value, target, xs);
      }
      var tgt;
      tgt, next := KeepTargetPage(xs, target, currentStart, next);
      if tgt.Err? {
        return Err(Fail);
      }
      // total_counter counts every entry read after the skip phase
      var totalCounter: nat := next - MinNat(currentStart, |xs|);

      while next < |xs|
        invariant next <= |xs|
        invariant totalCounter == next - MinNat(currentStart, |xs|)
        decreases |xs| - next
      {
        next := next + 1;
        totalCounter := totalCounter + 1;
      }

      var t := tgt.value;
      if |data| <= t && paginator.start == 0 {
        t := MinNat(t, SaturatingDec(totalCounter));
      }
      if paginator.total.None? {
        paginator := paginator.(total := Some(totalCounter));
      }
      r := Ok(t);
    }
  }
}
