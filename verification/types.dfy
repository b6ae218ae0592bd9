/** Shared value types of the viewer: steps and paths, inclusive byte
    locations, paginators, entries, cursor directions, and the failure
    wrappers used to model `anyhow::Result` and `Option`. */
module Types {

  datatype Option<+T> = None | Some(value: T)

  /** `anyhow::Result`: every failure of the program is one `Err`; the
      error payload is chosen per module (the lexer keeps row and column). */
  datatype Result<+T, +E> = Ok(value: T) | Err(error: E) {
    predicate IsFailure() { Err? }
    function PropagateFailure<U>(): Result<U, E>
      requires Err?
    {
      Err(error)
    }
    function Extract(): T
      requires Ok?
    {
      value
    }
  }

  /** The single error outcome of everything outside the lexer. */
  datatype Failure = Fail

  /** `usize` on a 64-bit target. */
  const STEP_MAX: nat := 0xFFFF_FFFF_FFFF_FFFF
  const U16_MAX: nat := 0xFFFF

  type Step = nat
  type Path = seq<Step>

  /** `usize::saturating_add(1)` and `usize::saturating_sub(1)`. */
  function SaturatingInc(s: Step): (r: Step)
    ensures s < STEP_MAX ==> r == s + 1
    ensures s >= STEP_MAX ==> r == s
  {
    if s < STEP_MAX then s + 1 else s
  }

  function SaturatingDec(s: Step): (r: Step)
    ensures s > 0 ==> r + 1 == s
    ensures s == 0 ==> r == 0
  {
    if s == 0 then 0 else s - 1
  }

  /** An inclusive pair of byte offsets into the source buffer. */
  datatype Location = Location(start: nat, finish: nat)

  /** `SliceFromLocation::slice`: the inclusive range `s[start..=finish]`,
      which Rust rejects unless `start <= finish + 1` and `finish < |s|`. */
  function Slice<T>(s: seq<T>, loc: Location): (r: seq<T>)
    requires loc.start <= loc.finish + 1 && loc.finish < |s|
    ensures |r| == loc.finish + 1 - loc.start
    ensures forall i | 0 <= i < |r| :: r[i] == s[loc.start + i]
  {
    s[loc.start..loc.finish + 1]
  }

  /** Page capacity, first global index loaded, and the item count once it is known. */
  datatype Paginator = Paginator(size: nat, start: nat, total: Option<nat>)

  /** A display label and the global index path from the root to it. */
  datatype Entry = Entry(name: string, path: Path)

  datatype CursorDirection = Up | Down | Right | Left

  /** A terminal rectangle (`ratatui::layout::Rect`, `u16` fields). */
  datatype Rect = Rect(x: nat, y: nat, width: nat, height: nat)

  const DEFAULT_RECT: Rect := Rect(0, 0, 0, 0)

  /** The layout constraints the column logic looks at; the rest are `Other`. */
  datatype Constraint = Length(length: nat) | Min(min: nat) | Max(max: nat) | Other

  datatype DirectionalConstraint = Undefined | Vertical(v: Constraint) | Horizontal(h: Constraint)

  /** An opaque rendering style handle; the core never inspects it. */
  type Style = nat

  /** One column of a table (`ColumnModel`), shared by value. */
  datatype Column = Column(
    area: Rect,
    highlightIndex: Option<nat>,
    isActive: bool,
    entries: seq<Entry>,
    selectedEntries: seq<Entry>,
    transparent: bool,
    constraint: DirectionalConstraint)
}
