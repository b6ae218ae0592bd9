/** A one-line text widget (src/textline_model.rs): the spans as given, and
    the spans as shown, each clipped to the widget's width. */
module TextLine {
  import opened Types
  import opened Navigation

  /** The ending appended to a clipped span. In the source file the literal
      is the three characters U+00E2, U+20AC, U+00A6 (the UTF-8 bytes of
      '…' read as Windows-1252), so a clipped span keeps `width - 3` of its
      own characters. */
  const ENDING: string := "\U{E2}\U{20AC}\U{A6}"

  /** A piece of text and its style. */
  type Span = (string, Style)

  datatype Alignment = AlignLeft | AlignCenter | AlignRight

  /** The spans as shown at `width`: the same styles, each text clipped. */
  function Shown(spans: seq<Span>, width: nat): (r: seq<Span>)
    ensures |r| == |spans|
    ensures forall i :: 0 <= i < |r| ==> r[i].1 == spans[i].1
    ensures forall i :: 0 <= i < |r| ==> r[i].0 == ClipString(spans[i].0, ENDING, width)
  {
    if |spans| == 0 then []
    else [(ClipString(spans[0].0, ENDING, width), spans[0].1)] + Shown(spans[1..], width)
  }

  /** At a width that holds the ending, every shown text fits the width; a
      text that fits is shown as it is, and a longer one keeps its first
      `width - 3` characters before the ending. */
  lemma ShownFits(spans: seq<Span>, width: nat, i: nat)
    requires |ENDING| <= width && i < |spans|
    ensures |Shown(spans, width)[i].0| <= width
    ensures |spans[i].0| <= width ==> Shown(spans, width)[i].0 == spans[i].0
    ensures |spans[i].0| > width ==> Shown(spans, width)[i].0 == spans[i].0[..width - 3] + ENDING
  {
    ClipStringFits(spans[i].0, ENDING, width);
  }

  /** Clipping what is already shown changes nothing. */
  lemma {:induction false} ShownIdempotent(spans: seq<Span>, width: nat)
    requires |ENDING| <= width
    ensures Shown(Shown(spans, width), width) == Shown(spans, width)
  {
    var once := Shown(spans, width);
    forall i | 0 <= i < |once|
      ensures Shown(once, width)[i] == once[i]
    {
      ShownFits(spans, width, i);
      ShownFits(once, width, i);
    }
  }

  /** `TextLineModel`: the area, the spans given and the spans shown. */
  class TextLineModel {
    var area: Rect
    var hideSpans: seq<Span>
    var showSpans: seq<Span>
    var style: Style
    var alignment: Alignment
    var transparent: bool
    var constraint: DirectionalConstraint

    /** The spans shown are always the given spans clipped to the width. */
    predicate Valid()
      reads this
    {
      showSpans == Shown(hideSpans, area.width)
    }

    /** `TextLineModel::default`. */
    constructor()
      ensures Valid() && area == DEFAULT_RECT && hideSpans == [] && showSpans == []
    {
      area := DEFAULT_RECT;
      hideSpans := [];
      showSpans := [];
      style := 0;
      alignment := AlignLeft;
      transparent := false;
      constraint := Undefined;
    }

    /** `make_show_spans` (src/textline_model.rs:36-41): copies the spans
        and clips each text in place. */
    method MakeShowSpans()
      modifies this`showSpans
      ensures Valid()
    {
      showSpans := hideSpans;
      for i := 0 to |showSpans|
        invariant |showSpans| == |hideSpans|
        invariant forall k :: 0 <= k < i ==> showSpans[k] == (ClipString(hideSpans[k].0, ENDING, area.width), hideSpans[k].1)
        invariant forall k :: i <= k < |showSpans| ==> showSpans[k] == hideSpans[k]
      {
        showSpans := showSpans[i := (ClipString(showSpans[i].0, ENDING, area.width), showSpans[i].1)];
      }
    }

    /** `area_update` (and the builder `area_set`): a new area, and the
        shown spans clipped to it. */
    method AreaUpdate(value: Rect)
      modifies this`area, this`showSpans
      ensures Valid() && area == value && hideSpans == old(hideSpans)
    {
      area := value;
      MakeShowSpans();
    }

    /** `hide_spans_update` (and the builder `hide_spans_set`): new spans,
        shown clipped to the current area. */
    method HideSpansUpdate(value: seq<Span>)
      modifies this`hideSpans, this`showSpans
      ensures Valid() && hideSpans == value && area == old(area)
    {
      hideSpans := value;
      MakeShowSpans();
    }
  }
}
