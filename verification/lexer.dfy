/** The span tokenizer of src/lexer.rs: a byte cursor (`pos`, `byt`) over an
    inclusive window of a source buffer. Each mutating method is proved to
    follow a pure step function over `LexState`, and those functions carry
    the token-shape guarantees. */
module Lexing {
  import opened Types
  import opened Quoting

  datatype TokenKind = LastChar | Comma | Colon | Object | Array | String | Sequence

  datatype Token = Token(kind: TokenKind, location: Location)

  /** A lexer failure: either reported at a 1-based row and column, or
      without a position (an arithmetic check or an unexpected token). */
  datatype LexError = At(row: nat, col: nat) | Malformed

  /** The mutable part of the lexer, as a value. */
  datatype LexState = LexState(pos: nat, byt: Option<byte>)

  /** `row_col_position(&source[..=offset])` as an error value. */
  function PositionOf(prefix: seq<byte>): (e: LexError)
    ensures e.At? && e.row >= 1 && e.col <= |prefix|
  {
    At(1 + Newlines(prefix), |prefix| - LineStart(prefix))
  }

  /** `slice::get`: the byte at `i`, or None past the end. */
  function Get(src: seq<byte>, i: nat): (r: Option<byte>)
    ensures r.Some? <==> i < |src|
    ensures r.Some? ==> r.value == src[i]
  {
    if i < |src| then Some(src[i]) else None
  }

  /** The window must lie inside the buffer; the source slices up to `finish`. */
  predicate Window(src: seq<byte>, loc: Location) {
    loc.finish < |src| && loc.start <= |src|
  }

  /** `byt` is the byte under `pos` whenever it is present. */
  predicate Consistent(src: seq<byte>, st: LexState) {
    st.pos <= |src| && (st.byt.Some? ==> st.pos < |src| && src[st.pos] == st.byt.value)
  }

  /** Remaining input still reachable from a state; it drops on every real token. */
  function Measure(src: seq<byte>, st: LexState): nat {
    if st.byt.Some? && st.pos < |src| then |src| - st.pos else 0
  }

  predicate IsJsonSpace(b: byte) {
    b == SPACE || b == TAB || b == LF || b == CR
  }

  /** The bytes that end a bare sequence; `}` and `]` are not among them. */
  predicate IsTerminator(b: byte) {
    b == COLON || b == COMMA || IsJsonSpace(b)
  }

  /** `Lexer::new`. */
  function Init(src: seq<byte>, loc: Location): (st: LexState)
    requires Window(src, loc)
    ensures Consistent(src, st) && st.pos == loc.start
    ensures st.byt.None? <==> loc.start == |src|
  {
    LexState(loc.start, Get(src, loc.start))
  }

  /** `read_next_char`: step past a present byte, then drop the byte once
      the cursor is past the window. */
  function Advance(src: seq<byte>, loc: Location, st: LexState): (r: LexState)
    requires Consistent(src, st)
    ensures Consistent(src, r)
    ensures st.byt.Some? ==> r.pos == st.pos + 1
    ensures st.byt.None? ==> r == st
    ensures r.byt.Some? <==> st.byt.Some? && st.pos + 1 <= loc.finish && st.pos + 1 < |src|
    ensures Measure(src, r) < Measure(src, st) || (st.byt.None? && Measure(src, r) == 0)
  {
    var next := if st.byt.Some? then LexState(st.pos + 1, Get(src, st.pos + 1)) else st;
    if next.pos > loc.finish then LexState(next.pos, None) else next
  }

  /** `peek_next_char`: the byte after the cursor, if it is inside the window. */
  function Peek(src: seq<byte>, loc: Location, st: LexState): (r: Option<byte>)
    requires Window(src, loc)
    ensures r.Some? <==> st.pos + 1 <= loc.finish
    ensures r.Some? ==> r.value == src[st.pos + 1]
  {
    if st.pos + 1 > loc.finish then None else Get(src, st.pos + 1)
  }

  /** `skip_spaces`. */
  function SkipSpacesSpec(src: seq<byte>, loc: Location, st: LexState): (r: LexState)
    requires Consistent(src, st)
    ensures Consistent(src, r)
    ensures st.pos <= r.pos && Measure(src, r) <= Measure(src, st)
    ensures r.byt.None? || !IsJsonSpace(r.byt.value)
    ensures forall j | st.pos <= j < r.pos :: IsJsonSpace(src[j])
    ensures st.byt.None? || !IsJsonSpace(st.byt.value) ==> r == st
    decreases Measure(src, st)
  {
    if st.byt.Some? && IsJsonSpace(st.byt.value) then
      SkipSpacesSpec(src, loc, Advance(src, loc, st))
    else
      st
  }

  // ---------------------------------------------------------------------
  // Blocks: `find_block`

  /** Openers minus closers met outside strings in `w[..k]`, plus the
      opener of the block itself: the `opennings` counter of the source. */
  function Balance(o: byte, c: byte, w: seq<byte>, k: nat): int
    requires k <= |w|
  {
    1 + NeedlesBefore(o, w, k) - NeedlesBefore(c, w, k)
  }

  /** `w[f]` is a closer outside any string that brings the counter to zero. */
  predicate ClosesBlock(o: byte, c: byte, w: seq<byte>, f: nat)
    requires f < |w|
  {
    w[f] == c && QuotesBefore(w, f) % 2 == 0 && Balance(o, c, w, f + 1) == 0
  }

  /** The first position at or after `k` that closes the block. */
  function FirstClose(o: byte, c: byte, w: seq<byte>, k: nat): (r: Option<nat>)
    requires k <= |w|
    ensures r.Some? ==> k <= r.value < |w|
    decreases |w| - k
  {
    if k == |w| then None
    else if ClosesBlock(o, c, w, k) then Some(k)
    else FirstClose(o, c, w, k + 1)
  }

  /** `FirstClose` finds the least closing position, and finds none only
      when there is none. */
  lemma {:induction false} FirstCloseIsFirst(o: byte, c: byte, w: seq<byte>, k: nat)
    requires k <= |w|
    ensures var r := FirstClose(o, c, w, k);
      && (r.Some? ==> ClosesBlock(o, c, w, r.value) && forall j | k <= j < r.value :: !ClosesBlock(o, c, w, j))
      && (r.None? ==> forall j | k <= j < |w| :: !ClosesBlock(o, c, w, j))
    decreases |w| - k
  {
    if k < |w| && !ClosesBlock(o, c, w, k) {
      FirstCloseIsFirst(o, c, w, k + 1);
    }
  }

  /** `find_block` called with the opener at `start`: the block runs to the
      first closer that balances the openers seen outside strings within the
      window; it fails when the opener is the window's last byte or when no
      such closer exists. */
  function FindBlockSpec(src: seq<byte>, loc: Location, start: nat, o: byte, c: byte): (r: Result<Location, LexError>)
    requires Window(src, loc) && start < |src|
    ensures r.Ok? ==> r.value.start == start && start < r.value.finish <= loc.finish && src[r.value.finish] == c
    ensures r.Err? <==> start + 1 > loc.finish || FirstClose(o, c, src[start + 1..loc.finish + 1], 0).None?
    ensures r.Err? ==> r.error == PositionOf(src[..start + 1])
  {
    if start + 1 > loc.finish then Err(PositionOf(src[..start + 1]))
    else
      var w := src[start + 1..loc.finish + 1];
      FirstCloseIsFirst(o, c, w, 0);
      match FirstClose(o, c, w, 0)
      case Some(f) => Ok(Location(start, start + 1 + f))
      case None => Err(PositionOf(src[..start + 1]))
  }

  /** Positions that do not close the block leave the first close where it was. */
  lemma {:induction false} FirstCloseSkip(o: byte, c: byte, w: seq<byte>, lo: nat, hi: nat)
    requires lo <= hi <= |w|
    requires forall j | lo <= j < hi :: !ClosesBlock(o, c, w, j)
    ensures FirstClose(o, c, w, lo) == FirstClose(o, c, w, hi)
    decreases hi
  {
    if lo < hi {
      FirstCloseSkip(o, c, w, lo, hi - 1);
    }
  }

  /** The counters of one iteration of the `find_block` loop over the
      window `w`, searching from `ss` with `quotes` and `opens` the counters
      so far: the next closer is at `ss + p`, and the counters there are
      those of the window up to and including it. */
  lemma BlockSearchCounts(o: byte, c: byte, w: seq<byte>, ss: nat, p: nat, quotes: nat, opens: int, n: nat, q2: nat)
    requires PlainDelimiter(o) && PlainDelimiter(c) && o != c
    requires ss <= |w| && Memchr(c, w[ss..]) == Some(p)
    requires ss == 0 || w[ss - 1] == c
    requires quotes == QuotesBefore(w, ss) && opens == Balance(o, c, w, ss)
    requires n == EvenNeedles(o, w[ss..ss + p], quotes) && q2 == quotes + LiveQuotes(w[ss..ss + p])
    ensures ss + p < |w| && w[ss + p] == c
    ensures q2 == QuotesBefore(w, ss + p) && q2 == QuotesBefore(w, ss + p + 1)
    ensures opens + n == Balance(o, c, w, ss + p)
    ensures opens + n - (if q2 % 2 == 0 then 1 else 0) == Balance(o, c, w, ss + p + 1)
  {
    var seg := w[ss..ss + p];
    assert seg == w[ss..][..p];
    EvenNeedlesAbsent(c, seg, quotes);
    SegmentCounts(o, w, ss, p);
    SegmentCounts(c, w, ss, p);
  }

  /** One iteration of the `find_block` loop: the search either stops at
      the closer at `ss + p` or resumes after it with the updated counters. */
  lemma BlockSearchStep(o: byte, c: byte, w: seq<byte>, ss: nat, p: nat, quotes: nat, opens: int, n: nat, q2: nat)
    requires PlainDelimiter(o) && PlainDelimiter(c) && o != c
    requires ss <= |w| && Memchr(c, w[ss..]) == Some(p)
    requires ss == 0 || w[ss - 1] == c
    requires quotes == QuotesBefore(w, ss) && opens == Balance(o, c, w, ss)
    requires n == EvenNeedles(o, w[ss..ss + p], quotes) && q2 == quotes + LiveQuotes(w[ss..ss + p])
    ensures ss + p < |w| && w[ss + p] == c
    ensures q2 == QuotesBefore(w, ss + p + 1)
    ensures opens + n - (if q2 % 2 == 0 then 1 else 0) == Balance(o, c, w, ss + p + 1)
    ensures q2 % 2 == 0 && opens + n - 1 == 0 ==> FirstClose(o, c, w, ss) == Some(ss + p)
    ensures !(q2 % 2 == 0 && opens + n - 1 == 0) ==> FirstClose(o, c, w, ss) == FirstClose(o, c, w, ss + p + 1)
  {
    BlockSearchCounts(o, c, w, ss, p, quotes, opens, n, q2);
    var seg := w[ss..][..p];
    forall j | ss <= j < ss + p
      ensures !ClosesBlock(o, c, w, j)
    {
      assert w[j] == seg[j - ss];
    }
    if q2 % 2 == 0 && opens + n - 1 == 0 {
      assert ClosesBlock(o, c, w, ss + p);
      FirstCloseSkip(o, c, w, ss, ss + p);
    } else {
      assert !ClosesBlock(o, c, w, ss + p);
      FirstCloseSkip(o, c, w, ss, ss + p + 1);
    }
  }

  /** No closer left after `ss`: the block has no end. */
  lemma BlockSearchMiss(o: byte, c: byte, w: seq<byte>, ss: nat)
    requires ss <= |w| && Memchr(c, w[ss..]) == None
    ensures FirstClose(o, c, w, ss) == None
  {
    forall j | ss <= j < |w|
      ensures !ClosesBlock(o, c, w, j)
    {
      assert w[j] == w[ss..][j - ss];
    }
    FirstCloseSkip(o, c, w, ss, |w|);
  }

  /** The same for the string scan: stop at this quote or resume after it. */
  lemma StringSearchStep(src: seq<byte>, ss: nat, bound: nat, p: nat)
    requires ss <= bound <= |src|
    requires Memchr(QUOTE, src[ss..bound]) == Some(p)
    ensures ss + p < bound && src[ss + p] == QUOTE
    ensures LiveQuoteAt(src, ss + p) ==> FirstLiveQuote(src, ss, bound) == Some(ss + p)
    ensures !LiveQuoteAt(src, ss + p) ==> FirstLiveQuote(src, ss, bound) == FirstLiveQuote(src, ss + p + 1, bound)
  {
    assert forall j | ss <= j < ss + p :: src[j] == src[ss..bound][..p][j - ss];
    FirstLiveQuoteSkip(src, ss, ss + p, bound);
  }

  lemma StringSearchMiss(src: seq<byte>, ss: nat, bound: nat)
    requires ss <= bound <= |src|
    requires Memchr(QUOTE, src[ss..bound]) == None
    ensures FirstLiveQuote(src, ss, bound) == None
  {
    forall j | ss <= j < bound
      ensures !LiveQuoteAt(src, j)
    {
      assert src[j] == src[ss..bound][j - ss];
    }
  }

  // ---------------------------------------------------------------------
  // Strings

  /** The first live quote in `src[k..bound)`. */
  function FirstLiveQuote(src: seq<byte>, k: nat, bound: nat): (r: Option<nat>)
    requires k <= bound <= |src|
    ensures r.Some? ==> k <= r.value < bound && LiveQuoteAt(src, r.value)
    ensures r.Some? ==> forall j | k <= j < r.value :: !LiveQuoteAt(src, j)
    ensures r.None? ==> forall j | k <= j < bound :: !LiveQuoteAt(src, j)
    decreases bound - k
  {
    if k == bound then None
    else if LiveQuoteAt(src, k) then Some(k)
    else FirstLiveQuote(src, k + 1, bound)
  }

  /** The string branch of `next_token`: from the opening quote at `start`
      to the first later quote whose backslash run, looked for through the
      whole buffer, is even; failing as `find_block` does. */
  function StringSpec(src: seq<byte>, loc: Location, start: nat): (r: Result<Location, LexError>)
    requires Window(src, loc) && start < |src|
    ensures r.Ok? ==> r.value.start == start && start < r.value.finish <= loc.finish
    ensures r.Ok? ==> src[r.value.finish] == QUOTE && BackslashRun(src, r.value.finish) % 2 == 0
    ensures r.Err? <==> start + 1 > loc.finish || FirstLiveQuote(src, start + 1, loc.finish + 1).None?
    ensures r.Err? ==> r.error == PositionOf(src[..start + 1])
  {
    if start + 1 > loc.finish then Err(PositionOf(src[..start + 1]))
    else
      match FirstLiveQuote(src, start + 1, loc.finish + 1)
      case Some(f) => Ok(Location(start, f))
      case None => Err(PositionOf(src[..start + 1]))
  }

  // ---------------------------------------------------------------------
  // Sequences

  /** The last byte of a bare sequence starting at `e`: the sequence grows
      while the next byte is inside the window and is not a terminator. */
  function SequenceEnd(src: seq<byte>, fin: nat, e: nat): (r: nat)
    requires fin < |src| && e < |src|
    ensures e <= r < |src|
    ensures r + 1 > fin || IsTerminator(src[r + 1])
    ensures e < r ==> r <= fin
    ensures forall j | e < j <= r :: !IsTerminator(src[j])
    decreases |src| - e
  {
    if e + 1 > fin || IsTerminator(src[e + 1]) then e else SequenceEnd(src, fin, e + 1)
  }

  // ---------------------------------------------------------------------
  // Tokens

  /** The token that starts with byte `b` at `p` (the match of `next_token`). */
  function Lexeme(src: seq<byte>, loc: Location, p: nat, b: byte): (r: Result<Token, LexError>)
    requires Window(src, loc) && p < |src| && src[p] == b && !IsJsonSpace(b)
    ensures r.Ok? ==> r.value.location.start == p <= r.value.location.finish < |src|
    ensures r.Ok? ==> r.value.kind != LastChar
    ensures r.Ok? && r.value.kind in {Colon, Comma} ==> r.value.location.finish == p
    ensures r.Ok? ==> (r.value.kind == Colon <==> b == COLON) && (r.value.kind == Comma <==> b == COMMA)
    ensures r.Ok? ==> (r.value.kind == Object <==> b == LBRACE) && (r.value.kind == Array <==> b == LBRACKET)
    ensures r.Ok? ==> (r.value.kind == String <==> b == QUOTE)
    ensures r.Ok? && r.value.kind == Object ==> src[r.value.location.finish] == RBRACE && r.value.location.finish <= loc.finish
    ensures r.Ok? && r.value.kind == Array ==> src[r.value.location.finish] == RBRACKET && r.value.location.finish <= loc.finish
    ensures r.Ok? && r.value.kind == String ==> p < r.value.location.finish <= loc.finish && LiveQuoteAt(src, r.value.location.finish)
    ensures r.Ok? && r.value.kind == Sequence ==>
      var f := r.value.location.finish;
      (f + 1 > loc.finish || IsTerminator(src[f + 1])) && forall j | p < j <= f :: !IsTerminator(src[j])
    ensures r.Err? ==> b in {LBRACE, LBRACKET, QUOTE}
  {
    if b == COLON then Ok(Token(Colon, Location(p, p)))
    else if b == COMMA then Ok(Token(Comma, Location(p, p)))
    else if b == LBRACE then
      var l :- FindBlockSpec(src, loc, p, LBRACE, RBRACE);
      Ok(Token(Object, l))
    else if b == LBRACKET then
      var l :- FindBlockSpec(src, loc, p, LBRACKET, RBRACKET);
      Ok(Token(Array, l))
    else if b == QUOTE then
      var l :- StringSpec(src, loc, p);
      Ok(Token(String, l))
    else
      Ok(Token(Sequence, Location(p, SequenceEnd(src, loc.finish, p))))
  }

  /** `next_token`: skip whitespace, read one token, step past its last byte.
      An exhausted window gives `LastChar` at `pos - 1` (a failure when `pos`
      is 0). */
  function NextTokenSpec(src: seq<byte>, loc: Location, st: LexState): (r: Result<(Token, LexState), LexError>)
    requires Window(src, loc) && Consistent(src, st)
    ensures r.Ok? ==> Consistent(src, r.value.1) && Measure(src, r.value.1) <= Measure(src, st)
    ensures r.Ok? ==> st.pos <= r.value.1.pos
    ensures r.Ok? && r.value.0.kind == LastChar ==> r.value.1.byt.None? && r.value.0.location.start == r.value.0.location.finish
    ensures r.Ok? && r.value.0.kind == LastChar ==> r.value.0.location.finish + 1 == r.value.1.pos
    ensures r.Ok? && r.value.0.kind != LastChar ==>
      && Measure(src, r.value.1) < Measure(src, st)
      && st.pos <= r.value.0.location.start <= r.value.0.location.finish < |src|
      && r.value.1.pos == r.value.0.location.finish + 1
      && (forall j | st.pos <= j < r.value.0.location.start :: IsJsonSpace(src[j]))
  {
    var s1 := SkipSpacesSpec(src, loc, st);
    match s1.byt
    case None =>
      if s1.pos == 0 then Err(Malformed)
      else Ok((Token(LastChar, Location(s1.pos - 1, s1.pos - 1)), Advance(src, loc, s1)))
    case Some(b) =>
      var t :- Lexeme(src, loc, s1.pos, b);
      var f := t.location.finish;
      Ok((t, Advance(src, loc, LexState(f, Some(src[f])))))
  }

  /** `expect_kinds`: the next token, or a failure at its start position
      when its kind is not among `kinds`. */
  function ExpectSpec(src: seq<byte>, loc: Location, st: LexState, kinds: seq<TokenKind>): (r: Result<(Token, LexState), LexError>)
    requires Window(src, loc) && Consistent(src, st)
    ensures r.Ok? ==> NextTokenSpec(src, loc, st) == r && r.value.0.kind in kinds
    ensures r.Err? ==> NextTokenSpec(src, loc, st).Err? || NextTokenSpec(src, loc, st).value.0.kind !in kinds
  {
    var t :- NextTokenSpec(src, loc, st);
    if t.0.kind in kinds then Ok(t)
    else if t.0.location.start < |src| then Err(PositionOf(src[..t.0.location.start + 1]))
    else Err(Malformed)
  }

  /** The search loop of `find_block` over the window that follows the
      opener, with the running `quotes` and `opennings` counters of the
      source: the offset in the window of the closer that ends the block,
      if the window holds one. */
  method ScanBlock(window: seq<byte>, opener: byte, closer: byte) returns (finish: Option<nat>)
    requires PlainDelimiter(opener) && PlainDelimiter(closer) && opener != closer
    ensures finish == FirstClose(opener, closer, window, 0)
  {
    var searchStart := 0;
    var quotes := 0;
    var opennings: int := 1;
    while true
      invariant searchStart <= |window|
      invariant searchStart == 0 || window[searchStart - 1] == closer
      invariant quotes == QuotesBefore(window, searchStart)
      invariant opennings == Balance(opener, closer, window, searchStart)
      invariant FirstClose(opener, closer, window, 0) == FirstClose(opener, closer, window, searchStart)
      decreases |window| - searchStart
    {
      match Memchr(closer, window[searchStart..])
      case None =>
        BlockSearchMiss(opener, closer, window, searchStart);
        return None;
      case Some(p) =>
        var position := searchStart + p;
        var n, q2 := CountNeedles(opener, window[searchStart..position], quotes);
        BlockSearchStep(opener, closer, window, searchStart, p, quotes, opennings, n, q2);
        opennings := opennings + n;
        quotes := q2;
        if quotes % 2 != 0 {
          searchStart := position + 1;
          continue;
        }
        opennings := opennings - 1;
        if opennings == 0 {
          return Some(position);
        }
        searchStart := position + 1;
    }
  }

  /** `find_block` on values: the scan, and the error position when the
      opener is the window's last byte or the scan finds no closer. */
  method SearchBlock(source: seq<byte>, location: Location, start: nat, opener: byte, closer: byte)
    returns (r: Result<Location, LexError>)
    requires Window(source, location) && start < |source|
    requires PlainDelimiter(opener) && PlainDelimiter(closer) && opener != closer
    ensures r == FindBlockSpec(source, location, start, opener, closer)
  {
    if start + 1 > location.finish {
      var e := ErrorAt(source, start);
      return Err(e);
    }
    var finish := ScanBlock(source[start + 1..location.finish + 1], opener, closer);
    if finish.None? {
      var e := ErrorAt(source, start);
      return Err(e);
    }
    return Ok(Location(start, start + 1 + finish.value));
  }

  /** `row_col_position(&source[..=start])` turned into the lexer's error. */
  method ErrorAt(source: seq<byte>, start: nat) returns (e: LexError)
    requires start < |source|
    ensures e == PositionOf(source[..start + 1])
  {
    var row, col := RowColPosition(source[..start + 1]);
    e := At(row, col);
  }

  /** The quote loop of the string scan: each quote found in
      `source[searchStart..bound)` is kept when the backslashes before it,
      looked for through the whole buffer, are even in number. */
  method ScanString(source: seq<byte>, searchStart: nat, bound: nat) returns (finish: Option<nat>)
    requires searchStart <= bound <= |source|
    ensures finish == FirstLiveQuote(source, searchStart, bound)
  {
    var k := searchStart;
    while true
      invariant searchStart <= k <= bound
      invariant FirstLiveQuote(source, searchStart, bound) == FirstLiveQuote(source, k, bound)
      decreases bound - k
    {
      match Memchr(QUOTE, source[k..bound])
      case None =>
        StringSearchMiss(source, k, bound);
        return None;
      case Some(p) =>
        StringSearchStep(source, k, bound, p);
        var backslashes := CountBackslashesBefore(source, k + p);
        if backslashes % 2 == 0 {
          return Some(k + p);
        }
        k := k + p + 1;
    }
  }

  /** The string scan of `next_token` for the quote at `start`, with the
      error position when the quote is the window's last byte or no
      closing quote follows. */
  method SearchString(source: seq<byte>, location: Location, start: nat) returns (r: Result<Location, LexError>)
    requires Window(source, location) && start < |source|
    ensures r == StringSpec(source, location, start)
  {
    if start + 1 > location.finish {
      var e := ErrorAt(source, start);
      return Err(e);
    }
    var finish := ScanString(source, start + 1, location.finish + 1);
    if finish.None? {
      var e := ErrorAt(source, start);
      return Err(e);
    }
    return Ok(Location(start, finish.value));
  }

  // ---------------------------------------------------------------------
  // The lexer object

  class Lexer {
    const source: seq<byte>
    const location: Location
    var pos: nat
    var byt: Option<byte>

    function State(): LexState
      reads this
    {
      LexState(pos, byt)
    }

    predicate Valid()
      reads this
    {
      Window(source, location) && Consistent(source, State())
    }

    /** `Lexer::new`: the cursor starts on the window's first byte. */
    constructor (source: seq<byte>, location: Location)
      requires Window(source, location)
      ensures this.source == source && this.location == location
      ensures State() == Init(source, location) && Valid()
    {
      this.source := source;
      this.location := location;
      pos := location.start;
      byt := Get(source, location.start);
    }

    method ReadNextChar()
      requires Valid()
      modifies this
      ensures Valid() && State() == Advance(source, location, old(State()))
    {
      if byt.Some? {
        var nextPos := pos + 1;
        var nextByt := Get(source, nextPos);
        pos := nextPos;
        byt := nextByt;
      }
      if pos > location.finish {
        byt := None;
      }
    }

    method PeekNextChar() returns (next: Option<byte>)
      requires Valid()
      ensures next == Peek(source, location, State())
    {
      var nextPos := pos + 1;
      next := Get(source, nextPos);
      if nextPos > location.finish {
        next := None;
      }
    }

    method SkipSpaces()
      requires Valid()
      modifies this
      ensures Valid() && State() == SkipSpacesSpec(source, location, old(State()))
    {
      while byt.Some? && IsJsonSpace(byt.value)
        invariant Valid()
        invariant SkipSpacesSpec(source, location, State()) == SkipSpacesSpec(source, location, old(State()))
        decreases Measure(source, State())
      {
        ReadNextChar();
      }
    }

    /** `find_block`: on success the cursor rests on the closer. */
    method FindBlock(opener: byte, closer: byte) returns (r: Result<Location, LexError>)
      requires Valid() && byt == Some(opener)
      requires PlainDelimiter(opener) && PlainDelimiter(closer) && opener != closer
      modifies this
      ensures Valid()
      ensures r == FindBlockSpec(source, location, old(pos), opener, closer)
      ensures r.Ok? ==> pos == r.value.finish && byt == Some(closer)
      ensures r.Err? ==> State() == old(State())
    {
      r := SearchBlock(source, location, pos, opener, closer);
      if r.Ok? {
        pos := r.value.finish;
        byt := Some(closer);
      }
    }

    /** The string branch of `next_token`: on success the cursor rests on the
        closing quote. */
    method ScanString() returns (r: Result<Location, LexError>)
      requires Valid() && byt == Some(QUOTE)
      modifies this
      ensures Valid()
      ensures r == StringSpec(source, location, old(pos))
      ensures r.Ok? ==> pos == r.value.finish && byt == Some(QUOTE)
      ensures r.Err? ==> State() == old(State())
    {
      r := SearchString(source, location, pos);
      if r.Ok? {
        pos := r.value.finish;
        byt := Some(QUOTE);
      }
    }

    /** The bare-sequence branch of `next_token`: the cursor advances while the
        next byte is inside the window and is not a terminator. */
    method ScanSequence() returns (finish: nat)
      requires Valid() && byt.Some?
      modifies this
      ensures Valid()
      ensures finish == SequenceEnd(source, location.finish, old(pos))
      ensures pos == finish && byt == Some(source[finish])
    {
      ghost var start := pos;
      while true
        invariant Valid() && byt.Some? && start <= pos
        invariant SequenceEnd(source, location.finish, pos) == SequenceEnd(source, location.finish, start)
        decreases |source| - pos
      {
        var next := PeekNextChar();
        if next.None? || IsTerminator(next.value) {
          break;
        }
        ReadNextChar();
      }
      finish := pos;
    }

    /** `next_token`; the cursor state after a failure is left unspecified,
        since every caller discards the lexer then. */
    method NextToken() returns (r: Result<Token, LexError>)
      requires Valid()
      modifies this
      ensures Valid()
      ensures var spec := NextTokenSpec(source, location, old(State()));
        && (r.Ok? <==> spec.Ok?)
        && (r.Ok? ==> r.value == spec.value.0 && State() == spec.value.1)
        && (r.Err? ==> r.error == spec.error)
    {
      SkipSpaces();
      var token: Token;
      match byt {
      case None =>
        if pos == 0 {
          return Err(Malformed);
        }
        token := Token(LastChar, Location(pos - 1, pos - 1));
      case Some(b) =>
        ghost var lexeme := Lexeme(source, location, pos, b);
        if b == COLON {
          token := Token(Colon, Location(pos, pos));
        } else if b == COMMA {
          token := Token(Comma, Location(pos, pos));
        } else if b == LBRACE {
          var l := FindBlock(LBRACE, RBRACE);
          if l.Err? {
            return Err(l.error);
          }
          token := Token(Object, l.value);
        } else if b == LBRACKET {
          var l := FindBlock(LBRACKET, RBRACKET);
          if l.Err? {
            return Err(l.error);
          }
          token := Token(Array, l.value);
        } else if b == QUOTE {
          var l := ScanString();
          if l.Err? {
            return Err(l.error);
          }
          token := Token(String, l.value);
        } else {
          var start := pos;
          var finish := ScanSequence();
          token := Token(Sequence, Location(start, finish));
        }
        assert lexeme == Ok(token);
        assert State() == LexState(token.location.finish, Some(source[token.location.finish]));
      }
      ReadNextChar();
      r := Ok(token);
    }

    /** `expect_kinds`; the error position is taken in the lexer's own buffer. */
    method ExpectKinds(kinds: seq<TokenKind>) returns (r: Result<Token, LexError>)
      requires Valid()
      modifies this
      ensures Valid()
      ensures var spec := ExpectSpec(source, location, old(State()), kinds);
        && (r.Ok? <==> spec.Ok?)
        && (r.Ok? ==> r.value == spec.value.0 && State() == spec.value.1)
        && (r.Err? ==> r.error == spec.error)
    {
      r := NextToken();
      if r.Err? {
        return;
      }
      var token := r.value;
      if token.kind !in kinds {
        if token.location.start < |source| {
          var row, col := RowColPosition(source[..token.location.start + 1]);
          return Err(At(row, col));
        }
        return Err(Malformed);
      }
      return Ok(token);
    }
  }

  /** A stretch without quotes leaves the first live quote where it was. */
  lemma FirstLiveQuoteSkip(src: seq<byte>, lo: nat, hi: nat, bound: nat)
    requires lo <= hi < bound <= |src|
    requires forall j | lo <= j < hi :: src[j] != QUOTE
    ensures FirstLiveQuote(src, lo, bound) == FirstLiveQuote(src, hi, bound)
    decreases hi
  {
    if lo < hi {
      FirstLiveQuoteSkip(src, lo, hi - 1, bound);
    }
  }
}
