/** `path_parser` (src/main.rs:52-61): the `--path` argument, such as
    `"[3,0,1]"` or `"4,1,1,0"`, read into a cursor path. */
module Cli {
  import opened Types

  // ---------------------------------------------------------------------
  // The string operations it is made of

  /** `char::is_whitespace`: the characters with the Unicode White_Space
      property. */
  predicate IsWhitespace(c: char) {
    if c <= ' ' then '\t' <= c <= '\r' || c == ' '
    else if c < '\U{85}' then false
    else
      || c == '\U{85}' || c == '\U{A0}' || c == '\U{1680}' || ('\U{2000}' <= c <= '\U{200A}')
      || c == '\U{2028}' || c == '\U{2029}' || c == '\U{202F}' || c == '\U{205F}' || c == '\U{3000}'
  }

  /** `str::trim_start_matches(c)`: every leading `c` removed. */
  function TrimStartMatches(s: string, c: char): (r: string)
    ensures |r| <= |s| && r == s[|s| - |r|..]
    ensures forall i :: 0 <= i < |s| - |r| ==> s[i] == c
    ensures |r| > 0 ==> r[0] != c
  {
    if |s| > 0 && s[0] == c then TrimStartMatches(s[1..], c) else s
  }

  /** `str::trim_end_matches(c)`: every trailing `c` removed. */
  function TrimEndMatches(s: string, c: char): (r: string)
    ensures |r| <= |s| && r == s[..|r|]
    ensures forall i :: |r| <= i < |s| ==> s[i] == c
    ensures |r| > 0 ==> r[|r| - 1] != c
  {
    if |s| > 0 && s[|s| - 1] == c then TrimEndMatches(s[..|s| - 1], c) else s
  }

  /** `str::trim`: leading and trailing whitespace removed. */
  function Trim(s: string): (r: string)
    ensures |r| <= |s|
    ensures |r| > 0 ==> !IsWhitespace(r[0]) && !IsWhitespace(r[|r| - 1])
    ensures (|s| == 0 || (!IsWhitespace(s[0]) && !IsWhitespace(s[|s| - 1]))) ==> r == s
  {
    TrimEnd(TrimStart(s))
  }

  function TrimStart(s: string): (r: string)
    ensures |r| <= |s| && r == s[|s| - |r|..]
    ensures |r| > 0 ==> !IsWhitespace(r[0])
    ensures |s| > 0 && !IsWhitespace(s[0]) ==> r == s
  {
    if |s| > 0 && IsWhitespace(s[0]) then TrimStart(s[1..]) else s
  }

  function TrimEnd(s: string): (r: string)
    ensures |r| <= |s| && r == s[..|r|]
    ensures |r| > 0 ==> !IsWhitespace(r[|r| - 1]) && r[0] == s[0]
    ensures |s| > 0 && !IsWhitespace(s[|s| - 1]) ==> r == s
  {
    if |s| > 0 && IsWhitespace(s[|s| - 1]) then TrimEnd(s[..|s| - 1]) else s
  }

  /** `str::split(sep)`: the pieces between separators, always at least
      one (the empty string gives one empty piece). */
  function Split(s: string, sep: char): (r: seq<string>)
    ensures |r| > 0
    ensures forall i, j :: 0 <= i < |r| && 0 <= j < |r[i]| ==> r[i][j] != sep
    decreases |s|
  {
    if |s| == 0 then [""]
    else
      var rest := Split(s[1..], sep);
      if s[0] == sep then [""] + rest
      else [[s[0]] + rest[0]] + rest[1..]
  }

  /** Pieces glued back with the separator between them. */
  function Join(pieces: seq<string>, sep: char): (r: string)
    requires |pieces| > 0
    decreases |pieces|
  {
    if |pieces| == 1 then pieces[0] else pieces[0] + [sep] + Join(pieces[1..], sep)
  }

  /** Splitting and joining are inverse: joining the pieces of a string
      gives the string back. */
  lemma {:induction false} JoinSplit(s: string, sep: char)
    ensures Join(Split(s, sep), sep) == s
    decreases |s|
  {
    if |s| > 0 {
      JoinSplit(s[1..], sep);
      var rest := Split(s[1..], sep);
      if s[0] == sep {
        assert ([""] + rest)[1..] == rest;
        assert s == [sep] + s[1..];
      } else {
        var r := [[s[0]] + rest[0]] + rest[1..];
        assert r[1..] == rest[1..];
        if |rest| == 1 {
          assert s == [s[0]] + rest[0];
        } else {
          assert rest[1..] == Split(s[1..], sep)[1..];
          assert Join(rest, sep) == rest[0] + [sep] + Join(rest[1..], sep);
          assert s == [s[0]] + s[1..];
        }
      }
    }
  }

  /** Splitting a join of pieces without separators gives the pieces back. */
  lemma {:induction false} SplitJoin(pieces: seq<string>, sep: char)
    requires |pieces| > 0
    requires forall i, j :: 0 <= i < |pieces| && 0 <= j < |pieces[i]| ==> pieces[i][j] != sep
    ensures Split(Join(pieces, sep), sep) == pieces
    decreases |pieces|
  {
    if |pieces| == 1 {
      SplitPiece(pieces[0], [], sep);
      assert Split([], sep) == [""];
      assert pieces[0] + [] == pieces[0] && pieces[0] + "" == pieces[0];
      assert Join(pieces, sep) == pieces[0];
      assert [pieces[0]] == pieces;
    } else {
      SplitJoin(pieces[1..], sep);
      var tail := Join(pieces[1..], sep);
      SplitPiece(pieces[0], [sep] + tail, sep);
      assert pieces[0] + [sep] + tail == pieces[0] + ([sep] + tail);
      assert ([sep] + tail)[1..] == tail;
      assert [pieces[0]] + pieces[1..] == pieces;
    }
  }

  /** A separator-free piece in front of a string joins the first piece of
      that string's split. */
  lemma {:induction false} SplitPiece(piece: string, t: string, sep: char)
    requires forall j :: 0 <= j < |piece| ==> piece[j] != sep
    ensures var r := Split(t, sep);
      Split(piece + t, sep) == (if |t| > 0 && t[0] == sep then [piece] + Split(t[1..], sep)
                                else [piece + r[0]] + r[1..])
    decreases |piece|
  {
    var r := Split(t, sep);
    if |piece| > 0 {
      var x, p1 := piece[0], piece[1..];
      SplitPiece(p1, t, sep);
      var rest := Split(p1 + t, sep);
      assert (piece + t)[1..] == p1 + t;
      assert (piece + t)[0] == x;
      assert Split(piece + t, sep) == [[x] + rest[0]] + rest[1..];
      if |t| > 0 && t[0] == sep {
        assert rest == [p1] + Split(t[1..], sep);
        assert [x] + p1 == piece;
      } else {
        assert rest == [p1 + r[0]] + r[1..];
        assert [x] + (p1 + r[0]) == piece + r[0];
      }
    } else {
      assert piece + t == t;
      if |t| > 0 && t[0] == sep {
        assert r == [""] + Split(t[1..], sep);
      } else {
        assert piece + r[0] == r[0];
        assert [r[0]] + r[1..] == r;
      }
    }
  }

  // ---------------------------------------------------------------------
  // Numbers

  predicate IsDigit(c: char) {
    '0' <= c <= '9'
  }

  function DigitValue(c: char): nat
    requires IsDigit(c)
  {
    c as nat - '0' as nat
  }

  predicate AllDigits(s: string) {
    forall i :: 0 <= i < |s| ==> IsDigit(s[i])
  }

  /** The value of a string of decimal digits. */
  function DigitsValue(s: string): nat
    requires AllDigits(s)
  {
    if |s| == 0 then 0 else DigitsValue(s[..|s| - 1]) * 10 + DigitValue(s[|s| - 1])
  }

  /** `usize::from_str`: an optional `+`, then at least one decimal digit,
      with a value that fits `usize`. */
  function ParseStep(s: string): (r: Result<Step, Failure>)
    ensures r.Ok? ==> r.value <= STEP_MAX
    ensures |s| == 0 ==> r.Err?
    ensures r.Ok? ==> |s| > 0 && (IsDigit(s[0]) || s[0] == '+') && IsDigit(s[|s| - 1])
  {
    var digits := if |s| > 0 && s[0] == '+' then s[1..] else s;
    if |digits| == 0 || !AllDigits(digits) then Err(Fail)
    else if DigitsValue(digits) > STEP_MAX then Err(Fail)
    else Ok(DigitsValue(digits))
  }

  /** The decimal form of a number, as `Display` writes it. */
  function Decimal(n: nat): (r: string)
    ensures |r| > 0 && AllDigits(r)
  {
    if n < 10 then [('0' as nat + n) as char] else Decimal(n / 10) + [('0' as nat + n % 10) as char]
  }

  /** Reading the decimal form of a number gives the number. */
  lemma {:induction false} DecimalValue(n: nat)
    ensures DigitsValue(Decimal(n)) == n
  {
    if n >= 10 {
      DecimalValue(n / 10);
      var d := Decimal(n);
      assert d[..|d| - 1] == Decimal(n / 10);
    }
  }

  /** A step written in decimal parses back to itself, and trimming does
      not touch it. */
  lemma {:induction false} ParseDecimal(n: nat)
    requires n <= STEP_MAX
    ensures ParseStep(Trim(Decimal(n))) == Ok(n)
  {
    DecimalValue(n);
    ParseTrimmedDigits(Decimal(n));
  }

  /** Digits with a value that fits `usize` parse as that value. */
  lemma {:induction false} ParseDigits(s: string)
    requires |s| > 0 && AllDigits(s) && DigitsValue(s) <= STEP_MAX
    ensures ParseStep(s) == Ok(DigitsValue(s))
  {
    assert IsDigit(s[0]);
  }

  lemma {:induction false} ParseTrimmedDigits(s: string)
    requires |s| > 0 && AllDigits(s) && DigitsValue(s) <= STEP_MAX
    ensures ParseStep(Trim(s)) == Ok(DigitsValue(s))
  {
    TrimDigits(s);
    ParseDigits(s);
  }

  lemma {:induction false} TrimDigits(s: string)
    requires |s| > 0 && AllDigits(s)
    ensures Trim(s) == s
  {
    assert IsDigit(s[0]) && IsDigit(s[|s| - 1]);
  }

  // ---------------------------------------------------------------------
  // `path_parser`

  /** `.map(|word| word.trim().parse::<Step>())`: each piece trimmed and
      parsed on its own. */
  function ParsePieces(pieces: seq<string>): (r: seq<Result<Step, Failure>>)
    ensures |r| == |pieces|
    ensures forall i :: 0 <= i < |r| ==> r[i] == ParseStep(Trim(pieces[i]))
  {
    if |pieces| == 0 then [] else [ParseStep(Trim(pieces[0]))] + ParsePieces(pieces[1..])
  }

  /** `.collect::<Result<Box<[Step]>>>()`: the values in order, or the
      first failure. */
  function Collect(results: seq<Result<Step, Failure>>): (r: Result<Path, Failure>)
    ensures r.Ok? ==> |r.value| == |results|
  {
    if |results| == 0 then Ok([])
    else
      var first :- results[0];
      var rest :- Collect(results[1..]);
      Ok([first] + rest)
  }

  /** Collected values are the results' own values, in order. */
  lemma {:induction false} CollectStep(results: seq<Result<Step, Failure>>, i: nat)
    requires Collect(results).Ok? && i < |results|
    ensures results[i] == Ok(Collect(results).value[i])
  {
    if i > 0 {
      CollectStep(results[1..], i - 1);
    }
  }

  /** Collecting fails exactly when some result is a failure. */
  lemma {:induction false} CollectFails(results: seq<Result<Step, Failure>>)
    ensures Collect(results).Err? <==> exists i :: 0 <= i < |results| && results[i].Err?
  {
    if |results| > 0 {
      CollectFails(results[1..]);
      if results[0].Ok? && Collect(results[1..]).Err? {
        var i :| 0 <= i < |results[1..]| && results[1..][i].Err?;
        assert results[i + 1].Err?;
      }
    }
  }

  /** Each piece trimmed and parsed; the first failure fails the whole. */
  function ParseAll(pieces: seq<string>): (r: Result<Path, Failure>)
    ensures r.Ok? ==> |r.value| == |pieces|
  {
    Collect(ParsePieces(pieces))
  }

  /** The steps are the pieces parsed one by one, in order. */
  lemma ParseAllStep(pieces: seq<string>, i: nat)
    requires ParseAll(pieces).Ok? && i < |pieces|
    ensures ParseStep(Trim(pieces[i])) == Ok(ParseAll(pieces).value[i])
  {
    CollectStep(ParsePieces(pieces), i);
  }

  /** The parse fails exactly when some piece does not parse. */
  lemma ParseAllFails(pieces: seq<string>)
    ensures ParseAll(pieces).Err? <==> exists i :: 0 <= i < |pieces| && ParseStep(Trim(pieces[i])).Err?
  {
    var results := ParsePieces(pieces);
    CollectFails(results);
    if ParseAll(pieces).Err? {
      var i :| 0 <= i < |results| && results[i].Err?;
      assert ParseStep(Trim(pieces[i])).Err?;
    }
  }

  /** `path_parser`: every leading `[` and trailing `]` removed, the rest
      split at commas, and each piece trimmed and parsed as a step. */
  function PathParser(value: string): (r: Result<Path, Failure>)
    ensures r.Ok? ==> |r.value| == |Split(TrimEndMatches(TrimStartMatches(value, '['), ']'), ',')|
  {
    var inner := TrimEndMatches(TrimStartMatches(value, '['), ']');
    ParseAll(Split(inner, ','))
  }

  /** The pieces of the argument are the text between its commas, in
      order: the parsed steps glue back into the argument without its
      brackets. */
  lemma PathParserPieces(value: string)
    ensures var inner := TrimEndMatches(TrimStartMatches(value, '['), ']');
      Join(Split(inner, ','), ',') == inner
  {
    JoinSplit(TrimEndMatches(TrimStartMatches(value, '['), ']'), ',');
  }

  /** A path written as comma-separated decimals. */
  function Decimals(path: Path): (r: seq<string>)
    ensures |r| == |path| && forall i :: 0 <= i < |r| ==> r[i] == Decimal(path[i])
  {
    if |path| == 0 then [] else [Decimal(path[0])] + Decimals(path[1..])
  }

  /** Each decimal piece parses back to its step. */
  lemma {:induction false} ParseAllDecimals(path: Path)
    requires forall i :: 0 <= i < |path| ==> path[i] <= STEP_MAX
    ensures ParseAll(Decimals(path)) == Ok(path)
  {
    if |path| > 0 {
      var pieces := Decimals(path);
      assert pieces[1..] == Decimals(path[1..]);
      ParseAllDecimals(path[1..]);
      ParseDecimal(path[0]);
      assert ParseAll(pieces) == Ok([path[0]] + path[1..]);
      assert [path[0]] + path[1..] == path;
    }
  }

  /** Brackets around a string that neither starts with `[` nor ends with
      `]` are exactly what the parser strips. */
  lemma {:induction false} StripBrackets(inner: string, bracketed: bool)
    requires |inner| > 0 && inner[0] != '[' && inner[|inner| - 1] != ']'
    ensures var value := if bracketed then "[" + inner + "]" else inner;
      TrimEndMatches(TrimStartMatches(value, '['), ']') == inner
  {
    if bracketed {
      var value := "[" + inner + "]";
      assert value[1..] == inner + "]";
      assert TrimStartMatches(inner + "]", '[') == inner + "]";
      assert (inner + "]")[..|inner|] == inner;
    }
  }

  /** The comma-separated decimals of a non-empty path parse back to the
      path, with or without the brackets. */
  lemma {:induction false} PathParserRoundTrip(path: Path, bracketed: bool)
    requires |path| > 0 && forall i :: 0 <= i < |path| ==> path[i] <= STEP_MAX
    ensures var inner := Join(Decimals(path), ',');
      PathParser(if bracketed then "[" + inner + "]" else inner) == Ok(path)
  {
    var pieces := Decimals(path);
    var inner := Join(pieces, ',');
    JoinDigits(pieces);
    SplitJoin(pieces, ',');
    StripBrackets(inner, bracketed);
    ParseAllDecimals(path);
  }

  /** A join of digit strings starts and ends with a digit. */
  lemma {:induction false} JoinDigits(pieces: seq<string>)
    requires |pieces| > 0
    requires forall i :: 0 <= i < |pieces| ==> |pieces[i]| > 0 && forall j :: 0 <= j < |pieces[i]| ==> IsDigit(pieces[i][j])
    ensures var s := Join(pieces, ','); |s| > 0 && IsDigit(s[0]) && IsDigit(s[|s| - 1])
    decreases |pieces|
  {
    if |pieces| > 1 {
      JoinDigits(pieces[1..]);
    }
  }

  /** The default argument `[0]` reads as the first top-level item. */
  lemma PathParserDefault(value: string)
    requires value == "[0]"
    ensures PathParser(value) == Ok([0])
  {
    assert Decimal(0) == "0";
    assert Decimals([0]) == ["0"];
    assert Join(["0"], ',') == "0";
    assert "[" + "0" + "]" == value;
    PathParserRoundTrip([0], true);
  }

  /** The bracketed example of the `--path` help text (src/main.rs:43). */
  lemma PathParserBracketedExample(value: string)
    requires value == "[3,0,1]"
    ensures PathParser(value) == Ok([3, 0, 1])
  {
    assert Decimal(0) == "0" && Decimal(1) == "1" && Decimal(3) == "3";
    assert Decimals([3, 0, 1]) == ["3", "0", "1"];
    assert Join(["1"], ',') == "1";
    assert Join(["0", "1"], ',') == "0,1";
    assert Join(["3", "0", "1"], ',') == "3,0,1";
    assert "[" + "3,0,1" + "]" == value;
    PathParserRoundTrip([3, 0, 1], true);
  }

  /** The unbracketed example of the `--path` help text. */
  lemma PathParserBareExample(value: string)
    requires value == "4,1,1,0"
    ensures PathParser(value) == Ok([4, 1, 1, 0])
  {
    assert Decimal(0) == "0" && Decimal(1) == "1" && Decimal(4) == "4";
    assert Decimals([4, 1, 1, 0]) == ["4", "1", "1", "0"];
    assert Join(["0"], ',') == "0";
    assert Join(["1", "0"], ',') == "1,0";
    assert Join(["1", "1", "0"], ',') == "1,1,0";
    assert Join(["4", "1", "1", "0"], ',') == value;
    PathParserRoundTrip([4, 1, 1, 0], false);
  }

  /** Any empty piece fails the whole parse. */
  lemma PathParserEmptyPiece(value: string, i: nat)
    requires var pieces := Split(TrimEndMatches(TrimStartMatches(value, '['), ']'), ',');
      i < |pieces| && Trim(pieces[i]) == ""
    ensures PathParser(value).Err?
  {
    var pieces := Split(TrimEndMatches(TrimStartMatches(value, '['), ']'), ',');
    ParseAllFails(pieces);
    assert ParseStep(Trim(pieces[i])).Err?;
  }

  /** An empty argument leaves one empty piece, so it fails. */
  lemma PathParserEmptyArgument(value: string)
    requires value == ""
    ensures PathParser(value).Err?
  {
    assert Split("", ',') == [""];
    PathParserEmptyPiece(value, 0);
  }

  /** A bare `[]` loses both brackets and then fails like the empty
      argument. */
  lemma PathParserBareBrackets(value: string)
    requires value == "[]"
    ensures PathParser(value).Err?
  {
    assert value[1..] == "]" && "]"[..0] == "";
    assert TrimStartMatches(value, '[') == "]";
    assert TrimEndMatches("]", ']') == "";
    assert Split("", ',') == [""];
    PathParserEmptyPiece(value, 0);
  }

  /** A doubled comma leaves an empty piece between the two commas. */
  lemma PathParserDoubledComma(value: string)
    requires value == "1,,2"
    ensures PathParser(value).Err?
  {
    var pieces := ["1", "", "2"];
    assert Join(["2"], ',') == "2";
    assert Join(["", "2"], ',') == ",2";
    assert Join(pieces, ',') == value;
    assert TrimStartMatches(value, '[') == value;
    assert TrimEndMatches(value, ']') == value;
    SplitJoin(pieces, ',');
    PathParserEmptyPiece(value, 1);
  }
}
