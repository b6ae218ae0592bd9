/** Byte-level helpers of the span tokenizer (src/lexer.rs): which quotes
    are live (not escaped by an odd run of backslashes), how many needle
    bytes lie outside strings, and the 1-based row:column of an offset. */
module Quoting {
  import opened Types

  newtype byte = b: int | 0 <= b < 256

  const QUOTE: byte := 34       // '"'
  const BACKSLASH: byte := 92   // '\\'
  const COLON: byte := 58       // ':'
  const COMMA: byte := 44       // ','
  const SPACE: byte := 32       // ' '
  const TAB: byte := 9          // '\t'
  const LF: byte := 10          // '\n'
  const CR: byte := 13          // '\r'
  const LBRACE: byte := 123     // '{'
  const RBRACE: byte := 125     // '}'
  const LBRACKET: byte := 91    // '['
  const RBRACKET: byte := 93    // ']'

  /** A structural delimiter that can be neither a quote nor an escape. */
  predicate PlainDelimiter(b: byte) {
    b != QUOTE && b != BACKSLASH
  }

  /** `memchr`: the first position of `b` in `s`, searched left to right. */
  function Memchr(b: byte, s: seq<byte>): (r: Option<nat>)
    ensures r.Some? ==> r.value < |s| && s[r.value] == b && b !in s[..r.value]
    ensures r.None? ==> b !in s
  {
    if |s| == 0 then None
    else if s[0] == b then Some(0)
    else
      match Memchr(b, s[1..])
      case None => None
      case Some(i) =>
        assert s[..i + 1] == [s[0]] + s[1..][..i];
        Some(i + 1)
  }

  /** The length of the run of backslashes that ends just before index `i`. */
  function BackslashRun(s: seq<byte>, i: nat): (n: nat)
    requires i <= |s|
    ensures n <= i
  {
    if i == 0 || s[i - 1] != BACKSLASH then 0 else 1 + BackslashRun(s, i - 1)
  }

  /** A quote whose preceding backslash run (inside `s`) has even length. */
  predicate LiveQuoteAt(s: seq<byte>, i: nat)
    requires i < |s|
  {
    s[i] == QUOTE && BackslashRun(s, i) % 2 == 0
  }

  /** The number of live quotes in `s`. */
  function LiveQuotes(s: seq<byte>): nat {
    if |s| == 0 then 0
    else LiveQuotes(s[..|s| - 1]) + (if LiveQuoteAt(s, |s| - 1) then 1 else 0)
  }

  /** The number of `needle` bytes of `s` that stand at an even running quote
      count, when `q` quotes were already seen before `s`. */
  function EvenNeedles(needle: byte, s: seq<byte>, q: nat): nat {
    if |s| == 0 then 0 else EvenNeedles(needle, s[..|s| - 1], q) + LastNeedle(needle, s, q)
  }

  /** 1 when the last byte of `s` is a needle standing at an even running
      quote count, 0 otherwise. */
  function LastNeedle(needle: byte, s: seq<byte>, q: nat): nat
    requires |s| > 0
  {
    if s[|s| - 1] == needle && (q + LiveQuotes(s[..|s| - 1])) % 2 == 0 then 1 else 0
  }

  // ---------------------------------------------------------------------
  // Lemmas about the quote-parity specification

  lemma {:induction false} BackslashRunPrefix(s: seq<byte>, k: nat, i: nat)
    requires i <= k <= |s|
    ensures BackslashRun(s[..k], i) == BackslashRun(s, i)
  {
    if i > 0 && s[i - 1] == BACKSLASH {
      BackslashRunPrefix(s, k, i - 1);
    }
  }

  /** Extending a prefix by one byte adds that byte's liveness. */
  lemma LiveQuotesStep(s: seq<byte>, k: nat)
    requires k < |s|
    ensures LiveQuotes(s[..k + 1]) == LiveQuotes(s[..k]) + (if LiveQuoteAt(s, k) then 1 else 0)
  {
    assert s[..k + 1][..k] == s[..k];
    BackslashRunPrefix(s, k + 1, k);
  }

  /** Extending a prefix by one byte adds that byte's needle count. */
  lemma EvenNeedlesStep(needle: byte, s: seq<byte>, q: nat, k: nat)
    requires k < |s|
    ensures EvenNeedles(needle, s[..k + 1], q)
         == EvenNeedles(needle, s[..k], q) + (if s[k] == needle && (q + LiveQuotes(s[..k])) % 2 == 0 then 1 else 0)
  {
    assert s[..k + 1][..k] == s[..k];
  }

  /** A backslash run cannot reach back across a byte that is not a backslash. */
  lemma {:induction false} BackslashRunShift(a: seq<byte>, b: seq<byte>, j: nat)
    requires |a| == 0 || a[|a| - 1] != BACKSLASH
    requires j <= |b|
    ensures BackslashRun(a + b, |a| + j) == BackslashRun(b, j)
  {
    if j > 0 {
      assert (a + b)[|a| + j - 1] == b[j - 1];
      if b[j - 1] == BACKSLASH {
        BackslashRunShift(a, b, j - 1);
      }
    }
  }

  /** Live quotes of two segments add up when the first does not end in an escape. */
  lemma {:induction false} LiveQuotesConcat(a: seq<byte>, b: seq<byte>)
    requires |a| == 0 || a[|a| - 1] != BACKSLASH
    ensures LiveQuotes(a + b) == LiveQuotes(a) + LiveQuotes(b)
  {
    if |b| == 0 {
      assert a + b == a;
    } else {
      var b' := b[..|b| - 1];
      assert (a + b)[..|a + b| - 1] == a + b';
      LiveQuotesConcat(a, b');
      BackslashRunShift(a, b, |b| - 1);
      assert (a + b)[|a + b| - 1] == b[|b| - 1];
    }
  }

  /** Needle counts of two segments add up, the second starting from the quotes of the first. */
  lemma {:induction false} EvenNeedlesConcat(needle: byte, a: seq<byte>, b: seq<byte>, q: nat)
    requires |a| == 0 || a[|a| - 1] != BACKSLASH
    ensures EvenNeedles(needle, a + b, q) == EvenNeedles(needle, a, q) + EvenNeedles(needle, b, q + LiveQuotes(a))
  {
    if |b| == 0 {
      assert a + b == a;
    } else {
      var b' := b[..|b| - 1];
      assert (a + b)[..|a + b| - 1] == a + b';
      LastNeedleConcat(needle, a, b, q);
      EvenNeedlesConcat(needle, a, b', q);
    }
  }

  /** The last byte of `a + b` is the last byte of `b`, seen after the
      live quotes of `a` and of the rest of `b`. */
  lemma LastNeedleConcat(needle: byte, a: seq<byte>, b: seq<byte>, q: nat)
    requires |a| == 0 || a[|a| - 1] != BACKSLASH
    requires |b| > 0
    ensures LastNeedle(needle, a + b, q) == LastNeedle(needle, b, q + LiveQuotes(a))
  {
    var b' := b[..|b| - 1];
    assert (a + b)[..|a + b| - 1] == a + b';
    assert (a + b)[|a + b| - 1] == b[|b| - 1];
    LiveQuotesConcat(a, b');
  }

  /** A segment without the needle contributes nothing. */
  lemma {:induction false} EvenNeedlesAbsent(needle: byte, s: seq<byte>, q: nat)
    requires needle !in s
    ensures EvenNeedles(needle, s, q) == 0
  {
    if |s| > 0 {
      assert s[..|s| - 1] <= s;
      EvenNeedlesAbsent(needle, s[..|s| - 1], q);
    }
  }

  /** A segment without quotes holds no live quote. */
  lemma {:induction false} LiveQuotesAbsent(s: seq<byte>)
    requires QUOTE !in s
    ensures LiveQuotes(s) == 0
  {
    if |s| > 0 {
      assert s[..|s| - 1] <= s;
      LiveQuotesAbsent(s[..|s| - 1]);
    }
  }

  /** Index form of `LiveQuotes`: the live quotes among the first `k` bytes of `s`. */
  function QuotesBefore(s: seq<byte>, k: nat): nat
    requires k <= |s|
  {
    if k == 0 then 0 else QuotesBefore(s, k - 1) + (if LiveQuoteAt(s, k - 1) then 1 else 0)
  }

  /** Index form of `EvenNeedles` from zero quotes: the needles among the
      first `k` bytes of `s` that stand outside strings. */
  function NeedlesBefore(needle: byte, s: seq<byte>, k: nat): nat
    requires k <= |s|
  {
    if k == 0 then 0
    else NeedlesBefore(needle, s, k - 1) + (if s[k - 1] == needle && QuotesBefore(s, k - 1) % 2 == 0 then 1 else 0)
  }

  lemma {:induction false} QuotesBeforeIsLiveQuotes(s: seq<byte>, k: nat)
    requires k <= |s|
    ensures QuotesBefore(s, k) == LiveQuotes(s[..k])
  {
    if k > 0 {
      QuotesBeforeIsLiveQuotes(s, k - 1);
      LiveQuotesStep(s, k - 1);
    }
  }

  lemma {:induction false} NeedlesBeforeIsEvenNeedles(needle: byte, s: seq<byte>, k: nat)
    requires k <= |s|
    ensures NeedlesBefore(needle, s, k) == EvenNeedles(needle, s[..k], 0)
  {
    if k > 0 {
      NeedlesBeforeIsEvenNeedles(needle, s, k - 1);
      QuotesBeforeIsLiveQuotes(s, k - 1);
      EvenNeedlesStep(needle, s, 0, k - 1);
    }
  }

  /** The counts over the first `k` bytes do not look past them. */
  lemma {:induction false} QuotesBeforePrefix(s: seq<byte>, m: nat, k: nat)
    requires k <= m <= |s|
    ensures QuotesBefore(s[..m], k) == QuotesBefore(s, k)
  {
    if k > 0 {
      QuotesBeforePrefix(s, m, k - 1);
      BackslashRunPrefix(s, m, k - 1);
    }
  }

  lemma {:induction false} NeedlesBeforePrefix(needle: byte, s: seq<byte>, m: nat, k: nat)
    requires k <= m <= |s|
    ensures NeedlesBefore(needle, s[..m], k) == NeedlesBefore(needle, s, k)
  {
    if k > 0 {
      NeedlesBeforePrefix(needle, s, m, k - 1);
      QuotesBeforePrefix(s, m, k - 1);
    }
  }

  /** The live quotes of `s[..k+p]` split at `k` into those of `s[..k]` and
      those of the segment `s[k..k+p]`, provided `s[k-1]` is no escape. */
  lemma SegmentQuotes(s: seq<byte>, k: nat, p: nat)
    requires k + p <= |s|
    requires k == 0 || s[k - 1] != BACKSLASH
    ensures QuotesBefore(s, k + p) == QuotesBefore(s, k) + LiveQuotes(s[k..k + p])
  {
    assert s[..k + p] == s[..k] + s[k..k + p];
    QuotesBeforeIsLiveQuotes(s, k);
    QuotesBeforeIsLiveQuotes(s, k + p);
    LiveQuotesConcat(s[..k], s[k..k + p]);
  }

  /** The same for the needles outside strings, the segment starting from
      the quotes before it. */
  lemma SegmentCounts(needle: byte, s: seq<byte>, k: nat, p: nat)
    requires k + p <= |s|
    requires k == 0 || s[k - 1] != BACKSLASH
    ensures QuotesBefore(s, k + p) == QuotesBefore(s, k) + LiveQuotes(s[k..k + p])
    ensures NeedlesBefore(needle, s, k + p)
         == NeedlesBefore(needle, s, k) + EvenNeedles(needle, s[k..k + p], QuotesBefore(s, k))
  {
    SegmentQuotes(s, k, p);
    assert s[..k + p] == s[..k] + s[k..k + p];
    QuotesBeforeIsLiveQuotes(s, k);
    NeedlesBeforeIsEvenNeedles(needle, s, k);
    NeedlesBeforeIsEvenNeedles(needle, s, k + p);
    EvenNeedlesConcat(needle, s[..k], s[k..k + p], 0);
  }

  // ---------------------------------------------------------------------
  // The counting routines of src/lexer.rs

  /** Walks back from `i` over consecutive backslashes (lexer.rs:14-24, 310-326). */
  method CountBackslashesBefore(s: seq<byte>, i: nat) returns (n: nat)
    requires i <= |s|
    ensures n == BackslashRun(s, i)
  {
    n := 0;
    var j: nat := i;
    while j > 0
      invariant j <= i
      invariant n + BackslashRun(s, j) == BackslashRun(s, i)
    {
      j := j - 1;
      if s[j] == BACKSLASH {
        n := n + 1;
      } else {
        assert BackslashRun(s, j + 1) == 0;
        break;
      }
    }
  }

  /** `count_quotes`: the number of quotes whose preceding backslash run
      inside the haystack has even length. */
  method CountQuotes(haystack: seq<byte>) returns (count: nat)
    ensures count == LiveQuotes(haystack)
  {
    count := 0;
    var k := 0;
    while k < |haystack|
      invariant k <= |haystack|
      invariant count == LiveQuotes(haystack[..k])
    {
      LiveQuotesStep(haystack, k);
      if haystack[k] == QUOTE {
        var backslashes := CountBackslashesBefore(haystack, k);
        if backslashes % 2 == 0 {
          count := count + 1;
        }
      }
      k := k + 1;
    }
    assert haystack[..k] == haystack;
  }

  /** A haystack split at its first needle: the needle counts when it
      stands outside strings, and the rest starts from the quotes before it. */
  lemma NeedleSplit(needle: byte, haystack: seq<byte>, quotes: nat, position: nat)
    requires PlainDelimiter(needle) && position < |haystack|
    requires haystack[position] == needle && needle !in haystack[..position]
    ensures var before := haystack[..position];
      var rest := haystack[position + 1..];
      var q := quotes + LiveQuotes(before);
      && EvenNeedles(needle, haystack, quotes) == (if q % 2 == 0 then 1 else 0) + EvenNeedles(needle, rest, q)
      && LiveQuotes(haystack) == LiveQuotes(before) + LiveQuotes(rest)
  {
    var before := haystack[..position];
    var rest := haystack[position + 1..];
    // the needle closes `before`, so nothing before it can escape what follows
    var head := before + [needle];
    assert haystack == head + rest;
    EvenNeedlesAbsent(needle, before, quotes);
    EvenNeedlesStep(needle, head, quotes, |before|);
    assert head[..|before|] == before;
    LiveQuotesStep(head, |before|);
    assert head[..|before| + 1] == head;
    EvenNeedlesConcat(needle, head, rest, quotes);
    LiveQuotesConcat(head, rest);
  }

  /** `count_needles`: the needle bytes met at an even running quote count;
      the running count `quotes` is threaded through and returned updated. */
  method CountNeedles(needle: byte, haystack: seq<byte>, quotes: nat) returns (count: nat, quotesOut: nat)
    requires PlainDelimiter(needle)
    ensures count == EvenNeedles(needle, haystack, quotes)
    ensures quotesOut == quotes + LiveQuotes(haystack)
    decreases |haystack|
  {
    match Memchr(needle, haystack)
    case Some(position) =>
      var before := haystack[..position];
      var seen := CountQuotes(before);
      var q := quotes + seen;
      var here := if q % 2 == 0 then 1 else 0;
      var rest := haystack[position + 1..];
      NeedleSplit(needle, haystack, quotes, position);
      if position + 1 >= |haystack| {
        assert rest == [];
        count := here;
        quotesOut := q;
      } else {
        var more, q2 := CountNeedles(needle, rest, q);
        count := here + more;
        quotesOut := q2;
      }
    case None =>
      var seen := CountQuotes(haystack);
      EvenNeedlesAbsent(needle, haystack, quotes);
      count := 0;
      quotesOut := quotes + seen;
  }

  // ---------------------------------------------------------------------
  // Row and column of an offset

  /** The number of line feeds in `s`. */
  function Newlines(s: seq<byte>): nat {
    if |s| == 0 then 0 else Newlines(s[..|s| - 1]) + (if s[|s| - 1] == LF then 1 else 0)
  }

  /** The offset just after the last line feed of `s` (0 when there is none). */
  function LineStart(s: seq<byte>): (r: nat)
    ensures r <= |s|
    ensures r > 0 ==> s[r - 1] == LF
  {
    if |s| == 0 then 0
    else if s[|s| - 1] == LF then |s|
    else LineStart(s[..|s| - 1])
  }

  /** No line feed follows the line start: the column counts the bytes of
      the last line only. */
  lemma {:induction false} LineStartIsLastLine(s: seq<byte>)
    ensures forall j | LineStart(s) <= j < |s| :: s[j] != LF
  {
    if |s| > 0 && s[|s| - 1] != LF {
      LineStartIsLastLine(s[..|s| - 1]);
    }
  }

  /** `row_col_position`: the row is one more than the line feeds of `s`, the
      column is the number of bytes after the last line feed; applied to
      `source[..=offset]` it gives the 1-based position of `offset`. */
  method RowColPosition(s: seq<byte>) returns (row: nat, col: nat)
    ensures row == 1 + Newlines(s)
    ensures col == |s| - LineStart(s)
  {
    row := 1;
    var lastNewlineEnd := 0;
    var i := 0;
    while i < |s|
      invariant i <= |s|
      invariant row == 1 + Newlines(s[..i])
      invariant lastNewlineEnd == LineStart(s[..i])
    {
      assert s[..i + 1][..i] == s[..i];
      if s[i] == LF {
        row := row + 1;
        lastNewlineEnd := i + 1;
      }
      i := i + 1;
    }
    assert s[..i] == s;
    col := |s| - lastNewlineEnd;
  }
}
