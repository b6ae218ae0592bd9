/** Re-lexing an item span: the extractor hands each item to a fresh lexer
    whose window is exactly that span. These lemmas show that a value token
    found in a wider window is found again, unchanged, in its own span, so
    the child location `items_to_vec` reports for a block is the block. */
module Relexing {
  import opened Types
  import opened Quoting
  import opened Lexing
  import opened Extract

  /** A closer that ends the block in a window ends it in any shorter
      window that still contains it. */
  lemma {:induction false} FirstClosePrefix(o: byte, c: byte, w: seq<byte>, m: nat, k: nat, f: nat)
    requires k <= f < m <= |w| && FirstClose(o, c, w, k) == Some(f)
    ensures FirstClose(o, c, w[..m], k) == Some(f)
    decreases f - k
  {
    var w2 := w[..m];
    QuotesBeforePrefix(w, m, k);
    NeedlesBeforePrefix(o, w, m, k + 1);
    NeedlesBeforePrefix(c, w, m, k + 1);
    assert w2[k] == w[k];
    assert ClosesBlock(o, c, w2, k) == ClosesBlock(o, c, w, k);
    if k < f {
      FirstClosePrefix(o, c, w, m, k + 1, f);
    }
  }

  /** The first live quote before `bound` is also the first before any
      smaller bound past it. */
  lemma {:induction false} FirstLiveQuoteShrink(src: seq<byte>, k: nat, bound: nat, bound2: nat, f: nat)
    requires k <= f < bound2 <= bound <= |src| && FirstLiveQuote(src, k, bound) == Some(f)
    ensures FirstLiveQuote(src, k, bound2) == Some(f)
    decreases f - k
  {
    if k < f {
      FirstLiveQuoteShrink(src, k + 1, bound, bound2, f);
    }
  }

  /** A bare sequence scanned with its own last byte as the bound ends there. */
  lemma {:induction false} SequenceEndSelf(src: seq<byte>, fin: nat, e: nat, f: nat)
    requires fin < |src| && e <= f < |src| && SequenceEnd(src, fin, e) == f
    ensures SequenceEnd(src, f, e) == f
    decreases f - e
  {
    if e < f {
      SequenceEndSelf(src, fin, e + 1, f);
    }
  }

  /** A block found from `p` in the window `loc` is found again in the
      window that is its own span. */
  lemma BlockRelex(src: seq<byte>, loc: Location, p: nat, o: byte, c: byte, l: Location)
    requires Window(src, loc) && p < |src|
    requires FindBlockSpec(src, loc, p, o, c) == Ok(l)
    ensures Window(src, l) && FindBlockSpec(src, l, p, o, c) == Ok(l)
  {
    var f := l.finish;
    var w := src[p + 1..loc.finish + 1];
    FirstClosePrefix(o, c, w, f - p, 0, f - p - 1);
    assert src[p + 1..f + 1] == w[..f - p];
  }

  /** The same for a string. */
  lemma StringRelex(src: seq<byte>, loc: Location, p: nat, l: Location)
    requires Window(src, loc) && p < |src|
    requires StringSpec(src, loc, p) == Ok(l)
    ensures Window(src, l) && StringSpec(src, l, p) == Ok(l)
  {
    FirstLiveQuoteShrink(src, p + 1, loc.finish + 1, l.finish + 1, l.finish);
  }

  /** A token read at `p` in the window `loc` is read again at `p` in the
      window that is its own span. */
  lemma LexemeRelex(src: seq<byte>, loc: Location, p: nat, b: byte, t: Token)
    requires Window(src, loc) && p < |src| && src[p] == b && !IsJsonSpace(b)
    requires Lexeme(src, loc, p, b) == Ok(t)
    ensures Window(src, t.location) && Lexeme(src, t.location, p, b) == Ok(t)
  {
    if b == LBRACE {
      BlockRelex(src, loc, p, LBRACE, RBRACE, t.location);
    } else if b == LBRACKET {
      BlockRelex(src, loc, p, LBRACKET, RBRACKET, t.location);
    } else if b == QUOTE {
      StringRelex(src, loc, p, t.location);
    } else if b != COLON && b != COMMA {
      SequenceEndSelf(src, loc.finish, p, t.location.finish);
    }
  }

  /** A value token read by `next_token` is the first byte that is not
      whitespace followed by its lexeme, and the lexer steps just past it. */
  lemma NextTokenLexeme(src: seq<byte>, loc: Location, st: LexState)
    requires Window(src, loc) && Consistent(src, st)
    requires NextTokenSpec(src, loc, st).Ok? && NextTokenSpec(src, loc, st).value.0.kind != LastChar
    ensures var t := NextTokenSpec(src, loc, st).value.0;
      && t.location.start < |src| && !IsJsonSpace(src[t.location.start])
      && Lexeme(src, loc, t.location.start, src[t.location.start]) == Ok(t)
  {
  }

  /** Lexing a value token's own span yields that token and then the end:
      `items_to_vec` takes its single-token branch on it. */
  lemma TokenRelex(src: seq<byte>, loc: Location, st: LexState)
    requires Window(src, loc) && Consistent(src, st)
    requires NextTokenSpec(src, loc, st).Ok?
    requires NextTokenSpec(src, loc, st).value.0.kind in VALUE_KINDS
    ensures var t := NextTokenSpec(src, loc, st).value.0;
      Window(src, t.location) && ItemEntry(src, t.location) == SingleEntry(src, t)
  {
    var t := NextTokenSpec(src, loc, st).value.0;
    var p := t.location.start;
    NextTokenLexeme(src, loc, st);
    LexemeRelex(src, loc, p, src[p], t);
    var item := t.location;
    var s0 := Init(src, item);
    assert SkipSpacesSpec(src, item, s0) == s0;
    var a := NextTokenSpec(src, item, s0);
    assert a == Ok((t, LexState(item.finish + 1, None)));
    assert NextTokenSpec(src, item, a.value.1).value.0.kind == LastChar;
  }

  /** An item whose entry can be made, with a child location (if any)
      equal to the item itself. */
  predicate RelexesToSelf(src: seq<byte>, item: Location)
    requires Window(src, item)
  {
    ItemEntry(src, item).Ok? &&
    (ItemEntry(src, item).value.1.Some? ==> ItemEntry(src, item).value.1.value == item)
  }

  /** Items that all lie in the buffer and all re-lex to themselves. */
  predicate AllRelex(src: seq<byte>, items: seq<Location>) {
    && (forall i | 0 <= i < |items| :: Window(src, items[i]))
    && forall i | 0 <= i < |items| :: RelexesToSelf(src, items[i])
  }

  /** Items that all re-lex to themselves go through `items_to_vec`
      without failure, and every child location it reports is the item's
      own span. */
  lemma {:induction false} AllRelexEntries(src: seq<byte>, items: seq<Location>)
    requires AllRelex(src, items)
    ensures var r := ItemEntries(src, items);
      && r.Ok?
      && forall i | 0 <= i < |items| :: r.value[i].1.Some? ==> r.value[i].1.value == items[i]
  {
    if |items| > 0 {
      var rest := items[1..];
      assert AllRelex(src, rest) by {
        forall i | 0 <= i < |rest|
          ensures Window(src, rest[i]) && RelexesToSelf(src, rest[i])
        {
          assert rest[i] == items[i + 1];
        }
      }
      AllRelexEntries(src, rest);
      assert RelexesToSelf(src, items[0]);
      var e := ItemEntry(src, items[0]).value;
      var tail := ItemEntries(src, rest).value;
      assert ItemEntries(src, items) == Ok([e] + tail);
      forall i | 0 <= i < |items|
        ensures ([e] + tail)[i].1.Some? ==> ([e] + tail)[i].1.value == items[i]
      {
        if i > 0 {
          assert ([e] + tail)[i] == tail[i - 1] && items[i] == rest[i - 1];
        }
      }
    }
  }

  lemma AllRelexCons(src: seq<byte>, item: Location, rest: seq<Location>)
    requires Window(src, item) && RelexesToSelf(src, item) && AllRelex(src, rest)
    ensures AllRelex(src, [item] + rest)
  {
    var items := [item] + rest;
    forall i | 0 <= i < |items|
      ensures Window(src, items[i]) && RelexesToSelf(src, items[i])
    {
      if i > 0 {
        assert items[i] == rest[i - 1];
      }
    }
  }

  /** A value token read by `next_token` re-lexes to itself. */
  lemma ValueTokenRelexes(src: seq<byte>, loc: Location, st: LexState)
    requires Window(src, loc) && Consistent(src, st)
    requires NextTokenSpec(src, loc, st).Ok?
    requires NextTokenSpec(src, loc, st).value.0.kind in VALUE_KINDS
    ensures var t := NextTokenSpec(src, loc, st).value.0;
      Window(src, t.location) && RelexesToSelf(src, t.location)
  {
    NextTokenLexeme(src, loc, st);
    TokenRelex(src, loc, st);
  }

  /** Every item `get_array_items` lists can be handed to `items_to_vec`
      without failure, and a block item's child location is the item's own
      span: descending into it re-lexes exactly that block. */
  lemma {:induction false} ArrayItemsRelex(src: seq<byte>, loc: Location, st: LexState)
    requires Window(src, loc) && Consistent(src, st)
    ensures var r := ArrayItemsFrom(src, loc, st);
      r.Ok? ==> AllRelex(src, r.value)
    decreases Measure(src, st)
  {
    var value := ExpectSpec(src, loc, st, ITEM_KINDS);
    if value.Ok? && value.value.0.kind != LastChar {
      var t := value.value.0;
      ValueTokenRelexes(src, loc, st);
      var sep := ExpectSpec(src, loc, value.value.1, SEPARATOR_KINDS);
      if sep.Ok? {
        if sep.value.0.kind == LastChar {
          AllRelexCons(src, t.location, []);
          assert [t.location] + [] == [t.location];
        } else {
          ArrayItemsRelex(src, loc, sep.value.1);
          var rest := ArrayItemsFrom(src, loc, sep.value.1);
          if rest.Ok? {
            AllRelexCons(src, t.location, rest.value);
          }
        }
      }
    }
  }

  /** Every item `get_array_items` lists in the window `loc` goes through
      `items_to_vec` without failure, and each block item's child location
      is the block's own span. */
  lemma ArrayItemsToVec(src: seq<byte>, loc: Location)
    requires Window(src, loc)
    ensures var items := ArrayItemsFrom(src, loc, Init(src, loc));
      items.Ok? ==>
        && (forall i | 0 <= i < |items.value| :: Window(src, items.value[i]))
        && var r := ItemEntries(src, items.value);
           && r.Ok?
           && forall i | 0 <= i < |items.value| :: r.value[i].1.Some? ==> r.value[i].1.value == items.value[i]
  {
    var items := ArrayItemsFrom(src, loc, Init(src, loc));
    ArrayItemsRelex(src, loc, Init(src, loc));
    if items.Ok? {
      AllRelexEntries(src, items.value);
    }
  }
}
