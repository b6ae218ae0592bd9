/** The structural extractor of src/lexer.rs: one level of item spans of
    an object or array window (`get_object_items`, `get_array_items`), and
    the display name and child location of each item (`items_to_vec`).
    Each routine runs the `Lexer` class and is proved equal to a function
    over `LexState` built from `ExpectSpec` and `NextTokenSpec`. */
module Extract {
  import opened Types
  import opened Quoting
  import opened Lexing

  const KEY_KINDS: seq<TokenKind> := [String, Sequence, LastChar]
  const VALUE_KINDS: seq<TokenKind> := [String, Sequence, Object, Array]
  const ITEM_KINDS: seq<TokenKind> := [String, Sequence, Object, Array, LastChar]
  const SEPARATOR_KINDS: seq<TokenKind> := [Comma, LastChar]

  /** `"{...}"` and `"[...]"` as bytes. */
  const OBJECT_NAME: seq<byte> := [LBRACE, 46, 46, 46, RBRACE]
  const ARRAY_NAME: seq<byte> := [LBRACKET, 46, 46, 46, RBRACKET]

  /** Spans that lie in `[lo, hi)`, each non-empty and each ending before
      the next one starts: items listed in source order. */
  predicate Spans(items: seq<Location>, lo: nat, hi: nat) {
    |items| == 0 ||
    (lo <= items[0].start <= items[0].finish < hi && Spans(items[1..], items[0].finish + 1, hi))
  }

  /** The object loop from lexer state `st`: key, colon, value, then a comma
      or the end; one span from each key's start to its value's finish. */
  function ObjectItemsFrom(src: seq<byte>, loc: Location, st: LexState): (r: Result<seq<Location>, LexError>)
    requires Window(src, loc) && Consistent(src, st)
      decreases Measure(src, st)
  {
    var key :- ExpectSpec(src, loc, st, KEY_KINDS);
    if key.0.kind == LastChar then Ok([])
    else
      var colon :- ExpectSpec(src, loc, key.1, [Colon]);
      var value :- ExpectSpec(src, loc, colon.1, VALUE_KINDS);
      var item := Location(key.0.location.start, value.0.location.finish);
      var sep :- ExpectSpec(src, loc, value.1, SEPARATOR_KINDS);
      if sep.0.kind == LastChar then Ok([item])
      else
        var rest :- ObjectItemsFrom(src, loc, sep.1);
        Ok([item] + rest)
  }

  /** The array loop from lexer state `st`: a value, then a comma or the end. */
  function ArrayItemsFrom(src: seq<byte>, loc: Location, st: LexState): (r: Result<seq<Location>, LexError>)
    requires Window(src, loc) && Consistent(src, st)
      decreases Measure(src, st)
  {
    var value :- ExpectSpec(src, loc, st, ITEM_KINDS);
    if value.0.kind == LastChar then Ok([])
    else
      var item := value.0.location;
      var sep :- ExpectSpec(src, loc, value.1, SEPARATOR_KINDS);
      if sep.0.kind == LastChar then Ok([item])
      else
        var rest :- ArrayItemsFrom(src, loc, sep.1);
        Ok([item] + rest)
  }

  /** A later lower bound keeps fewer spans out. */
  lemma {:induction false} SpansFrom(items: seq<Location>, lo: nat, lo': nat, hi: nat)
    requires lo' <= lo && Spans(items, lo, hi)
    ensures Spans(items, lo', hi)
  {
  }

  /** `get_object_items` lists its spans in source order, each from a key's
      first byte to its value's last byte, inside the buffer. */
  lemma {:induction false} ObjectItemsInOrder(src: seq<byte>, loc: Location, st: LexState)
    requires Window(src, loc) && Consistent(src, st)
    ensures var r := ObjectItemsFrom(src, loc, st);
      r.Ok? ==> Spans(r.value, st.pos, |src|)
    decreases Measure(src, st)
  {
    var key := ExpectSpec(src, loc, st, KEY_KINDS);
    if key.Ok? && key.value.0.kind != LastChar {
      var colon := ExpectSpec(src, loc, key.value.1, [Colon]);
      if colon.Ok? {
        var value := ExpectSpec(src, loc, colon.value.1, VALUE_KINDS);
        if value.Ok? {
          var sep := ExpectSpec(src, loc, value.value.1, SEPARATOR_KINDS);
          if sep.Ok? && sep.value.0.kind != LastChar {
            var rest := ObjectItemsFrom(src, loc, sep.value.1);
            ObjectItemsInOrder(src, loc, sep.value.1);
            if rest.Ok? {
              SpansFrom(rest.value, sep.value.1.pos, value.value.0.location.finish + 1, |src|);
            }
          }
        }
      }
    }
  }

  /** `get_array_items` lists its value spans in source order. */
  lemma {:induction false} ArrayItemsInOrder(src: seq<byte>, loc: Location, st: LexState)
    requires Window(src, loc) && Consistent(src, st)
    ensures var r := ArrayItemsFrom(src, loc, st);
      r.Ok? ==> Spans(r.value, st.pos, |src|)
    decreases Measure(src, st)
  {
    var value := ExpectSpec(src, loc, st, ITEM_KINDS);
    if value.Ok? && value.value.0.kind != LastChar {
      var sep := ExpectSpec(src, loc, value.value.1, SEPARATOR_KINDS);
      if sep.Ok? && sep.value.0.kind != LastChar {
        var rest := ArrayItemsFrom(src, loc, sep.value.1);
        ArrayItemsInOrder(src, loc, sep.value.1);
        if rest.Ok? {
          SpansFrom(rest.value, sep.value.1.pos, value.value.0.location.finish + 1, |src|);
        }
      }
    }
  }

  /** `items` in front of a successful result; a failure stays as it is. */
  function Prepend(items: seq<Location>, r: Result<seq<Location>, LexError>): Result<seq<Location>, LexError> {
    if r.Ok? then Ok(items + r.value) else r
  }

  /** The name between the quotes of a string token, or the bytes of a
      bare sequence, guarded as `items_to_vec` guards its slice. */
  function NameBytes(src: seq<byte>, nameStart: nat, nameFinish: nat): (name: seq<byte>)
    ensures nameStart <= nameFinish < |src| ==> name == Slice(src, Location(nameStart, nameFinish))
    ensures !(nameStart <= nameFinish < |src|) ==> name == []
  {
    if nameStart <= nameFinish && nameFinish < |src| then src[nameStart..nameFinish + 1] else []
  }

  /** An item of one token: a block names itself `{...}` or `[...]` and is
      the child location; a string gives the bytes between its quotes and a
      bare sequence its own bytes, with no child location. */
  function SingleEntry(src: seq<byte>, t: Token): (r: Result<(seq<byte>, Option<Location>), LexError>)
    requires t.location.start <= t.location.finish < |src|
    ensures r.Ok? <==> t.kind in {Object, Array, Sequence} || (t.kind == String && t.location.finish > 0)
    ensures r.Ok? ==> (r.value.1.Some? <==> t.kind in {Object, Array})
    ensures r.Ok? && r.value.1.Some? ==> r.value.1.value == t.location
  {
    match t.kind
    case Object => Ok((OBJECT_NAME, Some(t.location)))
    case Array => Ok((ARRAY_NAME, Some(t.location)))
    case String =>
      if t.location.finish == 0 then Err(Malformed)
      else Ok((NameBytes(src, t.location.start + 1, t.location.finish - 1), None))
    case Sequence => Ok((Slice(src, t.location), None))
    case _ => Err(Malformed)
  }

  /** An item of several tokens: the first names it (a string without its
      quotes, or a bare sequence) and `value` is the child location. */
  function PairEntry(src: seq<byte>, key: Token, value: Token): (r: Result<(seq<byte>, Option<Location>), LexError>)
    ensures r.Ok? <==> key.kind == Sequence || (key.kind == String && key.location.finish > 0)
    ensures r.Ok? ==> r.value.1 == Some(value.location)
  {
    if key.kind == String then
      if key.location.finish == 0 then Err(Malformed)
      else Ok((NameBytes(src, key.location.start + 1, key.location.finish - 1), Some(value.location)))
    else if key.kind == Sequence then
      Ok((NameBytes(src, key.location.start, key.location.finish), Some(value.location)))
    else Err(Malformed)
  }

  /** One iteration of `items_to_vec`: lex the item's own window; a single
      token names itself, otherwise the first token gives the name and the
      third the child location (the second is read and not checked). */
  function ItemEntry(src: seq<byte>, item: Location): (r: Result<(seq<byte>, Option<Location>), LexError>)
    requires Window(src, item)
  {
    var a :- NextTokenSpec(src, item, Init(src, item));
    var b :- NextTokenSpec(src, item, a.1);
    if b.0.kind == LastChar then
      SingleEntry(src, a.0)
    else
      var c :- ExpectSpec(src, item, b.1, VALUE_KINDS);
      PairEntry(src, a.0, c.0)
  }

  /** `items_to_vec` on values: every item's entry in order, or the first failure. */
  function ItemEntries(src: seq<byte>, items: seq<Location>): (r: Result<seq<(seq<byte>, Option<Location>)>, LexError>)
    requires forall i | 0 <= i < |items| :: Window(src, items[i])
    ensures r.Ok? ==> |r.value| == |items|
  {
    if |items| == 0 then Ok([])
    else
      var e :- ItemEntry(src, items[0]);
      var rest :- ItemEntries(src, items[1..]);
      Ok([e] + rest)
  }

  // ---------------------------------------------------------------------
  // The routines

  /** Items found by earlier iterations go in front of what the rest finds. */
  lemma PrependTwice(a: seq<Location>, b: seq<Location>, r: Result<seq<Location>, LexError>)
    ensures Prepend(a, Prepend(b, r)) == Prepend(a + b, r)
  {
    if r.Ok? {
      assert a + (b + r.value) == (a + b) + r.value;
    }
  }

  /** What one round of an item loop read: the closing `LastChar`, the
      window's last item, or an item followed by a comma. */
  datatype ItemRead = End | Last(item: Location) | More(item: Location)

  /** One round of the `get_object_items` loop: key, colon, value, then a
      comma or the end. */
  method ReadObjectItem(lexer: Lexer) returns (r: Result<ItemRead, LexError>)
    requires lexer.Valid()
    modifies lexer
    ensures lexer.Valid()
    ensures var whole := ObjectItemsFrom(lexer.source, lexer.location, old(lexer.State()));
      && (r.Err? ==> whole == Err(r.error))
      && (r == Ok(End) ==> whole == Ok([]))
      && (r.Ok? && r.value.Last? ==> whole == Ok([r.value.item]))
      && (r.Ok? && r.value.More? ==>
            && whole == Prepend([r.value.item], ObjectItemsFrom(lexer.source, lexer.location, lexer.State()))
            && Measure(lexer.source, lexer.State()) < Measure(lexer.source, old(lexer.State())))
  {
    var key := lexer.ExpectKinds(KEY_KINDS);
    if key.Err? {
      return Err(key.error);
    }
    if key.value.kind == LastChar {
      return Ok(End);
    }
    var colon := lexer.ExpectKinds([Colon]);
    if colon.Err? {
      return Err(colon.error);
    }
    var value := lexer.ExpectKinds(VALUE_KINDS);
    if value.Err? {
      return Err(value.error);
    }
    var item := Location(key.value.location.start, value.value.location.finish);
    var sep := lexer.ExpectKinds(SEPARATOR_KINDS);
    if sep.Err? {
      return Err(sep.error);
    }
    if sep.value.kind == LastChar {
      return Ok(Last(item));
    }
    return Ok(More(item));
  }

  /** One round of the `get_array_items` loop: a value, then a comma or the
      end. */
  method ReadArrayItem(lexer: Lexer) returns (r: Result<ItemRead, LexError>)
    requires lexer.Valid()
    modifies lexer
    ensures lexer.Valid()
    ensures var whole := ArrayItemsFrom(lexer.source, lexer.location, old(lexer.State()));
      && (r.Err? ==> whole == Err(r.error))
      && (r == Ok(End) ==> whole == Ok([]))
      && (r.Ok? && r.value.Last? ==> whole == Ok([r.value.item]))
      && (r.Ok? && r.value.More? ==>
            && whole == Prepend([r.value.item], ArrayItemsFrom(lexer.source, lexer.location, lexer.State()))
            && Measure(lexer.source, lexer.State()) < Measure(lexer.source, old(lexer.State())))
  {
    var value := lexer.ExpectKinds(ITEM_KINDS);
    if value.Err? {
      return Err(value.error);
    }
    if value.value.kind == LastChar {
      return Ok(End);
    }
    var item := value.value.location;
    var sep := lexer.ExpectKinds(SEPARATOR_KINDS);
    if sep.Err? {
      return Err(sep.error);
    }
    if sep.value.kind == LastChar {
      return Ok(Last(item));
    }
    return Ok(More(item));
  }

  /** `get_object_items`. */
  method GetObjectItems(source: seq<byte>, location: Location) returns (r: Result<seq<Location>, LexError>)
    requires Window(source, location)
    ensures r == ObjectItemsFrom(source, location, Init(source, location))
  {
    var items: seq<Location> := [];
    var lexer := new Lexer(source, location);
    ghost var whole := ObjectItemsFrom(source, location, lexer.State());
    assert whole.Ok? ==> [] + whole.value == whole.value;
    while true
      invariant lexer.Valid() && lexer.source == source && lexer.location == location
      invariant Prepend(items, ObjectItemsFrom(source, location, lexer.State())) == whole
      decreases Measure(source, lexer.State())
    {
      var read := ReadObjectItem(lexer);
      match read {
        case Err(e) =>
          return Err(e);
        case Ok(End) =>
          assert items + [] == items;
          return Ok(items);
        case Ok(Last(item)) =>
          return Ok(items + [item]);
        case Ok(More(item)) =>
          PrependTwice(items, [item], ObjectItemsFrom(source, location, lexer.State()));
          items := items + [item];
      }
    }
  }

  /** `get_array_items`. */
  method GetArrayItems(source: seq<byte>, location: Location) returns (r: Result<seq<Location>, LexError>)
    requires Window(source, location)
    ensures r == ArrayItemsFrom(source, location, Init(source, location))
  {
    var items: seq<Location> := [];
    var lexer := new Lexer(source, location);
    ghost var whole := ArrayItemsFrom(source, location, lexer.State());
    assert whole.Ok? ==> [] + whole.value == whole.value;
    while true
      invariant lexer.Valid() && lexer.source == source && lexer.location == location
      invariant Prepend(items, ArrayItemsFrom(source, location, lexer.State())) == whole
      decreases Measure(source, lexer.State())
    {
      var read := ReadArrayItem(lexer);
      match read {
        case Err(e) =>
          return Err(e);
        case Ok(End) =>
          assert items + [] == items;
          return Ok(items);
        case Ok(Last(item)) =>
          return Ok(items + [item]);
        case Ok(More(item)) =>
          PrependTwice(items, [item], ArrayItemsFrom(source, location, lexer.State()));
          items := items + [item];
      }
    }
  }

  /** The body of the `items_to_vec` loop for one item. */
  method LexItem(source: seq<byte>, item: Location) returns (r: Result<(seq<byte>, Option<Location>), LexError>)
    requires Window(source, item)
    ensures r == ItemEntry(source, item)
  {
    var lexer := new Lexer(source, item);
    var a := lexer.NextToken();
    if a.Err? {
      return Err(a.error);
    }
    var tokenA := a.value;
    var b := lexer.NextToken();
    if b.Err? {
      return Err(b.error);
    }
    if b.value.kind == LastChar {
      r := SingleEntry(source, tokenA);
    } else {
      var tokenB := lexer.ExpectKinds(VALUE_KINDS);
      if tokenB.Err? {
        return Err(tokenB.error);
      }
      r := PairEntry(source, tokenA, tokenB.value);
    }
  }

  /** `entries` in front of a successful result; a failure stays as it is. */
  function PrependEntries(entries: seq<(seq<byte>, Option<Location>)>, r: Result<seq<(seq<byte>, Option<Location>)>, LexError>)
    : Result<seq<(seq<byte>, Option<Location>)>, LexError>
  {
    if r.Ok? then Ok(entries + r.value) else r
  }

  lemma PrependEntriesTwice(a: seq<(seq<byte>, Option<Location>)>, b: seq<(seq<byte>, Option<Location>)>,
                            r: Result<seq<(seq<byte>, Option<Location>)>, LexError>)
    ensures PrependEntries(a, PrependEntries(b, r)) == PrependEntries(a + b, r)
  {
    if r.Ok? {
      assert a + (b + r.value) == (a + b) + r.value;
    }
  }

  /** One round of `items_to_vec` on the entries pushed so far: a failing
      item ends the whole with its failure, any other is pushed. */
  lemma ItemEntriesStep(src: seq<byte>, items: seq<Location>,
                        entries: seq<(seq<byte>, Option<Location>)>, e: Result<(seq<byte>, Option<Location>), LexError>)
    requires 0 < |items| && forall i | 0 <= i < |items| :: Window(src, items[i])
    requires e == ItemEntry(src, items[0])
    ensures e.Err? ==> PrependEntries(entries, ItemEntries(src, items)) == Err(e.error)
    ensures e.Ok? ==>
      PrependEntries(entries, ItemEntries(src, items)) == PrependEntries(entries + [e.value], ItemEntries(src, items[1..]))
  {
    if e.Ok? {
      PrependEntriesTwice(entries, [e.value], ItemEntries(src, items[1..]));
    }
  }

  /** `items_to_vec`: the entries of all items, pushed in order. */
  method ItemsToVec(source: seq<byte>, items: seq<Location>) returns (r: Result<seq<(seq<byte>, Option<Location>)>, LexError>)
    requires forall i | 0 <= i < |items| :: Window(source, items[i])
    ensures r == ItemEntries(source, items)
  {
    var entries: seq<(seq<byte>, Option<Location>)> := [];
    var rest := items;
    ghost var whole := ItemEntries(source, items);
    assert whole.Ok? ==> [] + whole.value == whole.value;
    while |rest| > 0
      invariant forall i | 0 <= i < |rest| :: Window(source, rest[i])
      invariant PrependEntries(entries, ItemEntries(source, rest)) == whole
    {
      var e := LexItem(source, rest[0]);
      ItemEntriesStep(source, rest, entries, e);
      if e.Err? {
        return Err(e.error);
      }
      entries := entries + [e.value];
      rest := rest[1..];
    }
    assert entries + [] == entries;
    return Ok(entries);
  }
}
