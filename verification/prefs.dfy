/** The column widths a user can change (src/preferences.rs): two `u16`
    widths, each kept at or above its floor of 15. */
module Prefs {
  import opened Types

  const MIN_LEFT_TABLE_COLUMN_WIDTH: nat := 15
  const MIN_RGHT_TABLE_COLUMN_WIDTH: nat := 15

  /** The two preferred widths as values. */
  datatype Widths = Widths(left: nat, rght: nat)

  /** Both widths are `u16` values no smaller than their floor. */
  predicate Floored(w: Widths) {
    && MIN_LEFT_TABLE_COLUMN_WIDTH <= w.left <= U16_MAX
    && MIN_RGHT_TABLE_COLUMN_WIDTH <= w.rght <= U16_MAX
  }

  /** `u16::checked_sub(b).unwrap_or(floor).clamp(floor, u16::MAX)` for a
      `u16` minuend. */
  function ShrinkTo(a: nat, b: nat, floor: nat): (r: nat)
    requires a <= U16_MAX && floor <= U16_MAX
    ensures floor <= r <= U16_MAX
    ensures a >= b + floor ==> r == a - b
    ensures a < b + floor ==> r == floor
  {
    if a >= b then Clamp(a - b, floor) else Clamp(floor, floor)
  }

  function Clamp(v: nat, floor: nat): nat {
    if v < floor then floor else v
  }

  /** `apply_term_width` (src/preferences.rs:26-52) on values: the new
      widths, and the widths it reports as written (`None` for a width it
      left alone). The two additions are `u16` additions; the first one
      must not overflow, and then neither can the second. */
  function ApplyTermWidthSpec(w: Widths, term: nat): (r: (Widths, Option<nat>, Option<nat>))
    requires Floored(w) && term <= U16_MAX && w.left + w.rght <= U16_MAX
    ensures Floored(r.0)
    ensures w.left + w.rght <= term ==> r == (w, None, None)
    ensures r.1.Some? <==> w.left + w.rght > term
    ensures r.1.Some? ==> r.0.left == r.1.value
    ensures r.1.None? ==> r.0.left == w.left
    ensures r.2.Some? ==> r.1.Some? && r.0.rght == r.2.value
    ensures r.2.None? ==> r.0.rght == w.rght
  {
    if w.left + w.rght > term then
      var left := ShrinkTo(term, w.rght, MIN_LEFT_TABLE_COLUMN_WIDTH);
      if left + w.rght > term then
        var rght := ShrinkTo(term, left, MIN_RGHT_TABLE_COLUMN_WIDTH);
        (Widths(left, rght), Some(left), Some(rght))
      else (Widths(left, w.rght), Some(left), None)
    else (w, None, None)
  }

  /** A terminal wide enough for both floors is filled exactly by widths
      that overflowed it. */
  lemma ApplyTermWidthFits(w: Widths, term: nat)
    requires Floored(w) && term <= U16_MAX && w.left + w.rght <= U16_MAX
    requires MIN_LEFT_TABLE_COLUMN_WIDTH + MIN_RGHT_TABLE_COLUMN_WIDTH <= term < w.left + w.rght
    ensures var r := ApplyTermWidthSpec(w, term).0; r.left + r.rght == term
  {
  }

  /** The left width is only lowered, and the right one only when the
      lowered left width still leaves the pair too wide. */
  lemma ApplyTermWidthShrinks(w: Widths, term: nat)
    requires Floored(w) && term <= U16_MAX && w.left + w.rght <= U16_MAX
    ensures var r := ApplyTermWidthSpec(w, term);
      && r.0.left <= w.left && r.0.rght <= w.rght
      && (r.2.Some? ==> r.0.left == MIN_LEFT_TABLE_COLUMN_WIDTH)
  {
  }

  /** Applying the same terminal width again changes nothing when the
      terminal holds both floors. */
  lemma ApplyTermWidthIdempotent(w: Widths, term: nat)
    requires Floored(w) && term <= U16_MAX && w.left + w.rght <= U16_MAX
    requires MIN_LEFT_TABLE_COLUMN_WIDTH + MIN_RGHT_TABLE_COLUMN_WIDTH <= term
    ensures var r := ApplyTermWidthSpec(w, term).0;
      ApplyTermWidthSpec(r, term) == (r, None, None)
  {
    if w.left + w.rght > term {
      ApplyTermWidthFits(w, term);
    }
  }

  /** `Preferences`: the widths the left and right tables ask for. */
  class Preferences {
    var left: nat
    var rght: nat

    /** No operation leaves either width below its floor or outside `u16`. */
    predicate Valid()
      reads this
    {
      Floored(Widths(left, rght))
    }

    function Current(): Widths
      reads this
    {
      Widths(left, rght)
    }

    /** `Preferences::default` (src/preferences.rs:16-23): both floors. */
    constructor()
      ensures Valid()
      ensures left == MIN_LEFT_TABLE_COLUMN_WIDTH && rght == MIN_RGHT_TABLE_COLUMN_WIDTH
    {
      left := MIN_LEFT_TABLE_COLUMN_WIDTH;
      rght := MIN_RGHT_TABLE_COLUMN_WIDTH;
    }

    /** `left_table_column_width_update`: a width below the floor is refused
        and nothing changes. */
    method LeftWidthUpdate(value: nat) returns (r: Result<(), Failure>)
      requires Valid() && value <= U16_MAX
      modifies this
      ensures Valid()
      ensures value < MIN_LEFT_TABLE_COLUMN_WIDTH ==> r.Err? && left == old(left)
      ensures value >= MIN_LEFT_TABLE_COLUMN_WIDTH ==> r.Ok? && left == value
      ensures rght == old(rght)
    {
      if value < MIN_LEFT_TABLE_COLUMN_WIDTH {
        return Err(Fail);
      }
      left := value;
      r := Ok(());
    }

    /** `rght_table_column_width_update`. */
    method RghtWidthUpdate(value: nat) returns (r: Result<(), Failure>)
      requires Valid() && value <= U16_MAX
      modifies this
      ensures Valid()
      ensures value < MIN_RGHT_TABLE_COLUMN_WIDTH ==> r.Err? && rght == old(rght)
      ensures value >= MIN_RGHT_TABLE_COLUMN_WIDTH ==> r.Ok? && rght == value
      ensures left == old(left)
    {
      if value < MIN_RGHT_TABLE_COLUMN_WIDTH {
        return Err(Fail);
      }
      rght := value;
      r := Ok(());
    }

    /** `left_table_column_width_inc`: one wider, unless that overflows
        `u16`; the new width is returned. */
    method LeftInc() returns (r: Option<nat>)
      requires Valid()
      modifies this
      ensures Valid() && rght == old(rght)
      ensures old(left) < U16_MAX ==> r == Some(old(left) + 1) && left == old(left) + 1
      ensures old(left) == U16_MAX ==> r.None? && left == old(left)
    {
      if left < U16_MAX {
        left := left + 1;
        r := Some(left);
      } else {
        r := None;
      }
    }

    /** `rght_table_column_width_inc`. */
    method RghtInc() returns (r: Option<nat>)
      requires Valid()
      modifies this
      ensures Valid() && left == old(left)
      ensures old(rght) < U16_MAX ==> r == Some(old(rght) + 1) && rght == old(rght) + 1
      ensures old(rght) == U16_MAX ==> r.None? && rght == old(rght)
    {
      if rght < U16_MAX {
        rght := rght + 1;
        r := Some(rght);
      } else {
        r := None;
      }
    }

    /** `left_table_column_width_dec`: one narrower only above the floor. */
    method LeftDec() returns (r: Option<nat>)
      requires Valid()
      modifies this
      ensures Valid() && rght == old(rght)
      ensures old(left) > MIN_LEFT_TABLE_COLUMN_WIDTH ==> r == Some(old(left) - 1) && left == old(left) - 1
      ensures old(left) == MIN_LEFT_TABLE_COLUMN_WIDTH ==> r.None? && left == old(left)
    {
      if left > MIN_LEFT_TABLE_COLUMN_WIDTH {
        left := left - 1;
        r := Some(left);
      } else {
        r := None;
      }
    }

    /** `rght_table_column_width_dec`. */
    method RghtDec() returns (r: Option<nat>)
      requires Valid()
      modifies this
      ensures Valid() && left == old(left)
      ensures old(rght) > MIN_RGHT_TABLE_COLUMN_WIDTH ==> r == Some(old(rght) - 1) && rght == old(rght) - 1
      ensures old(rght) == MIN_RGHT_TABLE_COLUMN_WIDTH ==> r.None? && rght == old(rght)
    {
      if rght > MIN_RGHT_TABLE_COLUMN_WIDTH {
        rght := rght - 1;
        r := Some(rght);
      } else {
        r := None;
      }
    }

    /** `apply_term_width` (src/preferences.rs:26-52): shrinks the widths
        that do not fit the terminal, through the two update methods, and
        reports the widths written. */
    method ApplyTermWidth(term: nat) returns (r: Result<(Option<nat>, Option<nat>), Failure>)
      requires Valid() && term <= U16_MAX && left + rght <= U16_MAX
      modifies this
      ensures Valid() && r.Ok?
      ensures var spec := ApplyTermWidthSpec(old(Current()), term);
        Current() == spec.0 && r.value == (spec.1, spec.2)
    {
      var newLeft: Option<nat> := None;
      var newRght: Option<nat> := None;
      if left + rght > term {
        var tempLeft := ShrinkTo(term, rght, MIN_LEFT_TABLE_COLUMN_WIDTH);
        var u := LeftWidthUpdate(tempLeft);
        newLeft := Some(tempLeft);
        if tempLeft + rght > term {
          var tempRght := ShrinkTo(term, tempLeft, MIN_RGHT_TABLE_COLUMN_WIDTH);
          u := RghtWidthUpdate(tempRght);
          newRght := Some(tempRght);
        }
      }
      r := Ok((newLeft, newRght));
    }
  }
}
