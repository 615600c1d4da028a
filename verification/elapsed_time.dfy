/** The run-time column of the progress-statistics log: a duration in milliseconds
    written as days, hours, minutes and seconds, largest unit first, each present only
    when the time still left over at its step reaches the unit. Days are written in plain
    decimal, the other fields as two zero-padded digits; anything under a second is
    written `00s`. */
module ElapsedTime {
  import opened Wrappers
  import opened Decimal

  /** Milliseconds per day, hour, minute and second. */
  const Units: seq<nat> := [86400000, 3600000, 60000, 1000]

  /** The unit letter of each field. */
  const UnitLetters: string := "dhms"

  /** The zero-padded width of each field: `%01d` for days, `%02d` for the rest. */
  function Width(i: nat): nat {
    if i == 0 then 1 else 2
  }

  /** A written field: which unit, and how many of it. */
  datatype Field = Field(index: nat, value: nat)

  /** Every field names one of the four units. */
  predicate WellIndexed(fs: seq<Field>) {
    forall k :: 0 <= k < |fs| ==> fs[k].index < 4
  }

  /** One field's text: its zero-padded value and its unit letter. */
  function FieldText(f: Field): string
    requires f.index < 4
  {
    ZeroPadded(f.value, Width(f.index)) + [UnitLetters[f.index]]
  }

  /** The fields' texts, one after the other. */
  function Render(fs: seq<Field>): string
    requires WellIndexed(fs)
    decreases |fs|
  {
    if |fs| == 0 then "" else FieldText(fs[0]) + Render(fs[1..])
  }

  /** The loop of `formatElapsedMilliseconds` from step `i`, with `rest` milliseconds
      still to write: a unit that `rest` reaches is written, and `rest` becomes the
      remainder. */
  function FieldsFrom(i: nat, rest: nat): (fs: seq<Field>)
    requires i <= 4
    ensures WellIndexed(fs)
    decreases 4 - i
  {
    if i == 4 then []
    else if rest >= Units[i] then [Field(i, rest / Units[i])] + FieldsFrom(i + 1, rest % Units[i])
    else FieldsFrom(i + 1, rest)
  }

  /** `formatElapsedMilliseconds`. Below one second, negative durations included, the
      text is `00s`, so the minus sign the source writes for a negative duration never
      appears. */
  function FormatElapsed(duration: int): (s: string)
    ensures duration < 1000 ==> s == "00s"
  {
    if duration < 1000 then "00s" else Render(FieldsFrom(0, duration))
  }

  // ---------------------------------------------------------------------------
  // What the fields mean

  /** The milliseconds left over when step `j` is reached: all of them at the first
      step, otherwise the remainder modulo the previous unit. */
  function Remaining(j: nat, d: nat): nat
    requires j <= 4
  {
    if j == 0 then d else d % Units[j - 1]
  }

  /** The total the fields stand for. */
  function Total(fs: seq<Field>): nat
    requires WellIndexed(fs)
    decreases |fs|
  {
    if |fs| == 0 then 0 else fs[0].value * Units[fs[0].index] + Total(fs[1..])
  }

  /** A unit is written iff what is left at its step reaches it. */
  predicate HasUnit(fs: seq<Field>, j: nat) {
    exists k :: 0 <= k < |fs| && fs[k].index == j
  }

  /** The fields a duration's remainders call for from step `i` on, stated directly
      from the remainders rather than by running the loop. */
  function Reference(i: nat, d: nat): (fs: seq<Field>)
    requires i <= 4
    ensures WellIndexed(fs)
    decreases 4 - i
  {
    if i == 4 then []
    else
      (if Remaining(i, d) >= Units[i] then [Field(i, Remaining(i, d) / Units[i])] else [])
      + Reference(i + 1, d)
  }

  /** One step of the loop: the remainder modulo the unit is what the next step has
      left, the whole units and that remainder make up what this step had, and a step
      that does not reach its unit passes everything on. */
  lemma StepArithmetic(i: nat, d: nat)
    requires i < 4
    ensures Remaining(i, d) % Units[i] == Remaining(i + 1, d)
    ensures Remaining(i, d) / Units[i] * Units[i] + Remaining(i + 1, d) == Remaining(i, d)
    ensures Remaining(i, d) < Units[i] ==> Remaining(i + 1, d) == Remaining(i, d)
  {
    if i == 0 {
      assert Units[i] == 86400000;
    } else if i == 1 {
      assert Units[i] == 3600000;
      HourRemainder(d);
    } else if i == 2 {
      assert Units[i] == 60000;
      MinuteRemainder(d);
    } else {
      assert Units[i] == 1000;
      SecondRemainder(d);
    }
  }

  /** A day is a whole number of hours. */
  lemma HourRemainder(d: nat)
    ensures (d % 86400000) % 3600000 == d % 3600000
  {
    var q, r := d / 86400000, d % 86400000;
    var h, t := r / 3600000, r % 3600000;
    assert r == h * 3600000 + t;
    assert d == (q * 24 + h) * 3600000 + t;
  }

  /** An hour is a whole number of minutes. */
  lemma MinuteRemainder(d: nat)
    ensures (d % 3600000) % 60000 == d % 60000
  {
    var q, r := d / 3600000, d % 3600000;
    var h, t := r / 60000, r % 60000;
    assert r == h * 60000 + t;
    assert d == (q * 60 + h) * 60000 + t;
  }

  /** A minute is a whole number of seconds. */
  lemma SecondRemainder(d: nat)
    ensures (d % 60000) % 1000 == d % 1000
  {
    var q, r := d / 60000, d % 60000;
    var h, t := r / 1000, r % 1000;
    assert r == h * 1000 + t;
    assert d == (q * 60 + h) * 1000 + t;
  }

  /** The loop writes exactly the fields the remainders call for. */
  lemma {:induction false} LoopMatchesReference(i: nat, d: nat)
    requires i <= 4
    ensures FieldsFrom(i, Remaining(i, d)) == Reference(i, d)
    decreases 4 - i
  {
    if i < 4 {
      StepArithmetic(i, d);
      LoopMatchesReference(i + 1, d);
    }
  }

  /** The fields for the units from `i` on that `present` marks, holding the given
      values. */
  function Pick(i: nat, present: seq<bool>, values: seq<nat>): (fs: seq<Field>)
    requires i <= 4 && |present| == 4 && |values| == 4
    ensures WellIndexed(fs)
    decreases 4 - i
  {
    if i == 4 then []
    else (if present[i] then [Field(i, values[i])] else []) + Pick(i + 1, present, values)
  }

  /** Which units a duration's remainders reach. */
  function Reached(d: nat): (p: seq<bool>)
    ensures |p| == 4 && forall j :: 0 <= j < 4 ==> (p[j] <==> Remaining(j, d) >= Units[j])
  {
    seq(4, j requires 0 <= j < 4 => Remaining(j, d) >= Units[j])
  }

  /** The whole units of each remainder. */
  function WholeUnits(d: nat): (v: seq<nat>)
    ensures |v| == 4 && forall j :: 0 <= j < 4 ==> v[j] == Remaining(j, d) / Units[j]
  {
    seq(4, j requires 0 <= j < 4 => Remaining(j, d) / Units[j])
  }

  /** The reference fields are the reached units with their whole units. */
  lemma {:induction false} ReferenceIsPick(i: nat, d: nat)
    requires i <= 4
    ensures Reference(i, d) == Pick(i, Reached(d), WholeUnits(d))
    decreases 4 - i
  {
    if i < 4 {
      ReferenceIsPick(i + 1, d);
    }
  }

  /** Every field is for unit `i` or a later one. */
  predicate From(fs: seq<Field>, i: nat) {
    forall k :: 0 <= k < |fs| ==> i <= fs[k].index
  }

  /** The units strictly increase along the fields, so none is written twice. */
  predicate Increasing(fs: seq<Field>) {
    forall k, l :: 0 <= k < l < |fs| ==> fs[k].index < fs[l].index
  }

  /** Each field holds the value given for its unit. */
  predicate HoldsValues(fs: seq<Field>, values: seq<nat>) {
    forall k :: 0 <= k < |fs| ==> fs[k].index < |values| && fs[k].value == values[fs[k].index]
  }

  /** A field put in front of fields for later units keeps them in order. */
  lemma ConsOrdered(f: Field, tail: seq<Field>)
    requires From(tail, f.index + 1) && Increasing(tail)
    ensures From([f] + tail, f.index) && Increasing([f] + tail)
  {
    var fs := [f] + tail;
    assert forall k :: 1 <= k < |fs| ==> fs[k] == tail[k - 1];
  }

  /** A field holding its unit's value put in front of others that do. */
  lemma ConsHolds(f: Field, tail: seq<Field>, values: seq<nat>)
    requires f.index < |values| && f.value == values[f.index] && HoldsValues(tail, values)
    ensures HoldsValues([f] + tail, values)
  {
    var fs := [f] + tail;
    assert forall k :: 1 <= k < |fs| ==> fs[k] == tail[k - 1];
  }

  /** A unit is among a field and the fields after it iff it is the field's or among
      the others. */
  lemma ConsHasUnit(f: Field, tail: seq<Field>, j: nat)
    ensures HasUnit([f] + tail, j) <==> f.index == j || HasUnit(tail, j)
  {
    var fs := [f] + tail;
    if f.index == j {
      assert fs[0].index == j;
    }
    if HasUnit(tail, j) {
      var k :| 0 <= k < |tail| && tail[k].index == j;
      assert fs[k + 1] == tail[k];
    }
    if HasUnit(fs, j) && f.index != j {
      var k :| 0 <= k < |fs| && fs[k].index == j;
      assert fs[k] == tail[k - 1];
    }
  }

  /** Fields for units from `i` on have none for an earlier unit. */
  lemma FromExcludes(fs: seq<Field>, i: nat, j: nat)
    requires From(fs, i) && j < i
    ensures !HasUnit(fs, j)
  {
  }

  /** Picked fields come in increasing unit order, each unit at most once, and hold
      their units' values. */
  lemma {:induction false} PickOrdered(i: nat, present: seq<bool>, values: seq<nat>)
    requires i <= 4 && |present| == 4 && |values| == 4
    ensures var fs := Pick(i, present, values);
      From(fs, i) && Increasing(fs) && HoldsValues(fs, values)
    decreases 4 - i
  {
    if i < 4 {
      PickOrdered(i + 1, present, values);
      var tail := Pick(i + 1, present, values);
      if present[i] {
        ConsOrdered(Field(i, values[i]), tail);
        ConsHolds(Field(i, values[i]), tail, values);
      } else {
        assert Pick(i, present, values) == tail;
      }
    }
  }

  /** A unit is among the picked fields iff it is marked. */
  lemma {:induction false} PickHasUnit(i: nat, present: seq<bool>, values: seq<nat>, j: nat)
    requires i <= j < 4 && |present| == 4 && |values| == 4
    ensures HasUnit(Pick(i, present, values), j) <==> present[j]
    decreases 4 - i
  {
    var tail := Pick(i + 1, present, values);
    if j > i {
      PickHasUnit(i + 1, present, values, j);
    }
    if present[i] {
      assert Pick(i, present, values) == [Field(i, values[i])] + tail;
      ConsHasUnit(Field(i, values[i]), tail, j);
    } else {
      assert Pick(i, present, values) == tail;
      if j == i {
        PickOrdered(i + 1, present, values);
        FromExcludes(tail, i + 1, j);
      }
    }
  }

  /** The total of a field put in front of others. */
  lemma TotalCons(f: Field, tail: seq<Field>)
    requires f.index < 4 && WellIndexed(tail)
    ensures Total([f] + tail) == f.value * Units[f.index] + Total(tail)
  {
    assert ([f] + tail)[1..] == tail;
  }

  /** The fields from step `i` on stand for the time left at that step rounded down to
      whole seconds. */
  lemma {:induction false} ReferenceTotal(i: nat, d: nat)
    requires i <= 4
    ensures Total(Reference(i, d)) == Remaining(i, d) - d % 1000
    decreases 4 - i
  {
    if i < 4 {
      ReferenceTotal(i + 1, d);
      var tail := Reference(i + 1, d);
      var r, u := Remaining(i, d), Units[i];
      if r >= u {
        var v := r / u;
        assert Total(Reference(i, d)) == v * u + Total(tail) by {
          assert Reference(i, d) == [Field(i, v)] + tail;
          TotalCons(Field(i, v), tail);
        }
        assert v * u + Remaining(i + 1, d) == r by { StepArithmetic(i, d); }
      } else {
        assert Reference(i, d) == tail;
        assert Remaining(i + 1, d) == r by { StepArithmetic(i, d); }
      }
    }
  }

  /** The written fields of a non-negative duration are the ones its remainders call
      for, picked from the units reached and the whole units left. */
  lemma FieldsArePicked(d: nat)
    ensures FieldsFrom(0, d) == Pick(0, Reached(d), WholeUnits(d))
  {
    LoopMatchesReference(0, d);
    ReferenceIsPick(0, d);
  }

  /** The units of the written fields strictly increase, in the order d, h, m, s, so no
      unit is written twice. */
  lemma FieldsOrdered(d: nat)
    ensures var fs := FieldsFrom(0, d);
      forall k, l :: 0 <= k < l < |fs| ==> fs[k].index < fs[l].index
  {
    FieldsArePicked(d);
    PickOrdered(0, Reached(d), WholeUnits(d));
  }

  /** A unit is written exactly when the time left at its step reaches one of it. */
  lemma FieldsPresent(d: nat)
    ensures forall j :: 0 <= j < 4 ==> (HasUnit(FieldsFrom(0, d), j) <==> Remaining(j, d) >= Units[j])
  {
    FieldsArePicked(d);
    forall j | 0 <= j < 4 ensures HasUnit(FieldsFrom(0, d), j) <==> Remaining(j, d) >= Units[j] {
      PickHasUnit(0, Reached(d), WholeUnits(d), j);
    }
  }

  /** Each written field holds the whole units left at its step. */
  lemma FieldsValues(d: nat)
    ensures var fs := FieldsFrom(0, d);
      forall k :: 0 <= k < |fs| ==> fs[k].value == Remaining(fs[k].index, d) / Units[fs[k].index]
  {
    FieldsArePicked(d);
    PickOrdered(0, Reached(d), WholeUnits(d));
  }

  /** The written fields add up to the duration rounded down to whole seconds. */
  lemma FieldsTotal(d: nat)
    ensures Total(FieldsFrom(0, d)) == d / 1000 * 1000
  {
    LoopMatchesReference(0, d);
    ReferenceTotal(0, d);
  }

  /** A duration of at least a second writes at least one field. */
  lemma FieldsNonEmpty(d: int)
    requires d >= 1000
    ensures |FieldsFrom(0, d)| >= 1
  {
    FieldsTotal(d);
  }

  /** Fields after the first unit hold less than 60, so they are written with exactly two
      digits; the days field is the plain decimal text of the whole days. */
  lemma FieldWidths(d: int, k: nat)
    requires d >= 1000
    requires k < |FieldsFrom(0, d)|
    ensures var f := FieldsFrom(0, d)[k];
      && (f.index == 0 ==> ZeroPadded(f.value, Width(0)) == DecimalText(d / 86400000))
      && (f.index > 0 ==> f.value < 60 && |ZeroPadded(f.value, Width(f.index))| == 2)
  {
    var f := FieldsFrom(0, d)[k];
    assert f.index < 4 && f.value == Remaining(f.index, d) / Units[f.index] by {
      FieldsValues(d);
    }
    if f.index > 0 {
      BelowSixty(f.index, d);
      TwoDigits(f.value);
    }
  }

  /** After the days, what is left at a step holds fewer than 60 of its unit. */
  lemma BelowSixty(j: nat, d: nat)
    requires 1 <= j < 4
    ensures Remaining(j, d) / Units[j] < 60
  {
    if j == 1 {
      assert Units[j] == 3600000 && Remaining(j, d) == d % 86400000;
    } else if j == 2 {
      assert Units[j] == 60000 && Remaining(j, d) == d % 3600000;
    } else {
      assert Units[j] == 1000 && Remaining(j, d) == d % 60000;
    }
  }

  // ---------------------------------------------------------------------------
  // Reading the text back

  /** The length of the run of digits the text starts with. */
  function DigitRun(s: string): (k: nat)
    ensures k <= |s| && IsDigits(s[..k]) && (k < |s| ==> !IsDigit(s[k]))
    decreases |s|
  {
    if |s| == 0 || !IsDigit(s[0]) then 0
    else
      var k := DigitRun(s[1..]);
      assert s[..k + 1] == [s[0]] + s[1..][..k];
      k + 1
  }

  /** The position of a unit letter in `dhms`. */
  function LetterIndex(c: char): (i: nat)
    requires c in UnitLetters
    ensures i < 4 && UnitLetters[i] == c
  {
    if c == 'd' then 0 else if c == 'h' then 1 else if c == 'm' then 2 else 3
  }

  /** Reading a run-time text: digit runs each followed by a unit letter. */
  function ParseFields(s: string): (r: Option<seq<Field>>)
    ensures r.Some? ==> WellIndexed(r.value)
    decreases |s|
  {
    if |s| == 0 then Some([])
    else
      var k := DigitRun(s);
      if k == 0 || k == |s| || s[k] !in UnitLetters then None
      else
        match ParseFields(s[k + 1..])
        case None => None
        case Some(rest) => Some([Field(LetterIndex(s[k]), DecimalValue(s[..k]))] + rest)
  }

  /** The milliseconds a run-time text stands for. */
  function ParseElapsed(s: string): Option<nat>
  {
    match ParseFields(s)
    case None => None
    case Some(fs) => Some(Total(fs))
  }

  /** A digit run stops at the first non-digit. */
  lemma {:induction false} DigitRunStops(digits: string, c: char, rest: string)
    requires IsDigits(digits) && !IsDigit(c)
    ensures DigitRun(digits + [c] + rest) == |digits|
    decreases |digits|
  {
    if |digits| > 0 {
      var s := digits + [c] + rest;
      assert s[1..] == digits[1..] + [c] + rest;
      DigitRunStops(digits[1..], c, rest);
    }
  }

  /** Reading a rendering gives its fields back. */
  lemma {:induction false} RenderReadsBack(fs: seq<Field>)
    requires WellIndexed(fs)
    ensures ParseFields(Render(fs)) == Some(fs)
    decreases |fs|
  {
    if |fs| > 0 {
      var f, tail := fs[0], fs[1..];
      var digits, c := ZeroPadded(f.value, Width(f.index)), UnitLetters[f.index];
      assert Render(fs) == digits + [c] + Render(tail);
      assert DecimalValue(digits) == f.value by { ZeroPaddedRoundTrip(f.value, Width(f.index)); }
      assert LetterIndex(c) == f.index;
      assert ParseFields(digits + [c] + Render(tail))
          == Some([Field(LetterIndex(c), DecimalValue(digits))] + tail) by {
        RenderReadsBack(tail);
        ParseStep(digits, c, Render(tail), tail);
      }
      assert [f] + tail == fs;
    }
  }

  /** A digit run and a unit letter in front of a readable text read as one more field. */
  lemma ParseStep(digits: string, c: char, rest: string, tail: seq<Field>)
    requires |digits| >= 1 && IsDigits(digits) && c in UnitLetters
    requires ParseFields(rest) == Some(tail)
    ensures ParseFields(digits + [c] + rest)
         == Some([Field(LetterIndex(c), DecimalValue(digits))] + tail)
  {
    var s := digits + [c] + rest;
    assert !IsDigit(c);
    DigitRunStops(digits, c, rest);
    assert s[..|digits|] == digits;
    assert s[|digits|] == c;
    assert s[|digits| + 1..] == rest;
  }

  /** The run-time text reads back as the duration rounded down to whole seconds, and
      as nothing for a negative duration. */
  lemma FormatReadsBack(d: int)
    ensures d >= 0 ==> ParseElapsed(FormatElapsed(d)) == Some(d / 1000 * 1000)
    ensures d < 0 ==> ParseElapsed(FormatElapsed(d)) == Some(0)
  {
    if d < 1000 {
      var zero := [Field(3, 0)];
      assert FormatElapsed(d) == Render(zero) by {
        assert Render(zero) == FieldText(Field(3, 0));
        assert ZeroPadded(0, 2) == "00";
      }
      assert ParseFields(Render(zero)) == Some(zero) by { RenderReadsBack(zero); }
      assert Total(zero) == 0;
    } else {
      var fs := FieldsFrom(0, d);
      assert Total(fs) == d / 1000 * 1000 by {
        LoopMatchesReference(0, d);
        ReferenceTotal(0, d);
      }
      assert ParseFields(Render(fs)) == Some(fs) by { RenderReadsBack(fs); }
    }
  }

  /** A rendering of at least one field ends in the last field's unit letter. */
  lemma {:induction false} RenderEndsInLetter(fs: seq<Field>)
    requires WellIndexed(fs) && |fs| >= 1
    ensures var s := Render(fs); |s| >= 1 && s[|s| - 1] == UnitLetters[fs[|fs| - 1].index]
    decreases |fs|
  {
    if |fs| > 1 {
      RenderEndsInLetter(fs[1..]);
    }
  }

  /** From one second up, the text is not empty and ends in a unit letter. */
  lemma EndsInUnitLetter(d: int)
    requires d >= 1000
    ensures var s := FormatElapsed(d); |s| >= 1 && s[|s| - 1] in UnitLetters
  {
    FieldsNonEmpty(d);
    RenderEndsInLetter(FieldsFrom(0, d));
  }

  /** One hour and one second is written with no minutes field: `01h01s`. */
  lemma HourAndSecond()
    ensures FormatElapsed(3601000) == "01h01s"
  {
    assert FieldsFrom(3, 1000) == [Field(3, 1)];
    assert FieldsFrom(1, 3601000) == [Field(1, 1), Field(3, 1)];
    assert ZeroPadded(1, 2) == "01";
    assert Render([Field(3, 1)]) == "01s";
  }
}
