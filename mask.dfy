/** The mask transform `applyMask(value, mask)` of the Input component.

    A mask is a pattern in which `#` is a slot for one input character and
    every other character is a literal. The scan walks the mask left to right
    with a cursor into the input, and stops as soon as the mask or the input
    runs out:
    - a `#` copies the next input character and advances the cursor;
    - a literal is copied from the mask, and when the next input character
      equals it, the cursor also moves past that character ("absorption"),
      so that character is consumed by the literal instead of also filling a
      slot (the `1` of a typed "1 555 ..." under a "+1 (###) ..." mask). */
module Mask {
  import opened Digits

  const Placeholder: char := '#'

  /** What the scan still emits when it stands at mask position `i` with
      input cursor `vi`: one character per remaining step. */
  function Scan(value: string, mask: string, i: nat, vi: nat): (r: string)
    requires i <= |mask| && vi <= |value|
    ensures |r| <= |mask| - i
    ensures r == [] <==> i == |mask| || vi == |value|
    decreases |mask| - i
  {
    if i == |mask| || vi == |value| then []
    else if mask[i] == Placeholder then [value[vi]] + Scan(value, mask, i + 1, vi + 1)
    else if value[vi] == mask[i] then [mask[i]] + Scan(value, mask, i + 1, vi + 1)
    else [mask[i]] + Scan(value, mask, i + 1, vi)
  }

  /** The masked text: the whole scan, from the start of both. */
  function ApplyMask(value: string, mask: string): (r: string)
    ensures |r| <= |mask|
    ensures r == [] <==> value == [] || mask == []
  {
    Scan(value, mask, 0, 0)
  }

  /** The input cursor when the scan stops. */
  function FinalCursor(value: string, mask: string, i: nat, vi: nat): (c: nat)
    requires i <= |mask| && vi <= |value|
    decreases |mask| - i
  {
    if i == |mask| || vi == |value| then vi
    else if mask[i] == Placeholder || value[vi] == mask[i] then FinalCursor(value, mask, i + 1, vi + 1)
    else FinalCursor(value, mask, i + 1, vi)
  }

  /** One step of the scan, as one iteration of the loop takes it. */
  lemma ScanStep(value: string, mask: string, emitted: string, i: nat, vi: nat) returns (c: char, next: nat)
    requires i < |mask| && vi < |value|
    ensures c == if mask[i] == Placeholder then value[vi] else mask[i]
    ensures next == if mask[i] == Placeholder || value[vi] == mask[i] then vi + 1 else vi
    ensures next <= |value|
    ensures emitted + Scan(value, mask, i, vi) == (emitted + [c]) + Scan(value, mask, i + 1, next)
    ensures FinalCursor(value, mask, i, vi) == FinalCursor(value, mask, i + 1, next)
  {
    c := if mask[i] == Placeholder then value[vi] else mask[i];
    next := if mask[i] == Placeholder || value[vi] == mask[i] then vi + 1 else vi;
    assert emitted + ([c] + Scan(value, mask, i + 1, next)) == (emitted + [c]) + Scan(value, mask, i + 1, next);
  }

  /** The loop of the source: one iteration per mask position, guarded by
      both cursors. */
  method ApplyMaskLoop(value: string, mask: string) returns (maskedValue: string, ghost stopIndex: nat)
    ensures maskedValue == ApplyMask(value, mask)
    ensures stopIndex == FinalCursor(value, mask, 0, 0)
  {
    maskedValue := "";
    var valueIndex := 0;
    var i := 0;
    while i < |mask| && valueIndex < |value|
      invariant i <= |mask| && valueIndex <= |value|
      invariant maskedValue + Scan(value, mask, i, valueIndex) == ApplyMask(value, mask)
      invariant FinalCursor(value, mask, i, valueIndex) == FinalCursor(value, mask, 0, 0)
    {
      ghost var c, next := ScanStep(value, mask, maskedValue, i, valueIndex);
      if mask[i] == Placeholder {
        maskedValue := maskedValue + [value[valueIndex]];
        valueIndex := valueIndex + 1;
      } else {
        maskedValue := maskedValue + [mask[i]];
        if value[valueIndex] == mask[i] {
          valueIndex := valueIndex + 1;
        }
      }
      i := i + 1;
    }
    stopIndex := valueIndex;
  }

  /** The scan never consumes more input than there is, and it stops short
      of the end of the mask only when the whole input has been consumed. */
  lemma {:induction false} StopsOnlyWhenInputRunsOut(value: string, mask: string, i: nat, vi: nat)
    requires i <= |mask| && vi <= |value|
    ensures vi <= FinalCursor(value, mask, i, vi) <= |value|
    ensures |Scan(value, mask, i, vi)| == |mask| - i || FinalCursor(value, mask, i, vi) == |value|
    decreases |mask| - i
  {
    if i < |mask| && vi < |value| {
      if mask[i] == Placeholder || value[vi] == mask[i] {
        StopsOnlyWhenInputRunsOut(value, mask, i + 1, vi + 1);
      } else {
        StopsOnlyWhenInputRunsOut(value, mask, i + 1, vi);
      }
    }
  }

  /** Every literal of the mask appears verbatim at its own position of the
      output. */
  lemma {:induction false} LiteralsVerbatimFrom(value: string, mask: string, i: nat, vi: nat, k: nat)
    requires i <= |mask| && vi <= |value|
    requires k < |Scan(value, mask, i, vi)|
    requires mask[i + k] != Placeholder
    ensures Scan(value, mask, i, vi)[k] == mask[i + k]
    decreases k
  {
    if k > 0 {
      if mask[i] == Placeholder || value[vi] == mask[i] {
        LiteralsVerbatimFrom(value, mask, i + 1, vi + 1, k - 1);
      } else {
        LiteralsVerbatimFrom(value, mask, i + 1, vi, k - 1);
      }
    }
  }

  lemma LiteralsVerbatim(value: string, mask: string)
    ensures forall k :: 0 <= k < |ApplyMask(value, mask)| && mask[k] != Placeholder ==>
      ApplyMask(value, mask)[k] == mask[k]
  {
    forall k | 0 <= k < |ApplyMask(value, mask)| && mask[k] != Placeholder
      ensures ApplyMask(value, mask)[k] == mask[k]
    {
      LiteralsVerbatimFrom(value, mask, 0, 0, k);
    }
  }

  /** The number of slots in a mask. */
  function CountPlaceholders(mask: string): (n: nat)
    ensures n <= |mask|
  {
    if mask == [] then 0
    else (if mask[0] == Placeholder then 1 else 0) + CountPlaceholders(mask[1..])
  }

  /** The characters of `r` that stand at the slots of `mask`. */
  function AtPlaceholders(r: string, mask: string): (s: string)
    requires |r| <= |mask|
    ensures |s| <= |r|
  {
    if r == [] then []
    else (if mask[0] == Placeholder then [r[0]] else []) + AtPlaceholders(r[1..], mask[1..])
  }

  /** No input character equals any literal of the mask, so nothing is
      ever absorbed. */
  predicate NoAbsorption(value: string, mask: string) {
    forall j, k :: 0 <= j < |value| && 0 <= k < |mask| && mask[k] != Placeholder ==> value[j] != mask[k]
  }

  predicate NoDigitLiterals(mask: string) {
    forall k :: 0 <= k < |mask| && mask[k] != Placeholder ==> !IsDigit(mask[k])
  }

  /** Digit-only input (what the change handler passes) is never absorbed
      by a mask whose literals are not digits. */
  lemma DigitsAreNotAbsorbed(value: string, mask: string)
    requires AllDigits(value) && NoDigitLiterals(mask)
    ensures NoAbsorption(value, mask)
  {
  }

  function Min(a: int, b: int): (m: int) {
    if a <= b then a else b
  }

  lemma {:induction false} SlotsFilledInOrderFrom(value: string, mask: string, i: nat, vi: nat)
    requires i <= |mask| && vi <= |value|
    requires NoAbsorption(value, mask)
    ensures AtPlaceholders(Scan(value, mask, i, vi), mask[i..])
      == value[vi..Min(|value|, vi + CountPlaceholders(mask[i..]))]
    decreases |mask| - i
  {
    var r := Scan(value, mask, i, vi);
    if i == |mask| || vi == |value| {
    } else {
      assert mask[i..][0] == mask[i] && mask[i..][1..] == mask[i + 1..];
      if mask[i] == Placeholder {
        SlotsFilledInOrderFrom(value, mask, i + 1, vi + 1);
        var n := Min(|value|, vi + 1 + CountPlaceholders(mask[i + 1..]));
        assert value[vi..n] == [value[vi]] + value[vi + 1..n];
      } else {
        assert value[vi] != mask[i];
        SlotsFilledInOrderFrom(value, mask, i + 1, vi);
      }
    }
  }

  /** Without absorption the slots of the output spell the input in order,
      up to the number of slots; input beyond the last slot is dropped. */
  lemma SlotsFilledInOrder(value: string, mask: string)
    requires NoAbsorption(value, mask)
    ensures AtPlaceholders(ApplyMask(value, mask), mask) == value[..Min(|value|, CountPlaceholders(mask))]
  {
    SlotsFilledInOrderFrom(value, mask, 0, 0);
    assert mask[0..] == mask;
  }

  lemma {:induction false} ExtraInputFillsMaskFrom(value: string, mask: string, i: nat, vi: nat)
    requires i <= |mask| && vi <= |value|
    requires NoAbsorption(value, mask)
    requires |value| - vi > CountPlaceholders(mask[i..])
    ensures |Scan(value, mask, i, vi)| == |mask| - i
    decreases |mask| - i
  {
    if i < |mask| {
      assert mask[i..][0] == mask[i] && mask[i..][1..] == mask[i + 1..];
      if mask[i] == Placeholder {
        ExtraInputFillsMaskFrom(value, mask, i + 1, vi + 1);
      } else {
        assert value[vi] != mask[i];
        ExtraInputFillsMaskFrom(value, mask, i + 1, vi);
      }
    }
  }

  /** Without absorption, input that outlasts the slots fills the whole
      mask, trailing literals included. */
  lemma ExtraInputFillsMask(value: string, mask: string)
    requires NoAbsorption(value, mask)
    requires |value| > CountPlaceholders(mask)
    ensures |ApplyMask(value, mask)| == |mask|
  {
    assert mask[0..] == mask;
    ExtraInputFillsMaskFrom(value, mask, 0, 0);
  }

  /** A text agrees with a mask when it is no longer than the mask and has
      the mask's literals at their positions. */
  predicate AgreesWith(text: string, mask: string) {
    |text| <= |mask| &&
    forall k :: 0 <= k < |text| && mask[k] != Placeholder ==> text[k] == mask[k]
  }

  lemma {:induction false} FormattedTextIsFixedPointFrom(text: string, mask: string, i: nat)
    requires AgreesWith(text, mask) && i <= |text|
    ensures Scan(text, mask, i, i) == text[i..]
    decreases |text| - i
  {
    if i < |text| {
      FormattedTextIsFixedPointFrom(text, mask, i + 1);
      assert text[i..] == [text[i]] + text[i + 1..];
    }
  }

  /** A text that already agrees with the mask comes back unchanged: each
      of its literals meets itself as the next input character and is
      absorbed instead of being emitted twice. The change handler filters the
      keystroke to digits before masking, so in the component this is what
      keeps a displayed value stable under masking (`ApplyMaskIdempotent`). */
  lemma FormattedTextIsFixedPoint(text: string, mask: string)
    requires AgreesWith(text, mask)
    ensures ApplyMask(text, mask) == text
  {
    FormattedTextIsFixedPointFrom(text, mask, 0);
  }

  lemma {:induction false} SlotsTakeInputOnceFrom(value: string, mask: string, i: nat, vi: nat)
    requires i <= |mask| && vi <= |value|
    ensures IsSubsequence(AtPlaceholders(Scan(value, mask, i, vi), mask[i..]), value[vi..])
    decreases |mask| - i
  {
    if i < |mask| && vi < |value| {
      var r := Scan(value, mask, i, vi);
      assert mask[i..][0] == mask[i] && mask[i..][1..] == mask[i + 1..];
      assert value[vi..][0] == value[vi] && value[vi..][1..] == value[vi + 1..];
      if mask[i] == Placeholder {
        SlotsTakeInputOnceFrom(value, mask, i + 1, vi + 1);
        assert r[0] == value[vi] && r[1..] == Scan(value, mask, i + 1, vi + 1);
      } else if value[vi] == mask[i] {
        SlotsTakeInputOnceFrom(value, mask, i + 1, vi + 1);
        assert r[1..] == Scan(value, mask, i + 1, vi + 1);
        assert AtPlaceholders(r, mask[i..]) == AtPlaceholders(r[1..], mask[i + 1..]);
      } else {
        SlotsTakeInputOnceFrom(value, mask, i + 1, vi);
        assert r[1..] == Scan(value, mask, i + 1, vi);
        assert AtPlaceholders(r, mask[i..]) == AtPlaceholders(r[1..], mask[i + 1..]);
      }
    }
  }

  /** Whatever the literals absorb, the slots of the output hold input
      characters in input order, and no input position fills two slots. */
  lemma SlotsTakeInputOnce(value: string, mask: string)
    ensures IsSubsequence(AtPlaceholders(ApplyMask(value, mask), mask), value)
  {
    SlotsTakeInputOnceFrom(value, mask, 0, 0);
    assert mask[0..] == mask && value[0..] == value;
  }

  /** The scan from `(i, vi)` depends only on what lies from there on:
      dropping a prefix of the input and of the mask before the cursors
      changes nothing. */
  lemma {:induction false} ScanShift(value: string, mask: string, i: nat, vi: nat, a: nat, b: nat)
    requires b <= i <= |mask| && a <= vi <= |value|
    ensures Scan(value, mask, i, vi) == Scan(value[a..], mask[b..], i - b, vi - a)
    decreases |mask| - i
  {
    var v', m' := value[a..], mask[b..];
    assert |v'| == |value| - a && |m'| == |mask| - b;
    if i < |mask| && vi < |value| {
      assert v'[vi - a] == value[vi] && m'[i - b] == mask[i];
      var next := if mask[i] == Placeholder || value[vi] == mask[i] then vi + 1 else vi;
      var c := if mask[i] == Placeholder then value[vi] else mask[i];
      assert Scan(value, mask, i, vi) == [c] + Scan(value, mask, i + 1, next);
      assert Scan(v', m', i - b, vi - a) == [c] + Scan(v', m', i - b + 1, next - a);
      ScanShift(value, mask, i + 1, next, a, b);
    }
  }

  /** The absorption rule: a literal that meets an equal input character
      emits itself once and consumes that character, so the rest of the
      mask starts on the rest of the input. */
  lemma LiteralAbsorbsEqualInput(c: char, rest: string, mask: string)
    requires c != Placeholder
    ensures ApplyMask([c] + rest, [c] + mask) == [c] + ApplyMask(rest, mask)
  {
    ScanShift([c] + rest, [c] + mask, 1, 1, 1, 1);
    assert ([c] + rest)[1..] == rest && ([c] + mask)[1..] == mask;
  }

  /** A literal that meets a different input character emits itself and
      consumes nothing, so the rest of the mask starts on the same input. */
  lemma LiteralKeepsOtherInput(c: char, value: string, mask: string)
    requires c != Placeholder && value != [] && value[0] != c
    ensures ApplyMask(value, [c] + mask) == [c] + ApplyMask(value, mask)
  {
    ScanShift(value, [c] + mask, 1, 0, 0, 1);
    assert value[0..] == value && ([c] + mask)[1..] == mask;
  }

  /** Masking a masked text changes nothing. */
  lemma ApplyMaskIdempotent(value: string, mask: string)
    ensures ApplyMask(ApplyMask(value, mask), mask) == ApplyMask(value, mask)
  {
    LiteralsVerbatim(value, mask);
    FormattedTextIsFixedPoint(ApplyMask(value, mask), mask);
  }

  /** A trailing literal is emitted only while input remains. */
  lemma ExampleTrailingLiteral()
    ensures ApplyMask("123", "###-") == "123"
    ensures ApplyMask("1234", "###-") == "123-"
  {
  }

  /** The scan of the phone example from the space after `)` on. */
  lemma ExamplePhoneTail()
    ensures Scan("5551234567", "(###) ###-####", 5, 3) == " 123-4567"
  {
    assert Scan("5551234567", "(###) ###-####", 9, 6) == "-4567";
  }

  lemma ExamplePhone()
    ensures ApplyMask("5551234567", "(###) ###-####") == "(555) 123-4567"
  {
    ExamplePhoneTail();
  }

  /** The scan of the dashed example from the first `-` on. */
  lemma ExampleDashedPhoneTail()
    ensures Scan("1234567890", "###-###-####", 3, 3) == "-456-7890"
  {
    assert Scan("1234567890", "###-###-####", 7, 6) == "-7890";
  }

  lemma ExampleDashedPhone()
    ensures ApplyMask("1234567890", "###-###-####") == "123-456-7890"
  {
    ExampleDashedPhoneTail();
  }

  /** No literal is emitted ahead of input. */
  lemma ExampleEmptyInput()
    ensures ApplyMask("", "##/##/####") == ""
  {
  }

  /** The country-code digit of a typed "1 555" is absorbed by the literal
      `1` of the mask rather than shifted into the first slot. */
  lemma ExampleAbsorbedDigit()
    ensures ApplyMask("1555", "+1 (###)") == "+1 (555"
  {
  }
}
