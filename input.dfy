/** The Input component: its display state `inputValue`, kept in sync with
    the `value` prop, overwritten by every change event, and reported to the
    optional `onChange` callback; plus the text of its error slot. */
module InputComponent {
  import opened Wrappers
  import opened Digits
  import opened Mask

  /** The props the component's logic reads. `onChange` matters only by
      whether it is given. */
  datatype Props = Props(name: string, value: Option<string>, mask: Option<string>, hasOnChange: bool)

  /** What the `onChange` callback observes. With a mask it is a synthetic
      event whose target carries the field name and the masked value; without
      one it is the original event, whose target value is the raw text. */
  datatype ChangeEvent =
    | Masked(name: string, value: string)
    | Original(rawValue: string)

  /** `propValue || ''`: an absent or empty prop shows as empty text. */
  function PropOrEmpty(p: Option<string>): (s: string)
    ensures p.None? ==> s == ""
    ensures p.Some? ==> s == p.value
  {
    match p
    case None => ""
    case Some(v) => if v == "" then "" else v
  }

  /** JavaScript truthiness of the `mask` prop: an empty mask is falsy. */
  predicate MaskActive(mask: Option<string>) {
    mask.Some? && mask.value != ""
  }

  /** The result of one change event: the new display text and what the
      callback observes (`None` when there is no callback). */
  datatype Outcome = Outcome(display: string, notified: Option<ChangeEvent>)

  function ChangeOutcome(props: Props, raw: string): (o: Outcome)
    ensures props.hasOnChange <==> o.notified.Some?
  {
    var digits := KeepDigits(raw);
    if MaskActive(props.mask) then
      var masked := ApplyMask(digits, props.mask.value);
      Outcome(masked, if props.hasOnChange then Some(Masked(props.name, masked)) else None)
    else
      Outcome(digits, if props.hasOnChange then Some(Original(raw)) else None)
  }

  /** With a mask, the display is the masked digits of the keystroke: never
      longer than the mask, carrying the mask's literals, already in masked
      form, and holding at its slots keystroke digits in order, none used
      twice. */
  lemma MaskedDisplay(props: Props, raw: string)
    requires MaskActive(props.mask)
    ensures var d := ChangeOutcome(props, raw).display;
      d == ApplyMask(KeepDigits(raw), props.mask.value) &&
      AgreesWith(d, props.mask.value) &&
      ApplyMask(d, props.mask.value) == d &&
      IsSubsequence(AtPlaceholders(d, props.mask.value), KeepDigits(raw))
  {
    LiteralsVerbatim(KeepDigits(raw), props.mask.value);
    SlotsTakeInputOnce(KeepDigits(raw), props.mask.value);
    ApplyMaskIdempotent(KeepDigits(raw), props.mask.value);
  }

  /** With a mask whose literals are not digits, the slots of the display
      spell the digits of the keystroke, as many as there are slots. */
  lemma MaskedDisplaySlots(props: Props, raw: string)
    requires MaskActive(props.mask) && NoDigitLiterals(props.mask.value)
    ensures var digits, m := KeepDigits(raw), props.mask.value;
      AtPlaceholders(ChangeOutcome(props, raw).display, m) == digits[..Min(|digits|, CountPlaceholders(m))]
  {
    DigitsAreNotAbsorbed(KeepDigits(raw), props.mask.value);
    SlotsFilledInOrder(KeepDigits(raw), props.mask.value);
  }

  /** With a mask, the callback observes exactly the displayed value,
      under the field's name. */
  lemma MaskedCallbackSeesDisplay(props: Props, raw: string)
    requires MaskActive(props.mask) && props.hasOnChange
    ensures ChangeOutcome(props, raw).notified
      == Some(Masked(props.name, ChangeOutcome(props, raw).display))
  {
  }

  /** Without a mask (absent or empty), the display is the digit-filtered
      keystroke, while the callback observes the raw keystroke. */
  lemma UnmaskedOutcome(props: Props, raw: string)
    requires !MaskActive(props.mask)
    ensures var o := ChangeOutcome(props, raw);
      o.display == KeepDigits(raw) && AllDigits(o.display) &&
      IsSubsequence(o.display, raw) &&
      o.notified == if props.hasOnChange then Some(Original(raw)) else None
  {
    KeepDigitsIsSubsequence(raw);
  }

  /** An empty mask behaves exactly as no mask. */
  lemma EmptyMaskIsNoMask(props: Props, raw: string)
    requires props.mask == Some("")
    ensures ChangeOutcome(props, raw) == ChangeOutcome(props.(mask := None), raw)
  {
  }

  /** Without a mask the callback and the display disagree as soon as the
      keystroke holds a non-digit: typing "a1b2c3" displays "123" but the
      callback sees "a1b2c3". */
  lemma ExampleUnmaskedCallbackSeesRaw(props: Props)
    requires props.mask == None && props.hasOnChange
    ensures ChangeOutcome(props, "a1b2c3").display == "123"
    ensures ChangeOutcome(props, "a1b2c3").notified == Some(Original("a1b2c3"))
  {
  }

  /** The component's state: the latest props and the displayed text. */
  class Input {
    var props: Props
    var inputValue: string

    /** Mount: `useState(propValue || '')`; the mount run of the effect
        stores the same text again. */
    constructor (initial: Props)
      ensures props == initial
      ensures inputValue == PropOrEmpty(initial.value)
    {
      props := initial;
      inputValue := PropOrEmpty(initial.value);
    }

    /** The body of the effect: overwrite the display from the prop. The new
        state does not depend on the old one, so syncing twice with the same
        prop is the same as syncing once. */
    method SyncFromProp(p: Option<string>)
      modifies this`inputValue
      ensures inputValue == PropOrEmpty(p)
    {
      inputValue := PropOrEmpty(p);
    }

    /** A re-render with new props. The effect depends on `value` only, so
        it runs (and resets the display) exactly when `value` changed; other
        prop changes keep what the user typed. */
    method Rerender(next: Props)
      modifies this
      ensures props == next
      ensures next.value != old(props.value) ==> inputValue == PropOrEmpty(next.value)
      ensures next.value == old(props.value) ==> inputValue == old(inputValue)
    {
      var changed := next.value != props.value;
      props := next;
      if changed {
        SyncFromProp(next.value);
      }
    }

    /** `handleInputChange`: filter the keystroke to digits, mask it when a
        mask is set, store the result and report to the callback. */
    method HandleChange(raw: string) returns (notified: Option<ChangeEvent>)
      modifies this`inputValue
      ensures inputValue == ChangeOutcome(props, raw).display
      ensures notified == ChangeOutcome(props, raw).notified
    {
      var newValue := KeepDigits(raw);
      if MaskActive(props.mask) {
        var maskedValue;
        ghost var stopIndex;
        maskedValue, stopIndex := ApplyMaskLoop(newValue, props.mask.value);
        inputValue := maskedValue;
        notified := if props.hasOnChange then Some(Masked(props.name, maskedValue)) else None;
      } else {
        inputValue := newValue;
        notified := if props.hasOnChange then Some(Original(raw)) else None;
      }
    }
  }

  /** The label is coloured as an error exactly when `errors` is truthy. */
  predicate LabelShowsError(errors: Option<string>) {
    errors.Some? && errors.value != ""
  }

  /** The error slot shows `errors`, or a no-break space when there is none:
      never empty, so the slot keeps its height with or without an error. */
  function ErrorSlotText(errors: Option<string>): (t: string)
    ensures t != []
    ensures LabelShowsError(errors) <==> errors.Some? && t == errors.value
    ensures !LabelShowsError(errors) ==> t == "\U{00A0}"
  {
    if LabelShowsError(errors) then errors.value else "\U{00A0}"
  }
}
