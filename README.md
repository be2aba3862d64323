# Input component: masked digit entry

A model of the `Input` form component (`src/components/Input/Input.tsx`):
a labelled text field that keeps only the digits of what the user types,
optionally formats them with a mask such as `(###) ###-####`, reports the
result to an `onChange` callback, and shows an error slot under the field.

Modules:

- `Wrappers` (`wrappers.dfy`): `Option`, for props that may be `undefined`.
- `Digits` (`digits.dfy`): the filter `raw.replace(/\D/g, '')` as the
  recursive function `KeepDigits` over ASCII `'0'..'9'`, with lemmas that its
  result holds only digits, is an order-preserving subsequence of the raw
  text, keeps every digit as often as it occurs, distributes over
  concatenation, is the identity exactly on digit-only text, and is
  idempotent.
- `Mask` (`mask.dfy`): `applyMask`. `Scan` is the scan from mask position
  `i` with input cursor `vi`, one mask character per step. `ApplyMask` is the
  whole scan. `ApplyMaskLoop` is the source's two-cursor loop, proved equal
  to `ApplyMask`. The lemmas cover the length bound, literals kept at their
  positions, slots filled in input order when nothing is absorbed, input
  beyond the slots being dropped, and the output stopping short of the end
  of the mask only when the input is used up. For absorption, a literal
  that meets an equal input character consumes it and one that meets
  another character consumes nothing. Whatever is absorbed, the slots hold
  input characters in order, no input position filling two slots. A text
  that already agrees with the mask is a fixed point, so masking is
  idempotent. Concrete lemmas check the phone-number examples.
- `InputComponent` (`input.dfy`): `ChangeOutcome` gives the new display text
  and the callback's event for one change event. The class `Input` holds
  the props and the display state `inputValue`. `SyncFromProp` is the
  effect's body. `Rerender` runs the effect only when the `value` prop
  changed, as the effect's dependency list `[propValue]` demands.
  `HandleChange` is `handleInputChange`, proved against `ChangeOutcome`.
  `ErrorSlotText` is the error slot's text.

Behaviour of the code worth knowing:

- In the no-mask branch the callback receives the original event
  (line 65). Its target value is the raw keystroke, such as `a1b2c3`; only
  the display is digit-filtered, to `123` (`ExampleUnmaskedCallbackSeesRaw`).
- `applyMask` accepts any text, so `ApplyMask` is proved for any input.
  `DigitsAreNotAbsorbed` covers the digit-only text the handler passes.
- An empty mask string is falsy in the `if (mask)` test (line 51), so it
  takes the no-mask branch (`EmptyMaskIsNoMask`).

## Model

| member | source | states |
|---|---|---|
| `Mask.Scan` | src/components/Input/Input.tsx:33-43 | from mask position `i` the scan emits at most as many characters as the mask has left, and emits nothing exactly when the mask or the input is used up |
| `Mask.ApplyMask` | src/components/Input/Input.tsx:29-46 | the masked text is never longer than the mask; it is empty exactly when the input or the mask is empty |
| `Mask.ApplyMaskLoop` | src/components/Input/Input.tsx:29-46 | the two-cursor loop returns exactly `ApplyMask(value, mask)`, and the value of `valueIndex` when it stops is `FinalCursor(value, mask, 0, 0)` |
| `Mask.StopsOnlyWhenInputRunsOut` | src/components/Input/Input.tsx:33 | for the cursor `FinalCursor` at which the loop stops (as `ApplyMaskLoop` ensures): it never passes the end of the input; the output is shorter than the rest of the mask only if the whole input was consumed |
| `Mask.LiteralsVerbatimFrom` | src/components/Input/Input.tsx:37-38 | every output position whose mask character is a literal holds that literal (from any scan position) |
| `Mask.LiteralsVerbatim` | src/components/Input/Input.tsx:37-38 | for every output index `k` with `mask[k] != '#'`, `output[k] == mask[k]` |
| `Mask.DigitsAreNotAbsorbed` | src/components/Input/Input.tsx:39-41 | digit-only input is never absorbed by a mask whose literals are not digits |
| `Mask.SlotsFilledInOrderFrom` | src/components/Input/Input.tsx:33-36 | without absorption, the slot characters of the remaining output are the next input characters in order, as many as the remaining slots allow |
| `Mask.SlotsFilledInOrder` | src/components/Input/Input.tsx:33-36 | without absorption, the `#` positions of the output spell the input's first k characters, k being the smaller of the input's length and the number of `#`; later input is dropped |
| `Mask.SlotsTakeInputOnceFrom` | src/components/Input/Input.tsx:33-42 | from any scan position, the slot characters of the remaining output form a subsequence of the remaining input, whatever the literals absorb |
| `Mask.SlotsTakeInputOnce` | src/components/Input/Input.tsx:33-42 | for all inputs and masks, the `#` positions of the output are a subsequence of the input: they hold input characters in input order, and no input position fills two slots |
| `Mask.ScanShift` | src/components/Input/Input.tsx:33-43 | the rest of the scan depends only on the input and mask from the cursors on: dropping a prefix before both cursors gives the same output |
| `Mask.LiteralAbsorbsEqualInput` | src/components/Input/Input.tsx:37-41 | a literal `c` that meets input `c` emits `c` once and consumes it: `ApplyMask([c] + rest, [c] + mask) == [c] + ApplyMask(rest, mask)` |
| `Mask.LiteralKeepsOtherInput` | src/components/Input/Input.tsx:37-41 | a literal `c` that meets a different input character emits `c` and consumes nothing: `ApplyMask(value, [c] + mask) == [c] + ApplyMask(value, mask)` |
| `Mask.ExtraInputFillsMaskFrom` | src/components/Input/Input.tsx:33-43 | without absorption, input longer than the remaining slots makes the scan run to the end of the mask |
| `Mask.ExtraInputFillsMask` | src/components/Input/Input.tsx:33-43 | without absorption, input with more characters than slots yields an output as long as the mask, trailing literals included |
| `Mask.FormattedTextIsFixedPointFrom` | src/components/Input/Input.tsx:37-42 | scanning a text that agrees with the mask keeps both cursors equal and emits the rest of the text |
| `Mask.FormattedTextIsFixedPoint` | src/components/Input/Input.tsx:37-42 | a text that agrees with the mask's literals and is no longer than the mask is returned unchanged: each of its literals is absorbed, not emitted twice; this makes masking idempotent |
| `Mask.ApplyMaskIdempotent` | src/components/Input/Input.tsx:29-46 | masking an already masked text changes nothing |
| `Mask.ExampleTrailingLiteral` | src/components/Input/Input.tsx:33-43 | mask `###-` gives `123` on `123` and `123-` on `1234` |
| `Mask.ExamplePhone` | src/components/Input/Input.tsx:29-46 | `(###) ###-####` on `5551234567` gives `(555) 123-4567` |
| `Mask.ExampleDashedPhone` | src/components/Input/Input.tsx:29-46 | `###-###-####` on `1234567890` gives `123-456-7890` |
| `Mask.ExampleEmptyInput` | src/components/Input/Input.tsx:33 | empty input gives empty output, with no literal emitted ahead of it |
| `Mask.ExampleAbsorbedDigit` | src/components/Input/Input.tsx:39-41 | with mask `+1 (###)`, the leading `1` of `1555` is absorbed by the literal `1`, giving `+1 (555` |
| `Digits.KeepDigits` | src/components/Input/Input.tsx:49 | the filtered text holds only `'0'..'9'` and is no longer than the raw text |
| `Digits.KeepDigitsIsSubsequence` | src/components/Input/Input.tsx:49 | the filtered text is an order-preserving subsequence of the raw text |
| `Digits.KeepDigitsCounts` | src/components/Input/Input.tsx:49 | each digit occurs in the result as often as in the raw text; no other character occurs |
| `Digits.KeepDigitsAppend` | src/components/Input/Input.tsx:49 | filtering a concatenation is the concatenation of the filtered parts |
| `Digits.KeepDigitsFixedPoint` | src/components/Input/Input.tsx:49 | the filter leaves a text unchanged if and only if it holds only digits |
| `Digits.KeepDigitsIdempotent` | src/components/Input/Input.tsx:49 | filtering twice equals filtering once |
| `Digits.ExampleLettersStripped` | src/components/Input/Input.tsx:49 | `a1b2c3` filters to `123` |
| `InputComponent.PropOrEmpty` | src/components/Input/Input.tsx:23 | an absent prop shows as empty text; a present prop shows as itself (`propValue || ''`) |
| `InputComponent.ChangeOutcome` | src/components/Input/Input.tsx:48-67 | a change event notifies the callback exactly when `onChange` is given |
| `InputComponent.MaskedDisplay` | src/components/Input/Input.tsx:49-53 | with a non-empty mask the display is `ApplyMask(KeepDigits(raw), mask)`, agrees with the mask's literals within its length, is already in masked form, and its slots hold keystroke digits in order, none used twice |
| `InputComponent.MaskedDisplaySlots` | src/components/Input/Input.tsx:49-53 | with a non-empty mask without digit literals, the display's slots spell the keystroke's digits in order, up to the number of slots |
| `InputComponent.MaskedCallbackSeesDisplay` | src/components/Input/Input.tsx:55-61 | with a mask, the callback observes the field name and exactly the displayed value |
| `InputComponent.UnmaskedOutcome` | src/components/Input/Input.tsx:62-67 | with an absent or empty mask the display is the digit-filtered keystroke, a subsequence of it, while the callback observes the raw keystroke |
| `InputComponent.MaskActive` | src/components/Input/Input.tsx:51 | the `if (mask)` test: a mask is in effect only when it is given and non-empty |
| `InputComponent.EmptyMaskIsNoMask` | src/components/Input/Input.tsx:51 | an empty-string mask gives the same outcome as no mask |
| `InputComponent.ExampleUnmaskedCallbackSeesRaw` | src/components/Input/Input.tsx:63-65 | with no mask, typing `a1b2c3` displays `123` while the callback sees `a1b2c3` |
| `InputComponent.Input.constructor` | src/components/Input/Input.tsx:23 | on mount the display is the `value` prop, or empty when it is absent or empty |
| `InputComponent.Input.SyncFromProp` | src/components/Input/Input.tsx:25-27 | the effect overwrites the display with the prop or empty text, independently of the old display, so re-syncing is idempotent |
| `InputComponent.Input.Rerender` | src/components/Input/Input.tsx:25-27 | a re-render stores the new props; the display is re-synced exactly when the `value` prop changed and kept otherwise |
| `InputComponent.Input.HandleChange` | src/components/Input/Input.tsx:48-67 | a change event sets the display and returns the callback's event as `ChangeOutcome` says; nothing but `inputValue` changes |
| `InputComponent.LabelShowsError` | src/components/Input/Input.tsx:72 | the label's error colour is chosen exactly when `errors` is given and non-empty |
| `InputComponent.ErrorSlotText` | src/components/Input/Input.tsx:82 | the error slot is never empty; it shows `errors` exactly when `errors` is non-empty (which is when the label is coloured as an error), and a no-break space otherwise |

## Left out

- Rendering (lines 70-83): the JSX tree, the Tailwind class strings and the
  label markup. Only the error-slot text and the label's error test
  (`LabelShowsError`, line 72) are modelled.
- React scheduling: `useState`/`useEffect` timing and re-render order. The
  effect is an explicit `SyncFromProp` call, run by `Rerender` when the
  `value` prop differs from the previous one.
- The event object: the spread of `e` and `e.target` (lines 56-59) is
  reduced to the fields the logic sets, `name` and `value`. The original
  event is represented by its raw target value.
- The `onChange` callback is foreign code. The model returns the event it
  would receive and records only whether the callback is given.
- `...rest` attribute forwarding (line 80): pass-through to the DOM.
- The regular expression engine: `/\D/g` is replaced by an explicit
  ASCII-digit test.
- UTF-16 code units: strings are sequences of characters, one index per
  character.
- The `value` prop's other types (`number`, `readonly string[]`) and their
  JavaScript truthiness: only `string` and `undefined` are modelled.
