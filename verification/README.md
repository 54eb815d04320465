# 8-bit binary visualizer, modelled in Dafny

This project models the number-representation core of the binary visualizer tab
(`BinaryVisualizerTab` in `binary_converter_tab.py`). The tab shows a signed or
unsigned byte in three ways:

- eight clickable bit boxes (box `i` has power `7 - i`);
- a decimal input that accepts -128..255;
- the binary, octal, hexadecimal and custom-base cards.

It also has an explanation panel (the division method or the powers-of-two
method), a sum label listing the active boxes, and a small quiz.

The files:

- `wrappers.dfy`: `Option`.
- `codec.dfy`: the 8-bit codec.
  - `value & 0xFF` (`Mask`), written MSB-first into the boxes (`Pattern`, `BitsOf`).
  - The MSB-driven reading of the boxes back into a decimal (`BitsToDecimal`, and the loop `ReadBits`).
  - The round trips between the two.
- `radix.dfy`: `convert_to_base`.
  - A method with the source's loop, proved against a recursive specification.
  - Its 16-character alphabet, and the lookup failure beyond it (`BaseText.IndexError`).
  - The fixed cards stated against it.
- `explain.dfy`: the explanation generators and the sum label as structured data.
  - The division rows (dividend, quotient, remainder).
  - The greedy list of powers.
  - The active-bit terms.
- `visualizer.dfy`: the tab as a class.
  - The boxes are an `array<int>`. The fields hold the manual mode, the invert button's state, the input text, the base selector, the explanation choice, the displayed widgets and the quiz counters.
  - There is one method per handler.
  - Each handler's `ensures` ties the new state to a pure function on a `Screen` snapshot (`Refresh`, `DecimalChanged`, `ReadBack`). The properties are lemmas about those functions.

Modelling decisions:

- **Input text.** The decimal input is `Entry = Empty | Number(v) | NotANumber`, which is what `int(text)` makes of it. The quiz answer is `Option<int>`.
- **Randomness.** `random.randint(0, 255)` becomes the `answer` parameter of `StartQuiz`.
- **The 16-character alphabet.** `convert_to_base` indexes `"0123456789ABCDEF"` (line 744), while the selector allows bases up to 36 (line 251).
  - A remainder of 16 or more is an `IndexError` result.
  - When it happens, `update_all_outputs` stops before the custom card, the explanation and the sum label.
  - `on_decimal_changed` then also skips setting the invert button.
  - The methods report this with a `raised` out-parameter.
- **Base selector.** Line 440 passes the base selector's new value to `update_all_outputs` as the value to display. `Tab.SelectBase` models this as written.
- **Explanation.** `update_explanation` ignores its argument and re-reads the input text. `Tab.UpdateExplanation` reads the `entry` field.

## Model

| member | source | states |
|---|---|---|
| Codec.Mask | binary_converter_tab.py:727 | `value & 0xFF` lies in 0..255 and leaves 0..255 unchanged |
| Codec.PadBinaryDigits | binary_converter_tab.py:652 | character `i` of the 8-wide `:08b` string is bit `7 - i` of the number |
| Codec.BitsOfBits | binary_converter_tab.py:649-658 | the boxes written for `v` hold `((v & 0xFF) >> (7 - i)) & 1` in box `i`, so exactly 8 boxes of 0/1 |
| Codec.BitsToDecimal | binary_converter_tab.py:676-695 | the value read from any boxes lies in [-128, 127] and is negative exactly when the MSB box is 1 |
| Codec.SignPlusRest | binary_converter_tab.py:682-695 | the MSB box counts -128 when set and every other active box counts `2 ** power` |
| Codec.ReadBits | binary_converter_tab.py:682-695 | the two accumulation loops compute the value the boxes read as |
| Codec.PatternSum | binary_converter_tab.py:649-658 | the unsigned sum of the boxes written for `v` is `v & 0xFF` |
| Codec.DecodeEncode | binary_converter_tab.py:649-695 | writing any `v` into the boxes and reading them back gives the signed byte of `v & 0xFF` |
| Codec.DecodeAfterEncode | binary_converter_tab.py:624-630 | for accepted inputs the round trip is exact on [-128, 127] and gives `v - 256` on [128, 255] |
| Codec.BitAt | binary_converter_tab.py:686-693 | box `k` is bit `7 - k` of the unsigned sum of the boxes |
| Codec.EncodeDecode | binary_converter_tab.py:649-695 | any box pattern, read as a decimal and written back, gives the same boxes |
| Radix.Digits | binary_converter_tab.py:747-749 | every digit is below the base, there are none exactly for 0, and the leading digit is not 0 |
| Radix.ConvertToBase | binary_converter_tab.py:739-751 | the loop's result (text or index failure) equals the recursive specification for every base 2..36 |
| Radix.ConvertFromSpec | binary_converter_tab.py:746-751 | the prepend loop, started from "", spells the base-`b` digits of the number, or fails when one of them is past the alphabet |
| Radix.ConvertFromDigits | binary_converter_tab.py:747-749 | each prepend step preserves the digits still to come in front of those already spelled |
| Radix.ConvertRoundTrip | binary_converter_tab.py:739-751 | for `num > 0` and bases 2..16 the result is non-empty, has no leading '0', uses only the first `base` characters, and reads back in `base` as `num` |
| Radix.IndexErrorPastSixteen | binary_converter_tab.py:744-749 | for bases 17..36 a last digit of 16 or more is an index failure, not a letter G-Z |
| Radix.OctalCard | binary_converter_tab.py:730 | the octal card `:o` equals `convert_to_base(u, 8)` |
| Radix.HexCard | binary_converter_tab.py:731 | the hex card `:x` equals `convert_to_base(u, 16)` in lowercase |
| Radix.BinaryCardIsFilledConversion | binary_converter_tab.py:729 | the binary card `:08b` of 0..255 equals `convert_to_base(u, 2)` zero-filled to 8, and equals `bin(u)[2:].zfill(8)` |
| Explain.ShowDivisionMethod | binary_converter_tab.py:766-809 | the halving loop yields the specified explanation: the pattern only for negatives, otherwise the rows and `bin(v)[2:]` |
| Explain.DivisionRowsShape | binary_converter_tab.py:797-805 | one row per binary digit (one `(0,0,0)` row for 0); the first dividend is `v`; each row has `t == 2q + r` with `r < 2`; the rows chain; the last quotient is 0 |
| Explain.HalvingRemainders | binary_converter_tab.py:800-805 | the remainders of the halvings, read last to first, are the binary digits of `t` |
| Explain.RemaindersReadBackwards | binary_converter_tab.py:775 | the remainders read bottom to top spell exactly the `bin(v)[2:]` the panel shows |
| Explain.ShowPowersMethod | binary_converter_tab.py:811-854 | the greedy loop yields the specified explanation: two's complement for negatives, "no powers" for 0, otherwise the picked powers |
| Explain.GreedyDecomposes | binary_converter_tab.py:842-847 | below `2 ** k` the picked powers are below `k`, strictly descending, and sum to the number |
| Explain.PowersSumToValue | binary_converter_tab.py:839-851 | for 1..255 the listed powers are non-empty, in 0..7, strictly descending, and their powers of two sum to `v` |
| Explain.ParityAfterSubtract | binary_converter_tab.py:845-846 | subtracting `2 ** k` leaves every lower bit unchanged |
| Explain.GreedyPicksBits | binary_converter_tab.py:842-847 | power `p` is picked exactly when bit `p` of the number is 1 |
| Explain.PowersAreActiveBoxes | binary_converter_tab.py:842-847 | for 0..255 the listed powers are exactly the powers of the active boxes |
| Explain.GreedySaturates | binary_converter_tab.py:842-847 | from 255 up, every power 7..0 is picked and they sum to 255 whatever the value |
| Explain.ActiveBitTerms | binary_converter_tab.py:856-879 | the loops list the powers of the active boxes (the MSB apart when it is set) and total the boxes' decimal value |
| Explain.ActivePowersSum | binary_converter_tab.py:873-879 | the listed powers sum to the boxes' unsigned contribution |
| Explain.SumLabelEmpty | binary_converter_tab.py:882-883 | the label is "Active Bits: 0 = 0" exactly when no box is active |
| Explain.SumLabelTerms | binary_converter_tab.py:856-886 | the label shows the given value; its terms are descending; a power is listed iff its box is active; -128 for a set MSB plus the listed powers is the boxes' value |
| Explain.SumLabelAfterInput | binary_converter_tab.py:856-886 | after input `v` the label shows `v`, has the signed MSB term iff `v < 0` or `v >= 128`, and its terms total `v` or `v - 256` |
| Visualizer.Tab.constructor | binary_converter_tab.py:325-337 | the tab starts in non-manual mode with base 10, the powers method and a 0/0 score; the "0" text gives boxes at 0, invert enabled, cards "00000000", "0", "0", "0", no powers and no active bits |
| Visualizer.Tab.ShowInitialValue | binary_converter_tab.py:424-425 | setting the text to "0" and refreshing leaves exactly that initial screen |
| Visualizer.StartupDisplay | binary_converter_tab.py:424-425 | `update_all_outputs(0)` with the boxes at 0 shows exactly the initial cards, explanation and sum label, and does not raise |
| Visualizer.Tab.UpdateBitsFromDecimal | binary_converter_tab.py:649-658 | the boxes hold the 8-bit pattern of `value & 0xFF` afterwards |
| Visualizer.Tab.UpdateExplanation | binary_converter_tab.py:753-764 | only the explanation changes: the chosen method for the text's value, 0 for empty text, cleared for non-numeric text |
| Visualizer.Tab.UpdateTotalSumLabel | binary_converter_tab.py:856-886 | only the sum label changes, to the terms of the current boxes and the given value |
| Visualizer.Tab.UpdateAllOutputs | binary_converter_tab.py:724-736 | the display becomes `Refresh`: three cards always, the rest only when the custom conversion does not raise |
| Visualizer.RefreshCards | binary_converter_tab.py:727-736 | the fixed cards are `convert_to_base` of `value & 0xFF` in bases 2 (zero-filled), 8 and 16 (lowercase); it raises iff the custom conversion fails, and then the other widgets keep their text |
| Visualizer.ConvertNeverFailsUpToSixteen | binary_converter_tab.py:739-751 | for bases 2..16 the custom card never raises |
| Visualizer.ConvertFailsExample | binary_converter_tab.py:744-749 | the custom card raises for input 16 in base 17 and for input -1 in base 26 |
| Visualizer.Tab.OnDecimalChanged | binary_converter_tab.py:613-647 | the new screen and raise flag are `DecimalChanged` of the old screen and the text |
| Visualizer.AcceptedInput | binary_converter_tab.py:624-637 | for -128..255 (custom base up to 16): the boxes hold the pattern of `v`, which reads back as `v` or `v - 256`; invert is enabled iff `v != -128`; the label shows `v`; nothing raises |
| Visualizer.EmptyActsAsZero | binary_converter_tab.py:617-622 | an emptied input gives the same boxes, display and enabled invert button as the value 0, with the entry left empty |
| Visualizer.RefusedInput | binary_converter_tab.py:638-647 | out-of-range or non-numeric text leaves the boxes and the display untouched and disables invert |
| Visualizer.Tab.UpdateDecimalFromBits | binary_converter_tab.py:676-704 | outside manual mode nothing changes; in manual mode the text becomes the boxes' value and the outputs are refreshed from it |
| Visualizer.ManualEditRoundTrip | binary_converter_tab.py:676-704 | a manual edit writes a value in [-128, 127], and typing that value back sets the same boxes |
| Visualizer.Tab.ToggleManualMode | binary_converter_tab.py:706-712 | the manual flag becomes the checkbox state |
| Visualizer.Tab.ToggleBox | binary_converter_tab.py:139-142 | in manual mode box `i` becomes `1 - value`, every other box stays; outside manual mode nothing changes |
| Visualizer.Tab.ToggleBoxOfPower | binary_converter_tab.py:667-671 | the search toggles exactly the box of `power`, and none for a power no box has |
| Visualizer.Tab.OnBitClicked | binary_converter_tab.py:660-674 | outside manual mode nothing changes; in manual mode the clicked box flips and the tab re-reads the boxes |
| Visualizer.FlipTwice | binary_converter_tab.py:139-142 | flipping the same box twice restores the boxes, and a flip keeps every box 0/1 |
| Visualizer.FlipDelta | binary_converter_tab.py:683-695 | a flip moves the boxes' value by the box's weight: `2 ** p` for powers 0..6, 128 the opposite way for the MSB |
| Visualizer.ClickMovesValue | binary_converter_tab.py:660-704 | after `on_bit_clicked(p)` in manual mode the input holds the old value moved by the clicked box's weight |
| Visualizer.ClickTwiceRestores | binary_converter_tab.py:660-704 | two calls of `on_bit_clicked(p)` with the same `p` restore both the boxes and the input's value |
| Visualizer.Tab.InvertSign | binary_converter_tab.py:714-722 | only while the invert button is enabled (line 362); a non-zero number becomes `on_decimal_changed(-v)`; a text that is exactly "0", an empty or a non-numeric text changes nothing |
| Visualizer.InvertHighByteRefused | binary_converter_tab.py:633-637 | after 129..255 invert is enabled, yet its negation is refused: the button turns off and the boxes keep `v` |
| Visualizer.InvertTwice | binary_converter_tab.py:714-722 | for -127..127 one inversion leaves boxes reading `-v`, and a second restores the text `v` and its boxes, with invert enabled after each |
| Visualizer.Tab.SelectBase | binary_converter_tab.py:440 | when a different base is selected, the base changes and the outputs are refreshed with the base number itself as the value |
| Visualizer.Tab.SelectExplanationMode | binary_converter_tab.py:454-460 | the chosen method is recorded and only the explanation is redrawn with it |
| Visualizer.Tab.StartQuiz | binary_converter_tab.py:900-909 | the answer is stored, submit is enabled, and the question is `bin(answer)[2:].zfill(8)` |
| Visualizer.QuizQuestionReadsAsAnswer | binary_converter_tab.py:903-904 | the question is the 8-box pattern of the answer and reads back in base 2 as the answer; the boxes would read it as `answer - 256` above 127 |
| Visualizer.Tab.CheckQuizAnswer | binary_converter_tab.py:911-931 | only while the submit button is enabled (line 493; disabled at line 927, re-enabled only by `start_quiz`), so each question is scored at most once; an unparsable answer changes nothing; otherwise the total rises by 1, the score by 1 iff the answer matches, and submit is disabled; `score <= total` is kept |

## Left out

- Qt widgets, layouts, style sheets, colours, animations, drop shadows, the tab's theme and the "Copied!" timer are presentation only.
- The clipboard, `QMessageBox` dialogs and the debug log (`log_message`) are calls into the toolkit.
- The style-sheet changes of the decimal input on valid and invalid text are also presentation only.
- `random.randint` in `start_quiz`: the drawn answer is a parameter.
- Python's `int(text)` parsing: whitespace, signs, underscores and Unicode digits are not modelled. The parse result is an `Entry` or an `Option<int>` argument.
- Signal wiring and re-entrancy:
  - `blockSignals` around the text update in `update_decimal_from_bits`.
  - The `setText` in `invert_sign`, which re-triggers `on_decimal_changed`. `Tab.InvertSign` calls the handler itself.
  - A zero text other than exactly "0" (such as "00", "-0", "+0" or " 0"): `invert_sign` rewrites it to "0", which re-runs `on_decimal_changed` and redraws the cards and the sum label. `Entry` does not tell these texts from "0", so `Tab.InvertSign` treats every zero as an unchanged text.
  - `setText("-0")` never arises, since `-0` prints as "0".
  - `setReadOnly` on the input in manual mode.
- Box clicks (lines 96 and 392):
  - Each box's `clicked` signal is connected both to `BitBox.toggle` and to a lambda calling `on_bit_clicked`.
  - The lambda's default parameter can also receive the signal's `checked` argument.
  - The model gives `Tab.OnBitClicked` the power directly and keeps `Tab.ToggleBox` as its own operation. It does not compose the two connections.
  - Composed, a click in manual mode first flips its own box (`toggle`, connected first at line 96) and then runs `on_bit_clicked(p)`. If `p` keeps its default `power`, the box is flipped straight back (`Visualizer.FlipTwice`), so the boxes do not change and the input is re-read. If the signal's `checked` (False) is bound to `p`, `power == False` matches power 0, so the clicked box and the least significant box both flip. Either way a real click does not flip exactly one bit; `Visualizer.ClickMovesValue` and `Visualizer.ClickTwiceRestores` state what `on_bit_clicked(p)` itself does.
- `BitBox.manual_mode`: each box has its own flag. `toggle_manual_mode` always sets every flag together with the tab's, so the model keeps one flag.
- The PyQt behaviour after an uncaught `IndexError` in a slot: the model stops the handler there and reports `raised`. Whether the application keeps running is not modelled.
- The HTML of the explanation panel and of the sum label: only the data they display is kept (rows, powers, terms, the shown value).
- The quiz's label, question, input and submit button are hidden when created (lines 496-499), and nothing in the file shows them again. The model keeps the quiz state and ignores visibility.
- `AnimatedButton`, `DisplayCard` and `CustomBaseCard` only set text.
- `update_bits_from_decimal` calls `set_value` only for boxes whose value differs (lines 657-658), and `set_value` animates only on a change. The model's loop skips equal boxes the same way, but the array contents afterwards cannot tell the two apart, so the contract does not state it.
