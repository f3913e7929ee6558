# newRial amount input: numerals and live formatting

This project models, in Dafny, the part of the newRial currency converter
(`index.tsx`) that keeps an amount field readable while the user types.

The handler runs on every keystroke (`handleInputChange`) and does the following:

- It delocalises the field text, turning Persian digits and separators into ASCII with `toEnglishNumerals`.
- It refuses text with a second decimal point or a character outside `[0-9,.]`. The field then keeps what it held.
- It removes the commas.
- It clears the field when nothing is left.
- It renders the integer part through `BigInt(...).toLocaleString('en-US')`. That drops leading zeros and groups the digits by thousands.
- It appends the fraction digits as they were typed, writing `0.` when the integer part is empty.
- It localises the result with `toPersianNumerals`.

The project has four modules:

- `Text` (`text.dfy`): the JavaScript string operations the handler uses:
  - `split` with a one-character separator, and its inverse `Join`;
  - `replace(/,/g, '')`;
  - the digit class `[0-9]`;
  - an occurrence count.
- `Numerals` (`numerals.dfy`): the two lookup tables and the two per-character conversions.
- `Decimal` (`decimal.dfy`): decimal digit strings:
  - their value, which is what `BigInt` makes of a digit string;
  - the shortest rendering of a value;
  - the canonical integer part: leading zeros dropped, `"0"` for an empty or all-zero part;
  - en-US thousands grouping, specified directly (`Grouped`) and by an independent shape predicate (`WellGrouped`).
- `AmountInput` (`amount_input.dfy`): the handler itself:
  - `Format(prev, raw)` is the new field value as a function of the old one and the typed text.
  - `AmountField` is a class with one `display` field. Its `OnChange` method follows the handler statement by statement, and is proved to leave `display == Format(old(display), value)`.
  - `FormatTypedNumber` is the body of the `try` block.
  - The lemmas state what the handler promises.

Two of the handler's special cases add nothing to the general path:

- the lone `"."` case (lines 69-72);
- the `integerPart === ''` override (lines 88-90).

In both cases the general rendering gives the same text, because `BigInt('0')` renders as `"0"`. `LonePointRender`, `TypedNumberParts` and `LeadingZeroPoint` prove this. `Format` therefore has no special cases, and `OnChange` keeps them as the code has them.

The `catch` branch (lines 93-96) cannot be reached. By then the integer part is always a string of ASCII digits, possibly empty, and `BigInt` parses every such string. `FormatTypedNumber` marks that branch with `assert false`.

The `trim()` test (line 63) is modelled with the JavaScript white-space set. After the character check no white space is left, so the test amounts to "is empty" (`PlainBlankIsEmpty`).

The input `",,"` passes both checks, loses its commas and clears the field (`DoubleCommaClears`).

## Model

| member | source | states |
|---|---|---|
| Numerals.PersianOf | index.tsx:8-13 | each ASCII digit goes to the Persian digit of the same value, `.` to U+066B, `,` to U+066C, and every other character is returned unchanged |
| Numerals.EnglishOf | index.tsx:18-23 | the reverse table: each Persian digit goes to the ASCII digit of the same value, U+066B to `.`, U+066C to `,`, every other character (Arabic-Indic digits included) is unchanged |
| Numerals.ToPersian | index.tsx:6-14 | the result has the input's length and holds, at every position, the localised character of the input |
| Numerals.ToEnglish | index.tsx:16-24 | the result has the input's length and holds, at every position, the delocalised character of the input |
| Numerals.ToEnglishToPersian | index.tsx:6-24 | delocalising a localised string is delocalising the string itself |
| Numerals.ToEnglishIdempotent | index.tsx:16-24 | delocalising twice is delocalising once |
| Numerals.ToPersianRoundTrip | index.tsx:6-24 | on text without Persian numerals, delocalising undoes localising |
| Numerals.ToEnglishRoundTrip | index.tsx:6-24 | on text without ASCII numerals, localising undoes delocalising |
| Numerals.ToEnglishPoints | index.tsx:16-24 | the points of the delocalised text are exactly the ASCII points and Arabic decimal separators of the input |
| Numerals.ToPersianPoints | index.tsx:6-14 | the Arabic decimal separators of the localised text are exactly the ASCII points and Arabic decimal separators of the input |
| Numerals.ToEnglishKeeps | index.tsx:16-24 | text without Persian numerals is left as it is by delocalisation |
| Text.Split | index.tsx:53 | `split` gives one more piece than there are separators, and no piece contains the separator |
| Text.JoinSplit | index.tsx:74 | joining the pieces of a split with the separator gives the string back |
| Text.SplitJoin | index.tsx:74 | pieces free of the separator, once joined, split back into themselves |
| Text.SplitFrom | index.tsx:74 | every character of a piece occurs in the split string |
| Text.StripCommas | index.tsx:61 | the result has no comma and is shorter than the input by exactly the number of commas |
| Text.StripCommasKeeps | index.tsx:61 | every character other than a comma occurs in the result as often as in the input |
| Text.StripCommasFrom | index.tsx:61 | every character of the result occurs in the input |
| Text.StripCommasAppend | index.tsx:61 | removing commas distributes over concatenation |
| Decimal.Decimal | index.tsx:78 | the rendering of a value is a non-empty digit string, without a leading zero unless it is "0", whose value is that value |
| Decimal.TrimLeadingZeros | index.tsx:78 | the result is a suffix of the input, everything dropped is `0`, and the result does not start with `0` |
| Decimal.CanonicalInteger | index.tsx:78 | the integer part as BigInt renders it: a non-empty digit string, "0" or without leading zero, of the same value |
| Decimal.ParseBigInt | index.tsx:78 | `BigInt` of a string succeeds exactly on digit strings, and its value renders back as the canonical integer part |
| Decimal.DecimalOfValue | index.tsx:78 | rendering the value of a digit string gives its canonical form |
| Decimal.CanonicalIntegerIdempotent | index.tsx:78 | the canonical form of the canonical form is itself |
| Decimal.GroupThousands | index.tsx:78 | `toLocaleString('en-US')` of a value is well grouped, and without its commas it is the decimal rendering of the value: "0" for 0, no leading zero otherwise, of that value |
| Decimal.GroupedIsWellGrouped | index.tsx:78 | grouping a non-empty digit string puts a comma before every block of three digits from the right: the first group has one to three digits and each later group exactly three |
| Decimal.GroupedStripped | index.tsx:78 | removing the commas of a grouped digit string gives the digits back |
| Decimal.GroupedStripCommas | index.tsx:78 | every well-grouped string is the grouping of its own digits, so grouping is the only shape with that property |
| Decimal.Value | index.tsx:78 | (definition) the number a digit string denotes, most significant digit first, with the empty string denoting 0; its properties are in Decimal.Decimal, CanonicalInteger and ParseBigInt |
| Decimal.Grouped | index.tsx:78 | (definition) en-US grouping: a comma before every block of three digits counted from the right; its shape and inverse are in GroupedIsWellGrouped, GroupedStripped and GroupedStripCommas |
| AmountInput.Acceptable | index.tsx:52-59 | (definition) the two checks: at most one point, and only characters of `[0-9,.]`; stated on the typed text in AcceptsExactly |
| AmountInput.IsBlank | index.tsx:63 | (definition) `trim() === ''`: every character is JavaScript white space or a line terminator; see PlainBlankIsEmpty |
| AmountInput.Render | index.tsx:78-85 | (definition) the grouped canonical integer part followed by the point and fraction as typed; see RenderSplit, RenderStripped, RenderAcceptable |
| AmountInput.Format | index.tsx:48-97 | (definition) the new field value: the old one on rejection, empty when nothing is left without commas, the localised rendering otherwise; OnChange is proved equal to it and the lemmas below state its properties |
| AmountInput.Decompose | index.tsx:74 | a plain number is its integer part followed by the point and fraction when one was typed, so the two parts determine it |
| AmountInput.IntegerPart | index.tsx:74 | the integer part of a plain number is a digit string, possibly empty |
| AmountInput.FractionPart | index.tsx:74 | a fraction is present exactly when a point was typed, and it is a digit string |
| AmountInput.AmountField.constructor | index.tsx:29 | a field starts empty, and an empty field is stable |
| AmountInput.AmountField.OnChange | index.tsx:48-97 | the new field value is `Format` of the old value and the typed text, and the field stays stable |
| AmountInput.FormatTypedNumber | index.tsx:74-96 | the value built in the `try` block, with its two overrides, is the grouped canonical integer part followed by the point and fraction as typed, and `BigInt` never throws |
| AmountInput.TypedNumberParts | index.tsx:74-90 | the pieces of the split are the integer part and the fraction, and an empty integer part always comes with a fraction |
| AmountInput.BigIntGrouping | index.tsx:78 | `BigInt(integerPart \|\| '0')` succeeds and renders as the grouped canonical integer part, "0" for an empty part |
| AmountInput.LeadingZeroPoint | index.tsx:88-90 | `'0.' + decimalPart` is the rendering of an empty integer part followed by the point and fraction |
| AmountInput.LonePointRender | index.tsx:69-72 | the lone-point special case gives what the general rendering gives |
| AmountInput.EmptyIntegerPart | index.tsx:88-90 | a non-empty number with an empty integer part has a fraction, and its integer part renders as "0" |
| AmountInput.PiecesAreDigits | index.tsx:74 | a plain number splits into at most two digit strings |
| AmountInput.StripCommasPlain | index.tsx:53-61 | an accepted text without its commas is a plain number: digits and at most one point |
| AmountInput.PlainBlankIsEmpty | index.tsx:63-66 | a plain number is blank for `trim()` exactly when it is empty |
| AmountInput.BlankPath | index.tsx:63-66 | an accepted text that is blank once its commas are gone clears the field |
| AmountInput.NumberPath | index.tsx:61-92 | an accepted text that is not blank once its commas are gone is rendered and localised |
| AmountInput.AcceptsExactly | index.tsx:50-59 | a text is accepted exactly when it holds digits, points and commas of either script only, with at most one point of either script in all |
| AmountInput.RejectsSecondPoint | index.tsx:52-55 | two points, in either script, leave the field as it was |
| AmountInput.RejectsForeignChar | index.tsx:56-59 | any character that is not a digit, point or comma of either script leaves the field as it was |
| AmountInput.ArabicIndicDigitRejected | index.tsx:56-59 | an Arabic-Indic digit is not converted, so it is refused and the field is kept |
| AmountInput.ClearsExactly | index.tsx:61-66 | an accepted text clears the field exactly when it holds commas of either script only, or nothing |
| AmountInput.ClearsWhenNothingLeft | index.tsx:61-66 | an accepted text clears the field exactly when nothing is left once its commas are gone |
| AmountInput.OnlyCommas | index.tsx:61 | nothing is left once the commas are removed exactly when the text holds commas of either script only |
| AmountInput.FormatClears | index.tsx:63-66 | an accepted text with nothing left once its commas are gone clears the field |
| AmountInput.FormatNonEmpty | index.tsx:74-92 | an accepted text that keeps something once its commas are gone never clears the field |
| AmountInput.RenderNonEmpty | index.tsx:78-85 | a rendered number is never empty |
| AmountInput.DoubleCommaClears | index.tsx:61-66 | `",,"` is accepted and clears the field |
| AmountInput.FormatDelocalises | index.tsx:50 | typing Persian numerals or their ASCII counterparts gives the same field value |
| AmountInput.SplitTyped | index.tsx:74 | integer digits, then optionally a point and fraction digits, split back into exactly those parts |
| AmountInput.FormatAccepted | index.tsx:61-92 | an accepted text that keeps something once its commas are gone is shown as the localised rendering of its integer part and fraction |
| AmountInput.FormatTyped | index.tsx:48-97 | a number typed in ASCII is shown as the localised rendering of its integer part and fraction |
| AmountInput.FractionOnly | index.tsx:87-90 | `.` followed by digits is shown as `0.` followed by those digits, localised |
| AmountInput.LonePoint | index.tsx:69-72 | a lone point, in either script, is shown as `۰٫` |
| AmountInput.TrailingPoint | index.tsx:82-85 | a trailing point is kept after the grouped integer, with nothing after it |
| AmountInput.LeadingZeroDropped | index.tsx:78 | a zero typed before the integer digits changes nothing that is shown |
| AmountInput.CanonicalLeadingZero | index.tsx:78 | a leading zero does not change the integer part as BigInt renders it |
| AmountInput.WellGroupedChars | index.tsx:78 | a grouped integer holds digits and commas only |
| AmountInput.RenderSplit | index.tsx:74-85 | the rendering splits at its point into the grouped integer and the fraction as typed |
| AmountInput.RenderAcceptable | index.tsx:80-85 | the rendering holds digits, commas and at most one point |
| AmountInput.AsciiConcat | index.tsx:84 | concatenating texts of ASCII numerals gives a text of ASCII numerals |
| AmountInput.RenderStripped | index.tsx:78-85 | the rendering without commas is the canonical integer part followed by the point and fraction as typed |
| AmountInput.LocalisedShape | index.tsx:92 | localising an accepted ASCII text gives Persian numerals only, with at most one decimal separator, and delocalising gives it back |
| AmountInput.RenderedShape | index.tsx:76-92 | what is shown for a typed number has the display shape, its integer part is well grouped, and delocalised without commas it is the canonical integer and the fraction |
| AmountInput.AcceptedOutput | index.tsx:74-92 | every accepted change that leaves a number shows Persian digits, `٬` and at most one `٫`; delocalised without commas it is the integer part without leading zeros ("0" if empty) of the same value, then the point and fraction as typed; its integer part is grouped by thousands |
| AmountInput.FormatOfRendered | index.tsx:48-97 | entering the shown rendering again is accepted and shows the same text |
| AmountInput.FormatOfEmpty | index.tsx:63-66 | an empty text clears the field |
| AmountInput.FormatIdempotent | index.tsx:48-97 | whatever an accepted change shows, entered again, is shown unchanged |
| AmountInput.FormatKeepsStable | index.tsx:48-97 | a field that holds text it would show again still does after any change |
| AmountInput.GroupingExample | index.tsx:48-97 | `1228000` is shown as `۱٬۲۲۸٬۰۰۰`, and entering `۱٬۲۲۸٬۰۰۰` shows it again |
| AmountInput.ExampleRender | index.tsx:78 | `1228000` renders as `1,228,000` |
| AmountInput.ExampleShown | index.tsx:6-14 | `1,228,000` localises to `۱٬۲۲۸٬۰۰۰` |

## Left out

- The React component: its state hooks, the mode tabs and all JSX (index.tsx:26-31, 125-281). `AmountField` stands for one field together with its setter.
- `handleShare` (index.tsx:99-123) is browser I/O: the share sheet, the clipboard and a timer.
- Mounting the component in the DOM (index.tsx:283-287).
- `parseNumber` and `formatNumber` (index.tsx:33-46) and the toman, old-rial and new-rial conversions. They are floating-point arithmetic.
- `Intl` and `toLocaleString` themselves. en-US grouping of an integer is specified directly as `Grouped`, with its shape stated by `WellGrouped`.
- The `null`/`undefined` guards and the number argument of `toPersianNumerals` (index.tsx:6-7, 16-17). The handler only passes strings.
- Decimal.ParseBigInt: models `BigInt` only on strings of ASCII digits and gives `None` for everything else. The other syntaxes `BigInt` accepts (signs, surrounding white space, `0x` prefixes) never reach it, because the character check comes first.
- Characters are Unicode scalar values, while JavaScript strings are UTF-16 code units. The two differ only outside the Basic Multilingual Plane. Every character the tables or the checks name lies inside it, and a character outside it is refused either way.
