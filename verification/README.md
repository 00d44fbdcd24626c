# FormatChineseDate: a verified model of the block explorer's date formatter

The block explorer of the deriva-option dApp shows timestamps through
`FormatChineseDate`. It reads six components from a JavaScript `Date`: the full
year, the 0-based month, the day, the hour, the minute and the second. It
writes them as `Y年MM月DD日 hh时mm分ss秒`. The month is shifted to 1-based.
Every field except the year goes through the padding idiom
`("0" + x).slice(-2)`. The year is written as its plain text.

The model has three modules:

- `Decimal` (decimal.dfy): the decimal text of a natural number, as
  JavaScript's number-to-string coercion writes it, and a reader that inverts it.
- `JsText` (js_text.dfy): the JavaScript semantics the formatter relies on.
  This covers a number that is an integer or NaN, `x + 1`, `String(x)` (which
  `"0" + x` performs), and `String.prototype.slice` with one argument.
- `ChineseDate` (chinese_date.dfy): the formatter itself. Beside it sits an
  independent reader, `ParseChineseDate`, which takes the six components back
  from the fixed offsets of a formatted text. The lemmas connect the two.

The `Date` getters become plain inputs: a `DateParts` value of six JavaScript
numbers. Each number is `Int(v)` or `NaN`; every getter of an invalid `Date`
returns NaN. The year is an `int`, because `getFullYear` is negative for dates
before year 0. The formatter is a Dafny function, so it is total and
deterministic by construction: the same six components always give the same
string.

## Model

| member | source | states |
|---|---|---|
| `Decimal.NatToString` | packages/nextjs/app/blockexplorer/_components/FormatChineseDate.tsx:3-8 | The coerced text of a natural number is non-empty and all digits. It is one character exactly for values below 10. It ends in the units digit and has no leading zero except for 0 itself. |
| `Decimal.NatToStringRoundTrip` | packages/nextjs/app/blockexplorer/_components/FormatChineseDate.tsx:3-8 | Reading back the decimal text of any natural number gives that number. |
| `Decimal.NatToStringInjective` | packages/nextjs/app/blockexplorer/_components/FormatChineseDate.tsx:3-8 | Two different numbers never share a decimal text. |
| `Decimal.NatToStringLastTwo` | packages/nextjs/app/blockexplorer/_components/FormatChineseDate.tsx:3-7 | For values of 10 or more, the text's last two characters are the tens digit and the units digit. |
| `Decimal.NatToStringLength` | packages/nextjs/app/blockexplorer/_components/FormatChineseDate.tsx:4-7 | Values 0..9 take one character and values 10..99 take two. |
| `Decimal.ParseNat` | packages/nextjs/app/blockexplorer/_components/FormatChineseDate.tsx:8 | The reader accepts exactly the non-empty all-digit strings. |
| `JsText.Add` | packages/nextjs/app/blockexplorer/_components/FormatChineseDate.tsx:3 | `getMonth() + 1` is NaN exactly when the month is NaN, and otherwise exceeds the month by one. |
| `JsText.ToString` | packages/nextjs/app/blockexplorer/_components/FormatChineseDate.tsx:2-8 | `String(x)` is non-empty. It is all digits for non-negative integers, a `-` followed by digits for negative ones, and `NaN` for NaN. |
| `JsText.Slice` | packages/nextjs/app/blockexplorer/_components/FormatChineseDate.tsx:3-7 | `s.slice(start)` is a suffix of `s`. A negative start keeps at most that many final characters, and a non-negative start drops that many leading ones. |
| `JsText.IntToStringRoundTrip` | packages/nextjs/app/blockexplorer/_components/FormatChineseDate.tsx:2 | The text of any integer year, negative ones included, reads back as that year. |
| `ChineseDate.InvalidDate` | packages/nextjs/app/blockexplorer/_components/FormatChineseDate.tsx:2-7 | Every component of an invalid date is NaN. |
| `ChineseDate.Pad2` | packages/nextjs/app/blockexplorer/_components/FormatChineseDate.tsx:3-7 | Every padded field is exactly two characters, whatever the component. |
| `ChineseDate.FormatChineseDate` | packages/nextjs/app/blockexplorer/_components/FormatChineseDate.tsx:1-10 | The output is the year's text plus 17 characters: five two-character fields, six unit markers and one space. It starts with the year's text, neither padded nor truncated. |
| `ChineseDate.ParseChineseDate` | packages/nextjs/app/blockexplorer/_components/FormatChineseDate.tsx:8 | The independent reader accepts only texts of at least 18 characters. What it returns is integer components, each padded one in 0..99. |
| `ChineseDate.ParseTwoDigits` | packages/nextjs/app/blockexplorer/_components/FormatChineseDate.tsx:3-7 | A two-digit field reads as a value below 100. |
| `ChineseDate.Pad2Suffix` | packages/nextjs/app/blockexplorer/_components/FormatChineseDate.tsx:3-7 | A padded field is the last two characters of `0` followed by the component's text. |
| `ChineseDate.Pad2Digits` | packages/nextjs/app/blockexplorer/_components/FormatChineseDate.tsx:3-7 | Any non-negative component pads to its tens digit followed by its units digit. |
| `ChineseDate.Pad2SingleDigit` | packages/nextjs/app/blockexplorer/_components/FormatChineseDate.tsx:4-7 | A component 0..9 becomes `0` followed by its digit. |
| `ChineseDate.Pad2LastTwoDigits` | packages/nextjs/app/blockexplorer/_components/FormatChineseDate.tsx:4-7 | A component of 10 or more keeps only its last two digits. |
| `ChineseDate.Pad2TwoDigits` | packages/nextjs/app/blockexplorer/_components/FormatChineseDate.tsx:4-7 | A component 10..99 appears as its own decimal text, unchanged. |
| `ChineseDate.Pad2RoundTrip` | packages/nextjs/app/blockexplorer/_components/FormatChineseDate.tsx:4-7 | Every component below 100 reads back from its padded field. |
| `ChineseDate.MonthField` | packages/nextjs/app/blockexplorer/_components/FormatChineseDate.tsx:3 | A 0-based month 0..11 shows as `01`..`12`, and the field reads back as the month plus one. |
| `ChineseDate.PiecesLayout` | packages/nextjs/app/blockexplorer/_components/FormatChineseDate.tsx:8 | The concatenation puts a year text and five two-character fields at fixed offsets behind their markers, with nothing else. |
| `ChineseDate.FormatLayout` | packages/nextjs/app/blockexplorer/_components/FormatChineseDate.tsx:2-8 | The output is exactly Y, 年, M, 月, D, 日, one space, h, 时, m, 分, s, 秒, in that order. M is the padded month plus one and the other fields are the padded components. |
| `ChineseDate.ParseAtOffsets` | packages/nextjs/app/blockexplorer/_components/FormatChineseDate.tsx:8 | Reading a text laid out at those offsets depends only on the year text and the five fields. |
| `ChineseDate.FormatRoundTrip` | packages/nextjs/app/blockexplorer/_components/FormatChineseDate.tsx:2-8 | Inside the calendar ranges, every component reads back from the output. The ranges are month 0..11, day 1..31, hour 0..23, minute and second 0..59, and any year. The month reads back through its 1-based field. |
| `ChineseDate.FormatInjective` | packages/nextjs/app/blockexplorer/_components/FormatChineseDate.tsx:2-8 | Two different in-range dates never produce the same text. |
| `ChineseDate.InvalidDateText` | packages/nextjs/app/blockexplorer/_components/FormatChineseDate.tsx:2-8 | An invalid date formats as `NaN年aN月aN日 aN时aN分aN秒`: the year is `NaN`, and each padded field is the last two characters of `0NaN`. |

## Left out

- How a `Date` turns an instant into local calendar components is not modelled. The six getters are inputs, because the answer depends on the host's time zone.
- JsText.ToString: writes every integer in plain decimal. JavaScript switches to exponent notation from 1e21, a magnitude no `Date` getter returns.
- Numbers are integers or NaN only, with no fractions or infinities, because `Date` getters return only integers or NaN.
- packages/nextjs/contracts/externalContracts.ts is not part of this model. It declares token, price-feed and option-market contract interfaces only, with no function bodies, so there is no behaviour to model.
- The faucet (packages/nextjs/components/scaffold-eth/Faucet.tsx, FaucetButton.tsx) is not part of this model: it is wallet and RPC I/O.
- The clipboard widget (packages/nextjs/app/CopyString.tsx) is not part of this model: it is clipboard I/O and timers.
- The page components and the back button are not part of this model: they only render and navigate.
