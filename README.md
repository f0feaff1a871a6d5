# Paystub contribution extractor

A Dafny model of `extractContributions` in `src/utils/parsePaystub.ts`. The
function turns the text of a pay stub into an ordered list of contribution
records. It works in three steps:

1. It resolves the pay date. "Check Date" comes first, then "Period End
   Date", then the processing date.
2. It tries each pattern of a fixed five-entry catalogue once, in order. For
   each one that matches, it pushes a record with the amount on the
   employee or the employer side.
3. It pushes a zero "Roth 401k" placeholder when nothing matched.

The model has six modules:

- `Outcomes` (outcomes.dfy): the `Option` and `Result` datatypes the other
  modules return.
- `Text` (text.dfy): the character classes of JavaScript regular expressions
  without the `u` flag. It also holds greedy runs (`RunEnd`) and
  case-insensitive title matching (`LabelAt`).
- `Amounts` (amounts.dfy): the conversion
  `parseFloat(m[1].replace(/,/g, ''))`, carried out on integer cents.
- `Search` (search.dfy): the two searches the backtracking matcher makes.
  One is the leftmost start position that succeeds. The other is the longest
  stretch a greedy `[^\n]*` can take.
- `Patterns` (patterns.dfy): the seven regular expressions and what
  `text.match(regex)` returns for them.
  - Each expression has two descriptions. A ghost predicate lists every way
    the expression can match (`RegexMatchAt`, `ChosenMatch`). A function
    scans as the matcher does (`MatchAt`, `FirstMatch`).
  - The lemmas prove the two descriptions agree.
- `Paystub` (paystub.dfy): the records and the catalogue. `PayDate` and
  `Extract` are specification functions.
  - The imperative methods `ExtractContributions`, `ResolvePayDate` and
    `PushMatches` reassign `payDate` and push onto `contributions` as the
    source does. Each is proved equal to its specification function.
  - The properties of the result are lemmas about those functions.

Amounts are `nat` cents. The JavaScript `Date` conversion is a parameter
`toIsoDate: string -> Option<string>`: it gives the `toISOString()` text of
the captured date, or `None` where that date is invalid. The processing
moment is a parameter `now`, the ISO text of `new Date()`.

Behaviour of the code that the model keeps:

- **Invalid dates.** An invalid captured date makes `toISOString` throw a
  `RangeError` (src/utils/parsePaystub.ts:57, 60), so the whole call fails.
  The model returns `Err(captured text)` there.
- **Processing date.** Without a date label the pay date comes from the
  clock, so two runs on the same text agree only for the same `now`.
- **HSA EMPLOYER amounts.** In `/HSA EMPLOYER[^\n]*\s+-?([\d,]+\.\d{2})/i`
  the greedy `[^\n]*` takes the rest of the title's line and gives back one
  character at a time. Because `\s` matches a line break, `\s+` can then
  carry the amount onto a following line. On "HSA EMPLOYER 10.00\n30.00" the
  amount captured is "30.00", not the "10.00" on the title's own line.

## Model

| member | source | states |
|---|---|---|
| Search.FirstSomeSpec | src/utils/parsePaystub.ts:72 | the matcher, advancing its start position, stops at the first start that succeeds, and finds nothing only if every start fails |
| Search.LastSomeSpec | src/utils/parsePaystub.ts:68 | a greedy `*` that gives back one character at a time stops at the last position where the rest succeeds, and fails only if no position works |
| Text.RunEndSpec | src/utils/parsePaystub.ts:64-68 | a greedy `+`/`*` over a class covers only characters of the class and stops at the end of the text or at a character outside it |
| Text.RunEndIs | src/utils/parsePaystub.ts:64-68 | a run of the class that stops at a character outside it is exactly the greedy run |
| Text.SameFolding | src/utils/parsePaystub.ts:55-68 | under the model's ASCII-only fold (see Left out), two characters fold together only if they are equal or two ASCII letters; no class of the expressions can tell such characters apart |
| Text.RunEndAgrees | src/utils/parsePaystub.ts:64-68 | a greedy run depends only on which characters are in its class |
| Text.LabelAtCaseVariant | src/utils/parsePaystub.ts:64-68 | a title matched with the `i` flag is found at the same positions in every upper/lower-case variant of the text |
| Amounts.StripCommas | src/utils/parsePaystub.ts:74 | `replace(/,/g, '')` leaves no comma and never lengthens the text |
| Amounts.StripCommasAppend | src/utils/parsePaystub.ts:74 | removing commas distributes over concatenation |
| Amounts.StripCommasAmount | src/utils/parsePaystub.ts:74 | a captured amount with its commas removed is decimal text, and its point and two fraction digits are unchanged |
| Amounts.AmountTextUnsigned | src/utils/parsePaystub.ts:64-68 | the captured group never holds the optional minus sign, so no amount is negative |
| Amounts.CommaIgnored | src/utils/parsePaystub.ts:74 | a comma inserted anywhere in the whole part keeps the text a valid capture and does not change the amount |
| Amounts.ShowNatValue | src/utils/parsePaystub.ts:74 | the decimal digits of `n` are read back as `n` |
| Amounts.FormatCents | src/utils/parsePaystub.ts:64 | an amount printed as digits, a point and two digits is text the capture group `([\d,]+\.\d{2})` accepts |
| Amounts.AmountOfFormat | src/utils/parsePaystub.ts:74 | every amount in cents, printed and read back, is the same amount |
| Amounts.AmountOf | src/utils/parsePaystub.ts:74 | `parseFloat(m[1].replace(/,/g, ''))` in cents; the two fraction digits of the capture are the cents (AmountOfFormat, CommaIgnored, LeadingZeroIgnored and NoWholeDigits give its value on every capture) |
| Amounts.LeadingZeroIgnored | src/utils/parsePaystub.ts:74 | a zero put in front of a captured amount keeps it a valid capture and does not change its value ("007.50" reads as 7.50) |
| Amounts.NoWholeDigits | src/utils/parsePaystub.ts:74 | a capture with no digit before its point (",.50", read as ".50") is worth just its two fraction digits |
| Patterns.AmountAt | src/utils/parsePaystub.ts:64-67 | the tail `\s+-?([\d,]+\.\d{2})` as the matcher runs it; it succeeds only where white space follows the title (AmountAtComplete and AmountAtSplit tie it to every way the tail can match) |
| Patterns.DateAt | src/utils/parsePaystub.ts:55-59 | the date tail as the matcher runs it; a capture holds at least nine characters and ends in a year digit (DateAtComplete and DateAtSplit tie it to every way the tail can match) |
| Patterns.LineAmountAt | src/utils/parsePaystub.ts:68 | the HSA EMPLOYER tail as the matcher runs it; it succeeds wherever an amount follows the title directly (LineAmountPreferred and LineAmountComplete give its result) |
| Patterns.AmountAtComplete | src/utils/parsePaystub.ts:64-67 | the tail `\s+-?([\d,]+\.\d{2})` matches in at most one way, and the scanner finds that way with the same capture |
| Patterns.AmountAtSplit | src/utils/parsePaystub.ts:64-67 | what the amount scanner returns is a match of the tail: spaces, an optional minus, digits and commas, a point and two digits, with the group captured |
| Patterns.SplitAmountText | src/utils/parsePaystub.ts:64-68 | the group of any amount match is amount text |
| Patterns.DateAtComplete | src/utils/parsePaystub.ts:55-60 | the tail `\s+([A-Za-z]+\s+\d{1,2},\s+\d{4})` matches in at most one way, and the scanner finds it with the same capture |
| Patterns.DateAtSplit | src/utils/parsePaystub.ts:55-60 | what the date scanner returns is a match of the date tail, with the group captured |
| Patterns.LineSplitWithinLine | src/utils/parsePaystub.ts:68 | `[^\n]*` cannot reach past the end of the line the title is on |
| Patterns.LineAmountComplete | src/utils/parsePaystub.ts:68 | the HSA EMPLOYER tail `[^\n]*\s+-?([\d,]+\.\d{2})` is found whenever it can match |
| Patterns.LineAmountLongest | src/utils/parsePaystub.ts:68 | the HSA EMPLOYER scanner stops `[^\n]*` at a position from which the amount matches, and no match lets `[^\n]*` run further |
| Patterns.LineAmountPreferred | src/utils/parsePaystub.ts:68 | what the HSA EMPLOYER tail returns is the match with the longest `[^\n]*`; the `\s+` after it may carry the amount onto a following line |
| Patterns.LineAmountAtBreak | src/utils/parsePaystub.ts:68 | when the amount tail matches from the line break that ends the title's line, that amount is the one captured, whatever amounts the title's line holds |
| Patterns.LineAmountNextLine | src/utils/parsePaystub.ts:68 | on "HSA EMPLOYER 10.00\n30.00" the tail captures "30.00" from the next line |
| Patterns.PreferredLineAmountUnique | src/utils/parsePaystub.ts:68 | the match with the longest `[^\n]*` is unique and is the one returned |
| Patterns.TailAtSound | src/utils/parsePaystub.ts:55-68 | every tail returns the match backtracking tries first |
| Patterns.TailAtUnique | src/utils/parsePaystub.ts:55-68 | the match backtracking tries first is the only one a tail can return |
| Patterns.TailAtComplete | src/utils/parsePaystub.ts:55-68 | a tail fails only where it cannot match at all |
| Patterns.MatchAt | src/utils/parsePaystub.ts:55-68 | the expression tried from one start position; it succeeds only where the title is there, ignoring case |
| Patterns.MatchAtComplete | src/utils/parsePaystub.ts:72 | where the expression can match from a position, trying it there succeeds |
| Patterns.MatchAtSound | src/utils/parsePaystub.ts:72 | what trying the expression at a position returns is a match, the one backtracking tries first |
| Patterns.ChosenMatch | src/utils/parsePaystub.ts:72 | the reference meaning of `text.match`: a match from `p` that backtracking tries first, with no match from any earlier position; a chosen match is a match |
| Patterns.FirstMatch | src/utils/parsePaystub.ts:72 | `text.match(regex)` without the `g` flag; a match it returns starts at a title (FirstMatchChosen, ChosenIsFirstMatch and FirstMatchNone tie it to ChosenMatch) |
| Patterns.FirstMatchFound | src/utils/parsePaystub.ts:72 | the match `text.match` returns is what the expression gives when tried at that position |
| Patterns.FirstMatchEarlier | src/utils/parsePaystub.ts:72 | before the position `text.match` returns, the expression fails at every position |
| Patterns.FirstMatchNothing | src/utils/parsePaystub.ts:72 | `text.match` gives null only if the expression fails at every position |
| Patterns.FirstMatchChosen | src/utils/parsePaystub.ts:72 | `FirstMatch` returns the leftmost match, and from that position the one backtracking tries first |
| Patterns.NoMatchBeforeFirst | src/utils/parsePaystub.ts:72 | no match of any kind starts before the returned position |
| Patterns.ChosenMatchAt | src/utils/parsePaystub.ts:72 | at the position of the chosen match, trying the expression gives its capture |
| Patterns.ChosenIsFirstMatch | src/utils/parsePaystub.ts:72 | the match JavaScript picks is exactly what `FirstMatch` returns |
| Patterns.FirstMatchNone | src/utils/parsePaystub.ts:72-73 | `text.match` is null if and only if the expression matches nowhere |
| Patterns.FirstMatchAmountText | src/utils/parsePaystub.ts:72-74 | the group an amount expression captures is always text that `parseFloat` reads as an amount |
| Patterns.AmountAtSameButLetters | src/utils/parsePaystub.ts:64-68 | the amount tail matches identically in texts that differ only in letters |
| Patterns.AmountRunsAgree | src/utils/parsePaystub.ts:64-68 | the spaces, sign and digit runs of the amount tail end at the same places in texts that differ only in letters |
| Patterns.CaptureSameButLetters | src/utils/parsePaystub.ts:64-68 | a run of digits and commas followed by a point and two digits is captured identically in texts that differ only in letters |
| Patterns.AmountAttemptsSameButLetters | src/utils/parsePaystub.ts:68 | the amount tail succeeds at the same positions, with the same captures, in texts that differ only in letters |
| Patterns.TailAtCaseVariant | src/utils/parsePaystub.ts:64-68 | both amount tails return the same match in every case variant of the text |
| Patterns.MatchAtCaseVariant | src/utils/parsePaystub.ts:64-68 | an amount expression tried at a position gives the same result in every case variant |
| Patterns.FirstMatchCaseVariant | src/utils/parsePaystub.ts:64-68 | labels are case-insensitive: an amount expression returns the same match and capture in every case variant of the text |
| Patterns.AmountAtFormatted | src/utils/parsePaystub.ts:64 | a space followed by a printed amount is captured exactly, whatever follows it |
| Paystub.CatalogueIndex | src/utils/parsePaystub.ts:63-69 | every type except `Crypto` has exactly one catalogue entry, and `Crypto` has none |
| Paystub.CatalogueRules | src/utils/parsePaystub.ts:63-69 | each catalogue rule's side is employee for Roth 401k, After-tax 401k and HSA Employee and employer otherwise, and its type leads back to its place in the catalogue |
| Paystub.DatePart | src/utils/parsePaystub.ts:54 | `.slice(0, 10)` is a prefix of at most ten characters |
| Paystub.Convert | src/utils/parsePaystub.ts:57-60 | `new Date(captured).toISOString().slice(0, 10)`: it fails exactly when the date is invalid, reporting the captured text; otherwise it gives the first ten characters of the ISO text, or all of them if shorter |
| Paystub.PayDate | src/utils/parsePaystub.ts:54-61 | the pay date is at most ten characters, and it fails only on a captured date whose conversion fails (CheckDateFirst, PeriodEndDateSecond and ProcessingDateLast give its priority) |
| Paystub.CheckDateFirst | src/utils/parsePaystub.ts:55-58 | when "Check Date" matches, its captured date decides the pay date, whatever "Period End Date" holds |
| Paystub.PeriodEndDateSecond | src/utils/parsePaystub.ts:59-60 | when "Check Date" matches nowhere, a "Period End Date" match decides the pay date |
| Paystub.ProcessingDateLast | src/utils/parsePaystub.ts:54 | when neither date label matches, the pay date is the date part of the processing moment |
| Paystub.Credit | src/utils/parsePaystub.ts:75-80 | the pushed record carries the pay date and the rule's type, with the amount on the rule's side and zero on the other |
| Paystub.Placeholder | src/utils/parsePaystub.ts:86 | the placeholder is a well-formed zero Roth 401k record with the pay date |
| Paystub.Extract | src/utils/parsePaystub.ts:51-90 | the result of `extractContributions`: never an empty list, and an error only for a captured date whose conversion fails (ExtractShape and the lemmas after it give the rest) |
| Paystub.ReadAmount | src/utils/parsePaystub.ts:72-74 | `text.match` followed by `parseFloat` of the capture: it reads nothing exactly when the match is null (ReadingOfChosen and ReadingOfNone give the amount read) |
| Paystub.Readings | src/utils/parsePaystub.ts:71-74 | one reading per catalogue rule, in catalogue order |
| Paystub.Records | src/utils/parsePaystub.ts:71-82 | the records the `forEach`/`push` loop produces from the readings: never more than one per rule (RecordsStep, RecordsPrefix and RecordsAll give their contents and order) |
| Paystub.RecordsEmpty | src/utils/parsePaystub.ts:71-85 | the loop pushes nothing exactly when no rule read an amount, the condition for the placeholder |
| Paystub.Emitted | src/utils/parsePaystub.ts:71-82 | the records the loop pushes on a text, at most one per rule; `PushMatches` is proved equal to it and RecordsAll gives its contents |
| Paystub.ResolvePayDate | src/utils/parsePaystub.ts:54-61 | the reassignments of `payDate` through the chain of labels give the resolved pay date, or the error of an invalid captured date |
| Paystub.PushMatches | src/utils/parsePaystub.ts:71-82 | the loop over the catalogue pushes exactly the records the catalogue's readings call for, in catalogue order |
| Paystub.ExtractContributions | src/utils/parsePaystub.ts:51-90 | the whole function gives the specified result: the pushed records, or the single placeholder when none was pushed |
| Paystub.RecordsStep | src/utils/parsePaystub.ts:71-82 | one round of the loop appends the record of its own pattern if that pattern read an amount, and nothing otherwise |
| Paystub.RecordsPrefix | src/utils/parsePaystub.ts:71-82 | after `n` rounds: at most `n` records in catalogue order, each the record of its own pattern's reading, and every reading so far has its record |
| Paystub.RecordsAll | src/utils/parsePaystub.ts:63-82 | the records of the whole catalogue: at most five, in catalogue order, one for exactly each pattern that read an amount |
| Paystub.ExtractShape | src/utils/parsePaystub.ts:51-90 | the result is an error exactly when resolving the pay date is, with the same captured text; otherwise it holds one to five records in catalogue order, never `Crypto`, all with the resolved pay date, each with one side zero |
| Paystub.ExtractDistinctTypes | src/utils/parsePaystub.ts:63-82 | no type occurs twice in a result |
| Paystub.CatalogueMatch | src/utils/parsePaystub.ts:64-80 | a pattern that matches gives the record of JavaScript's match: the captured digits without commas, in cents, never negative, on its side |
| Paystub.CatalogueNoMatch | src/utils/parsePaystub.ts:72-73 | a pattern that matches nowhere gives no record of its type |
| Paystub.NoRecordOfUnread | src/utils/parsePaystub.ts:71-82 | a pattern that read nothing has no record of its type in the loop's output |
| Paystub.ReadingOfChosen | src/utils/parsePaystub.ts:72-74 | a pattern reads the amount of the match JavaScript picks |
| Paystub.ReadingOfNone | src/utils/parsePaystub.ts:72-73 | a pattern that matches nowhere reads nothing |
| Paystub.PlaceholderWhenNothingMatches | src/utils/parsePaystub.ts:84-87 | when no pattern matches, the result is exactly one zero Roth 401k record with the resolved pay date |
| Paystub.NoPlaceholderWhenSomethingMatches | src/utils/parsePaystub.ts:84-87 | when some pattern matches, the result is exactly the pushed records, with no placeholder |
| Paystub.RothAndMatchOnly | src/utils/parsePaystub.ts:64-82 | a text where only the Roth and employer-match labels are followed by amounts yields exactly two records: Roth on the employee side, then the match on the employer side |
| Paystub.RecordsFirstTwo | src/utils/parsePaystub.ts:71-82 | when only the first two patterns read amounts, the loop pushes exactly their two records, in order |
| Paystub.EmittedCaseVariant | src/utils/parsePaystub.ts:64-68 | every upper/lower-case variant of a text yields the same records |
| Paystub.RothReadBack | src/utils/parsePaystub.ts:64-80 | a Roth amount printed right after its label at the start of the text is read back as the same number of cents, as the first record, on the employee side |
| Paystub.RothFirstMatch | src/utils/parsePaystub.ts:64-72 | the Roth expression matches at position 0 of such a text and captures the printed amount |

## Left out

- Text acquisition is not part of this model: PDF text extraction through pdfjs, OCR through Tesseract, the worker set-up and the MIME dispatch in `parsePaystub` (src/utils/parsePaystub.ts:1-6, 24-49). These are foreign asynchronous library calls and I/O.
- JavaScript `Date` parsing and `toISOString` (src/utils/parsePaystub.ts:57, 60) are the parameter `toIsoDate`. Their behaviour depends on the engine and the time zone. An invalid date makes `toISOString` throw; the model returns `Err` with the captured text there.
- The clock `new Date()` (src/utils/parsePaystub.ts:54) is the parameter `now`, the ISO text it would give.
- `parseFloat` rounding to a binary float (src/utils/parsePaystub.ts:74) is not modelled. Amounts are exact integer cents.
- Text is a sequence of Unicode scalar values rather than UTF-16 code units. Every character the expressions test is in the Basic Multilingual Plane, so positions differ only where the text holds astral characters.
- Case folding under the `i` flag is modelled for ASCII letters only. Without the `u` flag nothing outside ASCII folds onto an ASCII character, so the titles, which are ASCII, are unaffected.
- Only the three tails these seven expressions use are modelled. There is no general regular-expression engine.
- The optional `fileId` of a `Contribution` (src/utils/parsePaystub.ts:21) is never set by `extractContributions`, so the record leaves it out.
- Paystub.PushMatches: the loop body reads each pattern through the function `ReadAmount` (match, then `parseFloat` of the capture) rather than spelling the two steps out inline.
- Patterns.FirstMatchCaseVariant: stated for the amount expressions only. A date expression captures the month name, whose case follows the text, so the capture of a case variant can differ.
- src/App.tsx is not part of this model. It holds the React state, persistence through `saveFiles` and the `base64ToBlob` helper, all presentation and storage glue.
- Gross and net pay, tax categories, check numbers and ESPP are not implemented by `extractContributions`, so they are not modelled.
