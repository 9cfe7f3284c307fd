# Negotiation calculator: currency mask, BRL parsing and the 20-point discount rule

`script.js` drives a two-tab page that helps negotiate overdue course
instalments. This project models its core in Dafny:

- **`CurrencyText`** (`currency_text.dfy`): the keystroke mask `mascaraMoeda`,
  which rewrites an input field as `R$ 1.234,56`, and the parser `parseBRL`,
  which reads such text back as a number (with `parseFloat`'s longest-prefix
  reading of a decimal). Amounts typed into the mask are a whole number of
  centavos (`nat`); parsed amounts are exact `real`s, and `None` is `NaN`.
  The global regular expression `/(\d)(?=(\d{3})+(?!\d))/g` is modelled by
  position: a dot goes after every digit followed by a positive multiple of
  three digits and then a non-digit or the end. A lemma shows that this is the
  lookahead's own reading.
- **`Discount`** (`discount.dfy`): the single-instalment and the
  multi-instalment computations, with their input checks in the code's order
  and their exact messages.
  - The current discount is `(course − current) / course · 100`.
  - The negotiation takes 20 percentage points off it, floored at zero.
  - What is left is applied to the overdue instalment or, in the multi mode,
    to the first instalment of the list only.
- **`NegotiationSession`** (`session.dfy`): the page state as a class.
  - The state is the instalment list `listaMensalidades` and the two cached
    results `resultadosNegociacao` and `resultadosMulti`.
  - Each button handler is a method that changes that state as the code
    does: it clears a cache on a failed check, stores the result on success,
    appends only positive amounts, and removes or clears the list.
- **`Wrappers`** (`wrappers.dfy`): the `Option` type.

The mask is proved to produce a well-formed amount for any input (in exact
arithmetic; below 2^46 reais this is also what the page computes, see
"## Left out"):
- "R$ ", a whole part grouped in threes from the right without leading zeros,
  exactly one comma and exactly two digits after it;
- with the same centavos as the digits that were typed;
- and it depends on those digits only.

`parseBRL` reads every masked text back as its centavos divided by one
hundred. Masking the mask's own output gives the same text again, because
the output's digits denote the same centavos. That makes the mask safe to
run on every keystroke.

The only discount rule in `script.js` is the 20-percentage-point reduction.
A variant that multiplies the current discount by 0.8 does not appear in the
code and is not modelled.

## Model

| member | source | states |
|---|---|---|
| CurrencyText.KeepDigits | script.js:3 | only digits survive `replace(/\D/g, '')`, and a text of digits is kept whole |
| CurrencyText.KeepDigitsConcat | script.js:3 | the digits of a concatenation are the digits of each part, in order |
| CurrencyText.KeepDigitsChar | script.js:3 | a single character survives exactly when it is a digit |
| CurrencyText.FixedTwo | script.js:4 | `(v / 100).toFixed(2)` is a canonical whole part, '.', two digits, and its digits without the point denote `v` |
| CurrencyText.ValueOf | script.js:4 | the number a digit string denotes, as `Number(v)` reads it inside `v / 100`; "" denotes 0 |
| CurrencyText.Decimal | script.js:4 | the integer part `toFixed` writes is canonical (no leading zeros, at least one digit) and denotes the number |
| CurrencyText.FixedTwoDigitsValue | script.js:4 | the digits of `(v / 100).toFixed(2)`, without the point, denote `v` centavos |
| CurrencyText.ReplaceFirst | script.js:5 | `replace` with a one-character pattern (also at line 19) keeps the length and leaves a text without that character unchanged |
| CurrencyText.ReplaceFirstAt | script.js:5 | `replace('.', ',')` rewrites only the first occurrence, leaving what precedes and follows it |
| CurrencyText.LookaheadMatchesThousandsAhead | script.js:6 | the positional test equals the lookahead `(?=(\d{3})+(?!\d))`: some k ≥ 1 triples of digits followed by a non-digit or the end |
| CurrencyText.InsertThousandsDots | script.js:6 | the replacement only inserts characters: the output is never shorter than the input |
| CurrencyText.InsertDotsOnlyDots | script.js:6 | the characters it inserts are dots: with the dots dropped, output and input agree |
| CurrencyText.InsertDotsDigitsThen | script.js:6 | dots inserted in a digit block do not depend on what follows the first non-digit (the comma stops them) |
| CurrencyText.InsertDotsSplit | script.js:6 | inside a digit block a dot separates a trailing multiple of three digits from the rest |
| CurrencyText.InsertDotsKeepsDigits | script.js:6 | the replacement adds only dots: removing them, or keeping only digits, gives the block back |
| CurrencyText.InsertDotsGrouped | script.js:6 | the dotted whole part is one to three digits followed by groups of a dot and three digits |
| CurrencyText.Mask | script.js:2-7 | for every input the mask yields a well-formed amount with exactly one comma and the typed centavos |
| CurrencyText.MaskLayout | script.js:2-8 | the masked text is "R$ ", the dotted whole reais, ',' and the two centavo digits |
| CurrencyText.InputField.constructor | script.js:2 | the input element holds the text it is given |
| CurrencyText.MascaraMoeda | script.js:2-8 | the field's new text is the mask of its old text, a well-formed amount with the same centavos |
| CurrencyText.MaskDependsOnlyOnDigits | script.js:3-7 | inputs with the same digits are masked alike |
| CurrencyText.MaskWithoutDigits | script.js:3-7 | an input with no digits is masked as "R$ 0,00" |
| CurrencyText.MaskIdempotent | script.js:2-14 | masking the masked text again leaves it unchanged |
| CurrencyText.ParseBRL | script.js:17-18 | an empty text is `NaN` |
| CurrencyText.StripWhitespace | script.js:19 | no whitespace is left, and a text without whitespace is unchanged |
| CurrencyText.RemoveFirstMarker | script.js:19 | `replace('R$', '')` removes two characters or none, and a text without '$' is unchanged |
| CurrencyText.RemoveFirstMarkerAt | script.js:19 | with no '$' before it, the first "R$" is the one removed and the rest is kept |
| CurrencyText.RemoveDots | script.js:19 | no dot is left, and a text without dots is unchanged |
| CurrencyText.MaskedTextWhitespace | script.js:19 | removing whitespace from a masked text drops only the space after "R$" |
| CurrencyText.MaskedTextDots | script.js:19 | removing the dots from a masked text leaves the whole digits, ',' and the centavos |
| CurrencyText.ParseFloat | script.js:20 | `parseFloat`: an optional sign, then the longest unsigned decimal prefix; no digit gives `NaN` |
| CurrencyText.ParseUnsigned | script.js:20 | the longest prefix of digits, then an optional '.' and digits, read as whole part plus fraction; no digit at all gives `NaN` |
| CurrencyText.ParseUnsignedReadsNumber | script.js:20 | `parseFloat` without a sign reads a number exactly when the text starts with a digit or with a point and a digit; otherwise `NaN` |
| CurrencyText.ParseFloatReadsNumber | script.js:20 | `parseFloat` reads a number exactly when one starts after the optional sign |
| CurrencyText.FractionValueBelowOne | script.js:20 | the digits after the decimal point are worth at least 0 and less than 1 |
| CurrencyText.ParseFloatSign | script.js:20 | `parseFloat` gives a value ≤ 0 after a '-' and a value ≥ 0 otherwise |
| CurrencyText.ParseFloatFixedTwo | script.js:20 | `parseFloat` reads digits, '.' and two digits as whole plus hundredths |
| CurrencyText.ParseLayout | script.js:17-20 | `parseBRL` reads "R$ ", dotted digits, ',' and two digits as the amount they show |
| CurrencyText.ParseMaskedCents | script.js:17-21 | `parseBRL` reads the mask's layout of n centavos as n / 100 |
| CurrencyText.ParseMaskRoundTrip | script.js:2-21 | `parseBRL(mascaraMoeda(s))` is the typed centavos divided by 100 |
| Discount.CurrentDiscountPct | script.js:95 | the current discount is the percentage that, taken off the course value, leaves the current instalment; with 0 < current ≤ course it lies in [0, 100) (also line 189) |
| Discount.ReducedDiscountPct | script.js:98-99 | the reduced discount is the larger of 0 and the current discount minus 20 |
| Discount.Discounted | script.js:102 | a discount in [0, 100) keeps a positive amount positive and never raises it (also line 198); no discount leaves it unchanged |
| Discount.Negotiate | script.js:95-102 | with 0 < current ≤ course and a positive overdue instalment: reduced discount in [0, current], current below 100, negotiated amount in (0, overdue] |
| Discount.NegotiateSingle | script.js:75-102 | succeeds exactly when every value parsed, all are positive and current ≤ course; otherwise the first failing check's message, in the code's order |
| Discount.SingleNegotiationBounds | script.js:95-102 | on success: current discount in [0, 100), reduced one floored at zero and at most the current, negotiated amount in (0, overdue] |
| Discount.SingleExample | script.js:95-102 | course 1000, current 800, overdue 850 give 20 %, 0 %, 850 and 850 |
| Discount.NegotiateMulti | script.js:163-202 | succeeds exactly when both values parsed, both are positive, current ≤ course and the list is non-empty; otherwise the first failing check's message; the total is the sum and the discount obtained is total minus negotiated |
| Discount.Sum | script.js:194 | the fold of positive instalments is non-negative, and positive when the list is not empty |
| Discount.SumAppend | script.js:194 | the fold's sum grows by each appended instalment |
| Discount.SumFirstAndRest | script.js:194 | the fold's sum is the first instalment plus the sum of the rest |
| Discount.SumAtLeastFirst | script.js:194 | positive instalments sum to at least the first, and strictly more when there are others |
| Discount.MultiNegotiationBounds | script.js:189-202 | with positive instalments: total ≥ first, negotiated in (0, first], discount obtained ≥ 0 |
| Discount.MultiNegotiatesFirstAsSingle | script.js:95-102 | the multi mode succeeds exactly when the single mode would on the first instalment, negotiates it to the same amount, and counts the other instalments as discount obtained |
| Discount.MultiExample | script.js:189-202 | course 1000, current 800 and instalments [850, 300] give total 1150, negotiated 850, obtained 300 |
| NegotiationSession.Session.constructor | script.js:43-45 | the page starts with an empty list and empty results |
| NegotiationSession.Session.Calculate | script.js:68-72 | the handler's outcome is the single negotiation of the three parsed fields; only the single result changes |
| NegotiationSession.Session.CalculateParsed | script.js:75-111 | a failed check empties the single result, success stores it with a negotiated amount in (0, overdue]; list and multi result unchanged |
| NegotiationSession.Session.ClearSingle | script.js:115-122 | the single result is emptied and nothing else changes |
| NegotiationSession.Session.AddInstalment | script.js:127-138 | appends the parsed amount exactly when it is a positive number, otherwise reports the message and leaves the list; results unchanged; the list stays all positive |
| NegotiationSession.Session.RemoveInstalment | script.js:152-155 | deletes exactly the instalment at the index, keeping the others in order |
| NegotiationSession.Session.SumAndNegotiate | script.js:158-162 | the handler's outcome is the multi negotiation of the two parsed fields over the list; only the multi result changes |
| NegotiationSession.Session.SumAndNegotiateParsed | script.js:163-209 | a failed check empties the multi result, success stores it with a non-negative discount obtained; list and single result unchanged |
| NegotiationSession.Session.ClearMulti | script.js:213-222 | the list and the multi result are emptied; the single result is unchanged |

## Left out

- The DOM is not modelled: field texts are method parameters, results are
  kept as computed values rather than HTML, and error messages are returned
  as `Err` values instead of being shown.
  - This covers the listeners that attach the mask to the six fields
    (script.js:11-14).
  - It covers the tab switch, which only re-displays the cached results and
    the list (script.js:48-65).
  - It covers `mostrarErro`/`limparErro` (script.js:29-40) and
    `renderListaMensalidades` (script.js:141-149).
  - It covers the clearing of input fields on add and on the clear buttons.
- `formatBRL` (script.js:24-26) depends on `Intl` number formatting, and the
  result cards round the percentages with `toFixed(2)` (script.js:106-107);
  both only present values and are left out.
- Floating point: all arithmetic is exact, over `nat` centavos in the mask and
  `real` amounts elsewhere.
- CurrencyText.MascaraMoeda: does not model the double rounding of `v / 100`
  from 2^46 reais (7 036 874 417 766 401 centavos) upwards, where the page
  writes `,02` for `,01`. It also does not model the exponential notation
  `toFixed` uses from 10^21 upwards, because the model's arithmetic is exact.
  CurrencyText.Mask, CurrencyText.MaskIdempotent and
  CurrencyText.ParseMaskRoundTrip describe the page only below that bound.
- CurrencyText.ParseBRL: `parseFloat`'s exponent part (`1e3`) and `Infinity`
  are not read. The masked texts the page produces contain neither.
- Discount.NegotiateSingle and Discount.NegotiateMulti: the formulas are
  computed in exact real arithmetic, not IEEE doubles.
- The `: 0` branch of script.js:197-199 is unreachable after the empty-list
  check, so it is not modelled.
- NegotiationSession.Session.RemoveInstalment: requires an index inside the
  list. The page only calls it with the index of a rendered item, and
  `splice` with an index outside the list is not modelled.
