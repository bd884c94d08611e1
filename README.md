# Mixing calculator: alligation endpoint, complex-mix validator and complex-mix form

The repository is a small web application that tells a user how to mix
components of different strength (intensity) to reach a target strength.
This Dafny project models its three pieces of logic:

- **POST /simple** (`backend/routes/simple_mix.py`) is the two-component
  alligation calculator. It reads `a1`, `a2`, `m` and `S` with `float()`
  and requires `m` strictly between `a1` and `a2`. It splits `S` in the
  proportion `(a2 - m) : (m - a1)`, rejects non-positive quantities,
  rounds both quantities and reduces them to a ratio with a recursive
  `gcd`, formats them with two decimals, and re-checks the total.
  Modules: `SimpleMix` (`simple_mix.dfy`), `Euclid` (`euclid.dfy`: `gcd`
  with Python's floored `%`), `Rounding` (`rounding.dfy`: `round` and the
  `:.2f` format) and `Decimal` (`decimal.dfy`: digit strings, the decimal
  scanner behind `float()` and `parseFloat`, and whitespace trimming).
- **POST /complex** (`backend/routes/complex_mix.py`, repeated with the same logic
  in `routes/complex_mix.py`) only validates. It checks that `components`,
  `m` and `S` are present and that `m` lies strictly between the smallest
  and the largest component intensity `a`. On success it echoes the
  request. One model covers both copies: module `ComplexMix`
  (`complex_mix.dfy`), over the JSON values of module `Json`
  (`json.dfy`).
- **The complex-mix form page** (`frontend/src/pages/ComplexMixForm.jsx`)
  is modelled as class `ComplexMixForm.Form`. The class holds the
  component rows: three at first, added at the end, removed down to a
  floor of three, and edited one field at a time. It also holds the text
  fields. `Submit` runs the handler's checks in order, stops at the first
  failure with its message, and otherwise builds the request body.
  Module `ComplexMixForm` (`complex_mix_form.dfy`).

Amounts are exact reals. The simple endpoint's errors and the form's
validation errors are values of error datatypes rather than message
strings; the complex endpoint keeps its two message strings as they are. The two copies of the complex endpoint and
the form are described with their own field names. The form posts
`intensity`, `total_amount` and `desired_intensity`, while the endpoint
reads `a`, `m` and `S`. Neither side is assumed to match the other.

What the proofs establish:

- The endpoint's split of `S` is the textbook solution. It uses all of
  `S`, averages to `m`, and is in the right proportion, so in exact
  arithmetic the total-consistency check can never fire (`SolveOutcome`).
- A missing or unconvertible field gives the KeyError or conversion
  error of the first such field, in the order `a1`, `a2`, `m`, `S`
  (`ReadParams`, `SimpleMix.SimpleMix`).
- Once the four fields are read, every outcome of `/simple` is
  classified (`SolveOutcome`):
  - `m` not strictly inside the interval gives the range error;
  - `S <= 0` gives the invalid-quantities error;
  - two quantities that both round to 0 reach `gcd(0, 0)`, whose `0 % 0`
    raises;
  - everything else succeeds.
- `gcd` returns a greatest common divisor, and the reduced ratio terms
  are coprime.
- A request to the complex endpoint with a non-empty `components` list
  and with `m` and `S` present (not missing or null), and with every
  intensity and `m` a number, is accepted
  exactly when some component is weaker and some stronger than `m`
  (`AcceptedIff`). A present `S` is never range-checked
  (`TotalNeverChecked`).
- The form's validation order is stated one check at a time.
- The form's list operations keep at least three rows.

`RemoveThenAddRepeatsARank` shows that a new row is ranked by the number
of rows, not by the ranks in use. So removing a row and then adding one
can give two rows the same priority.

## Model

| member | source | states |
|---|---|---|
| Euclid.PyMod | backend/routes/simple_mix.py:7 | `a % b` floors: the remainder lies in `[0, b)` for a positive divisor (where it is the mathematical remainder) and in `(b, 0]` for a negative one |
| Euclid.PyModCongruent | backend/routes/simple_mix.py:7 | the floored remainder differs from `a` by a multiple of `b`; with its range this fixes the value Python's `%` returns for either sign of `b` |
| Euclid.Gcd | backend/routes/simple_mix.py:6-7 | `gcd` fails (ZeroDivisionError of `0 % 0`) exactly when both arguments are 0, and returns a positive value for non-negative arguments otherwise |
| Euclid.GcdIsGreatestCommonDivisor | backend/routes/simple_mix.py:6-7 | for non-negative arguments, not both 0, `gcd` divides both and every common divisor divides it |
| Euclid.GcdWithZero | backend/routes/simple_mix.py:6-7 | `gcd(n, 0) == n` and `gcd(0, n) == n` for positive `n` |
| Euclid.QuotientsByGcd | backend/routes/simple_mix.py:45-48 | dividing two non-negative numbers (not both 0) by their gcd gives exact quotients that are coprime |
| Rounding.RoundHalfEven | backend/routes/simple_mix.py:45-46 | `round(x)` is within one half of `x`, and a tie goes to the even integer |
| Rounding.RoundPositive | backend/routes/simple_mix.py:45-46 | a positive amount rounds to a non-negative integer, and to 0 exactly when it is at most one half |
| Rounding.Fixed2Denotes | backend/routes/simple_mix.py:51 | the two-decimal text of `x >= 0` reads back, whole, as `round(100x)/100`, within 0.005 of `x` |
| Rounding.Fixed2Shape | backend/routes/simple_mix.py:51 | `f"{round(x, 2):.2f}"` is digits, a point, and exactly two digits |
| Rounding.ScanCentsText | backend/routes/simple_mix.py:51 | a number of hundredths, printed with two decimals, reads back whole as that many hundredths |
| Decimal.ScanDecimal | backend/routes/simple_mix.py:13-16 | a number is scanned exactly when the text, after an optional sign, starts with a digit or with a dot and a digit; the scan never runs past the text (its value is stated by `Decimal.ScanDecimalLongest`) |
| Decimal.ScanDecimalLongest | backend/routes/simple_mix.py:13-16 | what the scanner reads is the longest prefix that is a numeral `[sign] digits [. digits]`, with that numeral's signed value; when it reads nothing, no prefix is a numeral |
| Decimal.SignedDigits | backend/routes/simple_mix.py:13-16 | an optional `+` or `-` followed by digits is a numeral whose value is the digits' value, negated after a minus |
| Decimal.SignedFixed | backend/routes/simple_mix.py:13-16 | an optional sign, digits, a dot and digits (a digit on at least one side) is a numeral of the fixed-point value, negated after a minus |
| Decimal.NatToString | backend/routes/simple_mix.py:48 | `str(n)` of a natural number is a non-empty run of digits without a leading zero (also the `${i + 1}` of frontend/src/pages/ComplexMixForm.jsx:98) |
| Decimal.DigitsValueOfNatToString | backend/routes/simple_mix.py:48 | the printed digits of `n` denote `n` again |
| Decimal.TrimStart | frontend/src/pages/ComplexMixForm.jsx:89 | the leading-whitespace part of `strip`/`trim`: the result is a suffix of the text, everything removed is whitespace, and it does not start with whitespace |
| Decimal.TrimEnd | frontend/src/pages/ComplexMixForm.jsx:89 | the trailing-whitespace part of `strip`/`trim`: the result is a prefix of the text, everything removed is whitespace, and it does not end with whitespace |
| Decimal.ScanFixedPoint | backend/routes/simple_mix.py:51 | the text `digits.digits` scans back, whole, to the value of its two digit runs |
| Decimal.TrimEmptyIffBlank | frontend/src/pages/ComplexMixForm.jsx:89 | `s.trim() === ""` exactly when every character of `s` is whitespace |
| SimpleMix.PyFloatOfString | backend/routes/simple_mix.py:13-16 | `float(str)` succeeds only on text that, after stripping, starts like a number |
| SimpleMix.PyFloatReadsNumeral | backend/routes/simple_mix.py:13-16 | `float(str)` succeeds exactly when the stripped text is, as a whole, a numeral `[sign] digits [. digits]`, and returns that numeral's value |
| SimpleMix.NegativeFieldReads | backend/routes/simple_mix.py:13-16 | `float("-2.5")` is `-2.5` |
| SimpleMix.TrailingTextRejected | backend/routes/simple_mix.py:13-16 | digits followed by a tail that starts with an ASCII character that cannot continue a Python number (not a digit, `.`, `e`, `E` or `_`) and ends with a printable ASCII character fail to convert: `float()` does not ignore trailing text |
| SimpleMix.PyFloat | backend/routes/simple_mix.py:13-16 | `float(v)` converts a number to itself and a boolean to 1 or 0, and raises for `None`, a list or an object |
| SimpleMix.ReadFloat | backend/routes/simple_mix.py:13-16 | `float(data[key])` succeeds exactly when the key is present and its value converts; otherwise a KeyError or a conversion error is reported |
| SimpleMix.ReadParams | backend/routes/simple_mix.py:13-16 | the four fields are read in the order `a1`, `a2`, `m`, `S`: the error reported is the KeyError or conversion error of the first field that is missing or does not convert; success exactly when all four convert, with the converted values |
| SimpleMix.Quantities | backend/routes/simple_mix.py:23-31 | the computed quantities add up to `S` |
| SimpleMix.QuantitiesAreSplit | backend/routes/simple_mix.py:23-31 | the endpoint's `(a2 - m) * k`, `(m - a1) * k` with `k = S / ((a2 - m) + (m - a1))` equal the textbook solution of the mixing equations |
| SimpleMix.SplitSolves | backend/routes/simple_mix.py:23-31 | the solution uses all of `S` (`x1 + x2 == S`), averages to `m` (`x1 * a1 + x2 * a2 == m * S`) and has `x1 : x2 == (a2 - m) : (m - a1)` |
| SimpleMix.SplitSign | backend/routes/simple_mix.py:34-42 | with `m` strictly between `a1` and `a2`, each quantity is positive exactly when `S` is |
| SimpleMix.ReducedRatio | backend/routes/simple_mix.py:45-48 | the gcd-reduced terms fail exactly when both rounded quantities are 0 (the ZeroDivisionError); otherwise they are proportional to the rounded quantities and coprime |
| SimpleMix.RatioTextInjective | backend/routes/simple_mix.py:48 | the text `f"{u} : {v}"` determines both terms |
| SimpleMix.Report | backend/routes/simple_mix.py:44-67 | for positive quantities: the gcd error exactly when both are at most one half; a response echoes the quantities, formats each so it reads back within 0.005, and prints a ratio `u : v` of coprime terms proportional to the rounded quantities; with an exact total only the gcd error is possible |
| SimpleMix.Fixed2ReadsBack | backend/routes/simple_mix.py:51 | `float()` of the formatted quantity succeeds and is within 0.005 of the quantity |
| SimpleMix.Solve | backend/routes/simple_mix.py:19-67 | once the fields are read, the only errors are the range, invalid-quantities, gcd and consistency errors; a response carries two quantities that add up to `S` |
| SimpleMix.SolveOk | backend/routes/simple_mix.py:19-42 | success implies `m` strictly inside the interval, `S > 0`, and quantities equal to the positive textbook solution |
| SimpleMix.SolveOutcome | backend/routes/simple_mix.py:19-60 | complete classification: outside the interval gives the range error; inside with `S <= 0` gives the invalid-quantities error; inside with `S > 0` gives the gcd error exactly when both quantities are at most one half and success otherwise; the consistency error never occurs |
| SimpleMix.BoundaryRejected | backend/routes/simple_mix.py:19-20 | `a1 == a2`, `m == a1` and `m == a2` are rejected by the range check |
| SimpleMix.SimpleMix | backend/routes/simple_mix.py:10-16 | a request with a missing or unconvertible field always gets an error, and it is a missing-key or conversion error |
| SimpleMix.WorkedExample | backend/routes/simple_mix.py:23-51 | `a1=70, a2=95, m=85, S=230` gives quantities `92, 138`, texts `"92.00"`, `"138.00"` and ratio `"2 : 3"` |
| SimpleMix.HalvesEndInModuloByZero | backend/routes/simple_mix.py:45-70 | `a1=0, a2=2, m=1, S=1` gives two quantities of one half, which both round to 0, so the request ends in the gcd error |
| ComplexMix.Intensities | backend/routes/complex_mix.py:18-19 | the comprehension together with line 19's comparisons succeeds exactly when `components` is a list whose every item is an object whose `a` is a number or boolean (the comprehension alone accepts any `a`; a non-number fails at `min(values) < m`); it gives one intensity per component, each that component's `a` |
| ComplexMix.IntensityOf | backend/routes/complex_mix.py:18 | `c['a']` yields a comparable number exactly when `c` is an object with a numeric or boolean `a`, and a number is taken as it is |
| Json.Truthy | backend/routes/complex_mix.py:14 | `not components` holds exactly for `None`, `False`, `0`, `""`, `[]` and `{}` |
| Json.Get | backend/routes/complex_mix.py:10-12 | `data.get(key)` is the stored value when the key is present, and `None` otherwise |
| Json.AsNumber | backend/routes/complex_mix.py:19 | a JSON value takes part in the comparison with numbers exactly when it is a number or a boolean, and a number as it is |
| ComplexMix.MinOf | backend/routes/complex_mix.py:19 | `min(values)` is an element of the list and at most every element |
| ComplexMix.MaxOf | backend/routes/complex_mix.py:19 | `max(values)` is an element of the list and at least every element |
| ComplexMix.ComplexMix | backend/routes/complex_mix.py:10-28 | the missing-data error exactly when `components` is falsy or `m` or `S` is absent or null; a success echoes `components`, `m` and `S` unchanged (the second copy is routes/complex_mix.py:22-40) |
| ComplexMix.StrictlyInside | backend/routes/complex_mix.py:19 | `min < m < max` holds exactly when some value is below `m` and some value is above it |
| ComplexMix.AcceptedInRange | backend/routes/complex_mix.py:14-20 | accepted exactly when present, all intensities and `m` are numbers, and `min(values) < m < max(values)` |
| ComplexMix.AcceptedIff | backend/routes/complex_mix.py:14-20 | accepted exactly when present, well formed, and some component is weaker than `m` and some is stronger (routes/complex_mix.py:26-32 in the second copy) |
| ComplexMix.ComplexMixOutcome | backend/routes/complex_mix.py:14-28 | every response is classified: the missing-data error when the presence check fails; an uncaught exception exactly when it passes but an intensity or `m` is not a number; the range error when `m` is not strictly between `min` and `max`; otherwise the echo |
| ComplexMix.EqualIntensitiesRejected | backend/routes/complex_mix.py:18-20 | one component, or components of equal intensity, are never accepted |
| ComplexMix.TotalNeverChecked | backend/routes/complex_mix.py:12-28 | replacing a present `S` by any other present value changes only the echoed `S` |
| ComplexMixForm.Apply | frontend/src/pages/ComplexMixForm.jsx:65-69 | an edit sets the named field of a row and keeps the other field |
| ComplexMixForm.ParseFloatReadsNumber | frontend/src/pages/ComplexMixForm.jsx:76-77 | the model's `parseFloat` of an integer's text, followed by anything that cannot continue a number (not a digit, a dot or an exponent mark), gives that integer |
| ComplexMixForm.ParseFloatLongest | frontend/src/pages/ComplexMixForm.jsx:76-77 | after leading whitespace, `parseFloat` gives the value of the longest prefix that is a numeral, and NaN exactly when no prefix is one |
| ComplexMixForm.Message | frontend/src/pages/ComplexMixForm.jsx:79-104 | every error message is non-empty; a row's message ends with its 1-based number `i + 1` and a full stop |
| ComplexMixForm.RowCheckPasses | frontend/src/pages/ComplexMixForm.jsx:97-104 | a row passes exactly when its intensity is non-empty and parses and, in priority mode, its priority is at least 1; a priority problem arises only in priority mode |
| ComplexMixForm.CheckFields | frontend/src/pages/ComplexMixForm.jsx:76-92 | when the fields pass, the parsed total is above 0 and both values are what `parseFloat` gives; a failure is one of the three field errors |
| ComplexMixForm.ValidatePayload | frontend/src/pages/ComplexMixForm.jsx:76-120 | a built body carries the parsed total and desired intensity, one entry per row and the mode's name; a row error names an existing row |
| ComplexMixForm.FirstFailure | frontend/src/pages/ComplexMixForm.jsx:95-105 | the reported row fails its check, every row before it passes, and no report means every row passes |
| ComplexMixForm.FirstFailureAt | frontend/src/pages/ComplexMixForm.jsx:95-105 | row `i` with problem `p` is reported exactly when it fails with `p` and every earlier row passes |
| ComplexMixForm.ComponentNamesDistinct | frontend/src/pages/ComplexMixForm.jsx:113 | different rows get different names `Komponenta i+1` |
| ComplexMixForm.BuildPayload | frontend/src/pages/ComplexMixForm.jsx:111-120 | one entry per row, named `Komponenta i+1`, with the parsed intensity and a priority present exactly in priority mode and equal to the row's; total, desired intensity and mode as given |
| ComplexMixForm.ValidateChecksTotalFirst | frontend/src/pages/ComplexMixForm.jsx:79-82 | the total-amount error is reported exactly when the total does not parse to a number above 0 |
| ComplexMixForm.ValidateChecksDesiredSecond | frontend/src/pages/ComplexMixForm.jsx:84-87 | the desired-intensity error exactly when the total passes and the desired intensity does not parse |
| ComplexMixForm.ValidateChecksUnitsThird | frontend/src/pages/ComplexMixForm.jsx:89-92 | the units error exactly when the first two checks pass and either unit is blank |
| ComplexMixForm.FieldsOkIff | frontend/src/pages/ComplexMixForm.jsx:79-92 | the three field checks pass exactly when all fields are acceptable; a field failure is one of the three field errors |
| ComplexMixForm.ValidateChecksRowsInOrder | frontend/src/pages/ComplexMixForm.jsx:94-105 | row `i` is reported with problem `p` exactly when the fields pass, row `i` fails with `p` and every earlier row passes |
| ComplexMixForm.ValidateAcceptsIff | frontend/src/pages/ComplexMixForm.jsx:79-120 | a request body is built exactly when every field and every row passes |
| ComplexMixForm.FindBadRow | frontend/src/pages/ComplexMixForm.jsx:95-105 | the loop over the rows stops at the first failing row, with its problem, or finds none |
| ComplexMixForm.KeepOthersDropsIndex | frontend/src/pages/ComplexMixForm.jsx:60 | `filter((_, i) => i !== index)` removes exactly the row at `index`, keeping the others in order, and removes nothing for an index out of range |
| ComplexMixForm.KeepOthers | frontend/src/pages/ComplexMixForm.jsx:60 | the filter shortens the list by one for an index in range, and keeps its length otherwise |
| ComplexMixForm.Form.constructor | frontend/src/pages/ComplexMixForm.jsx:33-46 | three empty rows ranked 1, 2, 3; empty text fields; standard mode; no error |
| ComplexMixForm.Form.AddComponent | frontend/src/pages/ComplexMixForm.jsx:48-56 | appends one empty row ranked one past the old number of rows; earlier rows are unchanged; at least three rows remain |
| ComplexMixForm.Form.RemoveComponent | frontend/src/pages/ComplexMixForm.jsx:58-63 | with more than three rows, removes exactly the row at `index`, keeping the order of the rest; otherwise nothing changes; never fewer than three rows |
| ComplexMixForm.Form.UpdateComponent | frontend/src/pages/ComplexMixForm.jsx:65-69 | sets one field of row `index`; the length, the other rows and the other field are unchanged |
| ComplexMixForm.Form.Submit | frontend/src/pages/ComplexMixForm.jsx:71-120 | the error is cleared, then set to the message of the first failing check with no request body; or it stays empty and the body is the one built from the fields |
| ComplexMixForm.RemoveThenAddRepeatsARank | frontend/src/pages/ComplexMixForm.jsx:48-63 | add, remove the first row, add again: the ranks are `2, 3, 4, 4` |

## Left out

- Flask wiring is not modelled: blueprints, `jsonify`, HTTP status codes
  and both `app.py` files. A request body that is not a JSON object
  (`request.json` of `None` or a list) is not modelled either; the
  handlers take the body's key-value map.
- Error responses are error kinds, not the strings built from `str(e)`.
  The `:.4f` text of the inconsistent-total message is not modelled.
- Amounts are exact reals, not IEEE doubles. So the `isinstance(x,
  float)` and `< inf` guards (`backend/routes/simple_mix.py:35-40`) always
  pass. The 0.001 tolerance is compared exactly, and `round` and `:.2f`
  are taken on the exact value.
- SimpleMix.SolveOutcome: that the consistency error never occurs holds
  in exact arithmetic only. With doubles, `x1 + x2` is rounded and can
  miss `S` by one rounding step; for `S` above about 2^43 one step exceeds
  the 0.001 tolerance, so the source can report the inconsistent total.
- Decimal.ScanDecimal: `float()` and `parseFloat` are modelled only for
  `[sign] digits [. digits]`. Exponents, `inf`/`Infinity`, `nan`,
  underscores, non-ASCII digits and non-ASCII whitespace are not
  scanned.
- Decimal.TrimEmptyIffBlank: only the six ASCII whitespace characters
  (space, tab, line feed, carriage return, vertical tab, form feed) are
  trimmed, a subset of what `str.strip` and `String.prototype.trim`
  remove. Python's `strip` and `float()` also remove the ASCII
  separators `\x1c`-`\x1f` and non-ASCII whitespace; JavaScript's
  `trim` also removes non-ASCII whitespace.
- ComplexMix.ComplexMix: an intensity or an `m` that is not a number
  (or a boolean) is modelled as an uncaught exception (status 500).
  Python would in fact order strings among themselves, and lists among
  themselves (element by element), so an all-string or all-list request
  (for example intensities `[1]` and `[3]` with `m` `[2]`) is compared,
  and can be accepted, rather than crashing in the source.
- ComplexMixForm.Form.UpdateComponent: the source copies the array but then writes into
  the row object it shares with the old state. Rows are values here, so
  that aliasing is not modelled. The method requires an index of an
  existing row, which is the only kind the page passes; any other index
  makes the source throw.
- ComplexMixForm.Form.Submit: the `fetch` of POST /api/mix/complex and the handling of
  its response (`setResult` and the server's error text) are not
  modelled. `Submit` returns the request body it would send.
- The setters of the text fields and of the mix type are plain field
  assignments and have no members of their own. Rendering is not
  modelled.
- SimpleMixForm.jsx, Home.jsx, HowItWorks.jsx, MixPieChart.jsx, the theme
  and the router are not part of this model.
