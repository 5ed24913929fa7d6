# DesCardId: card-number scorer and text scanner, in Dafny

DesCardId finds credit-card numbers in free text. This project models two
of its components.

- **`CardNumberValidator`** (`card_number_validator.dfy`, module
  `CardValidation`; Luhn arithmetic in `luhn.dfy`, module `Luhn`). It scores
  a digit string by the checks the string passes:
  - the modulus-10 (Luhn) check of ISO/IEC 7812-1, Annex B;
  - membership in the registry of providers' test numbers;
  - a provider's prefix and length;
  - a length some provider issues.

  Each check earns its weight from a mutable table with the keys `LUHN`,
  `TEST_NUMBERS`, `PROVIDERS` and `LENGTH`. A length below every provider's
  minimum or above every provider's maximum scores exactly 0. `isSurelyACreditCardNumber` is a strict
  `score > threshold` test; when no threshold is given, the validator's
  default is used. `setProbabilities` checks every key of an update before
  it changes anything. It then merges the update into the table and reports
  whether it did. The validator is a `class` whose weight table is a
  `map<string, real>` field, and `SetProbabilities` reassigns that field.
- **`TextManipulator`** (`text_manipulator.dfy`). Three pure string
  functions:
  - `extractNumberFromText`: the digits of a text, or None when it has none;
  - `getSuspectedFragments`: the maximal digit runs at the default level and
    at level 1. At level 2 it returns the maximal spans that start and end on
    a digit and hold only digits, spaces, dashes and periods.
  - `markFragment`: every left-to-right occurrence of a fragment is replaced
    by `{{fragment}[marker]}`. An empty fragment leaves the text unchanged.

`common.dfy` holds the digit predicates and the `Option` type, which stands
for JavaScript's `null`.

The implementations behind `tests/BaseTestCase.js` are not part of this
model. The behaviour modelled is the contract fixed by the two test files'
data tables, together with the rules those tables imply. The unseen
reference data is kept abstract:
- the provider prefix and length tables;
- the test-number registry;
- the default weights and the default threshold.

These are a `Defaults` value that the validator's constructor takes.
`Plausible(d)` constrains it by what the tests observe, plus non-negative
weights and well-formed length ranges from the design:
- the four default weights are non-negative and sum to 190;
- the default threshold lies in [0, 190);
- `5555555555554444` is a registered test number, matched by a provider
  named MasterCard;
- every provider's lengths lie between 4 and 19 digits, so `'123'` is below
  every provider's minimum and a 20-digit string is above every provider's
  maximum.

The Luhn check is not assumed. It is computed, and
`MasterCardTestNumberPassesLuhn` proves that MasterCard's test number
passes it.

How the fragment scan is specified. `IsFragmentation(s, gaps, frags, mode)`
says that:
- `s` is digit-free gaps interleaved with fragments;
- every fragment starts and ends on a digit and holds only characters the
  mode allows;
- every gap between two fragments holds a character no fragment may
  contain.

`FragmentationExists` and `FragmentationUnique` prove that the scan returns
the one and only such decomposition.

How marking is specified. `markFragment` is modelled as `Split` followed by
`Join`. `SplitJoin` and `SplitLeftmost` prove that the pieces join back into
the text and were found left to right without overlap. `SplitUnique` proves
that these two properties determine the pieces.

## Model

| member | source | states |
|---|---|---|
| Luhn.PassesLuhn | tests/CardNumberValidatorTest.js:30 | the modulus-10 check: a string passes if and only if it is a non-empty digit string whose rightmost digit is the complement of the total of the digits before it (taken with their last digit doubled) |
| Luhn.CheckDigit | tests/CardNumberValidatorTest.js:30 | the returned character is a digit, and appending it to any digit payload yields a string that passes the modulus-10 check |
| Luhn.CheckDigitUnique | tests/CardNumberValidatorTest.js:30 | appending a digit to a payload passes the check if and only if that digit is the payload's check digit |
| Luhn.LuhnSumAppend | tests/CardNumberValidatorTest.js:30 | the Luhn total of a concatenation is the right part's total plus the left part's total, taken with the parity shifted by the right part's length |
| Luhn.SingleDigitErrorDetected | tests/CardNumberValidatorTest.js:30 | changing exactly one digit of a number that passes the check always makes it fail |
| CardValidation.MasterCardTestNumberPassesLuhn | tests/CardNumberValidatorTest.js:30 | 5555555555554444 passes the modulus-10 check |
| CardValidation.MasterCardPassesEveryCheck | tests/CardNumberValidatorTest.js:30 | under plausible reference data, 5555555555554444 is in length range and passes all four checks (Luhn, test number, provider, length) |
| CardValidation.ScoreBounds | tests/CardNumberValidatorTest.js:28-30 | with non-negative weights, a score lies between 0 and the sum of the weights; it is 0 when the length is below every provider's minimum or above every provider's maximum, the full sum when every check passes, and positive when a check with a positive weight passes on an in-range length |
| CardValidation.DefaultScores | tests/CardNumberValidatorTest.js:28-30 | with plausible defaults, any string of at most 3 or at least 20 characters scores 0, and MasterCard's test number scores exactly 190 |
| CardValidation.ZeroScoreNeverSure | tests/CardNumberValidatorTest.js:45-48 | on a valid validator, a number scoring 0 is not surely a card, neither with a given non-negative threshold such as 0 nor with the default threshold (None) |
| CardValidation.KeysPermitted | tests/CardNumberValidatorTest.js:69-72 | the key check accepts an update if and only if every one of its keys is LUHN, TEST_NUMBERS, PROVIDERS or LENGTH |
| CardValidation.CardNumberValidator.constructor | tests/CardNumberValidatorTest.js:13-15 | a new validator is valid (exactly the four keys, a non-negative default threshold) and holds the default weights, default threshold and reference data |
| CardValidation.CardNumberValidator.CalculateProbabilityOfBeingACreditCard | tests/CardNumberValidatorTest.js:86-96 | the score is the weighted sum of the checks passed under the current table (`Score`), and exactly 0 when the length is below every provider's minimum or above every provider's maximum |
| CardValidation.CardNumberValidator.IsPossibleToBeACreditCard | tests/CardNumberValidatorTest.js:108-118 | a possible number's length is within some provider's range (a length gate only) |
| CardValidation.CardNumberValidator.IsSurelyACreditCardNumber | tests/CardNumberValidatorTest.js:131-142 | surely a card if and only if the score is strictly greater than the given threshold, or the default threshold when None is given |
| CardValidation.CardNumberValidator.SetProbabilities | tests/CardNumberValidatorTest.js:154-170 | returns true if and only if every key is permitted; then the table is the old table overridden by the update, holding every supplied pair and every untouched old pair, and it keeps exactly the four keys; otherwise nothing changes |
| CardValidation.ScoreRows | tests/CardNumberValidatorTest.js:26-32 | the scoring rows: '123' gives 0, '12345678901234567890' gives 0, 5555555555554444 gives 190 |
| CardValidation.IsSurelyRows | tests/CardNumberValidatorTest.js:43-55 | the surety rows: false for `'123'` (too short) and the 20-digit string (too long) with the default threshold and with 0; for 5555555555554444, true with the default threshold and 189.99, false with 200, 190 and 190.01 |
| CardValidation.SetProbabilitiesRows | tests/CardNumberValidatorTest.js:66-74 | the update rows on one validator return true, false, false, true, true, and the table afterwards holds exactly the pairs of the last update |
| CardValidation.ScoreAfterUpdate | tests/CardNumberValidatorTest.js:72 | after the weights are set to 80, 91, 19 and 5, MasterCard's test number scores their sum, 195 |
| TextManipulator.Digits | tests/TextManipulatorTest.js:27-32 | the digits taken from a text are all digits and no more numerous than its characters |
| TextManipulator.DigitsConcat | tests/TextManipulatorTest.js:27-32 | taking digits distributes over concatenation, so the digits keep their order and nothing else is kept |
| TextManipulator.DigitsExact | tests/TextManipulatorTest.js:26-32 | a digit string is its own digits, and a text has no digits if and only if it holds no digit character |
| TextManipulator.ExtractNumberFromText | tests/TextManipulatorTest.js:93-103 | None if and only if the text holds no digit; otherwise a non-empty all-digit string equal to the text's digits in order |
| TextManipulator.ExtractFromPieces | tests/TextManipulatorTest.js:27-32 | for digit-free text around and between all-digit pieces, the extracted number is the pieces joined, or None when they are empty |
| TextManipulator.ExtractNoDigitRow | tests/TextManipulatorTest.js:26 | 'foo bar' has no number |
| TextManipulator.ExtractOneRun | tests/TextManipulatorTest.js:27 | '12345' between any digit-free texts extracts to '12345' |
| TextManipulator.ExtractContinuousRow | tests/TextManipulatorTest.js:27 | 'foo 12345 bar' extracts to '12345' |
| TextManipulator.ExtractTwoRuns | tests/TextManipulatorTest.js:28 | '12345' and '67890' between digit-free texts extract to '1234567890' |
| TextManipulator.ExtractSpacesRow | tests/TextManipulatorTest.js:28 | 'foo 12345 67890 bar' extracts to '1234567890' |
| TextManipulator.ExtractTenDigits | tests/TextManipulatorTest.js:29-32 | the groups 123, 45, 678 and 90 between any digit-free texts extract to '1234567890' |
| TextManipulator.ExtractDashesRow | tests/TextManipulatorTest.js:29 | 'foo 123-45-678-90 bar' extracts to '1234567890' |
| TextManipulator.ExtractAlphaMixRow | tests/TextManipulatorTest.js:30-31 | 'foo 123-bla45-foo678-90 bar' extracts to '1234567890' |
| TextManipulator.ExtractSpecialCharsRow | tests/TextManipulatorTest.js:32 | 'foo 123-!@$bla45-fQ@%*(!oo678-90 bar' extracts to '1234567890' |
| TextManipulator.ModeOf | tests/TextManipulatorTest.js:47-60 | the default level and level 1 scan strictly, level 2 permissively, and every other level strictly |
| TextManipulator.NextDigit | tests/TextManipulatorTest.js:47-60 | the position returned is the first digit at or after the start, or the end of the text when no digit follows |
| TextManipulator.FragmentEnd | tests/TextManipulatorTest.js:47-60 | the span from a digit to the returned end is a fragment, and no digit can be reached past that end through separators alone |
| TextManipulator.FragmentationExists | tests/TextManipulatorTest.js:45-61 | the scan's fragments and gaps form a decomposition of the text into maximal fragments and digit-free gaps |
| TextManipulator.FragmentationUnique | tests/TextManipulatorTest.js:45-61 | any decomposition into maximal fragments and digit-free gaps is the scan's |
| TextManipulator.GetSuspectedFragments | tests/TextManipulatorTest.js:116-127 | the result is the fragment list of the text's maximal decomposition at the level's strictness, and empty if and only if the text holds no digit |
| TextManipulator.SuspectedFragmentsAre | tests/TextManipulatorTest.js:45-61 | any maximal decomposition found by other means is the function's answer |
| TextManipulator.SuspectedFragmentsNoDigitRows | tests/TextManipulatorTest.js:47-55 | 'foo bar' gives no fragment at the default level, level 1 and level 2 |
| TextManipulator.SuspectedFragmentsContinuousRows | tests/TextManipulatorTest.js:48-56 | 'foo 12345 bar' gives ['12345'] at every level; level 2 leaves the surrounding spaces out |
| TextManipulator.SuspectedFragmentsSpaceRows | tests/TextManipulatorTest.js:49-57 | 'foo 213 567 bar' gives ['213', '567'] at the default level and level 1, and ['213 567'] at level 2 |
| TextManipulator.SuspectedFragmentsPeriodRows | tests/TextManipulatorTest.js:50-54 | 'foo 2.1.3 bar' gives ['2', '1', '3'] at the default level and level 1 |
| TextManipulator.PermissiveFragments | tests/TextManipulatorTest.js:58-60 | '21-3-56-7', '21.3.56.7' and '21.3-56 7' are each a single level-2 fragment |
| TextManipulator.SuspectedFragmentsDashRow | tests/TextManipulatorTest.js:58 | at level 2, 'foo 21-3-56-7 bar' gives ['21-3-56-7'] |
| TextManipulator.SuspectedFragmentsPeriodJoinedRow | tests/TextManipulatorTest.js:59 | at level 2, 'foo 21.3.56.7 bar' gives ['21.3.56.7'] |
| TextManipulator.SuspectedFragmentsMixedRow | tests/TextManipulatorTest.js:60 | at level 2, 'foo 21.3-56 7 bar' gives ['21.3-56 7'] |
| TextManipulator.DefaultLevelIsLevelOne | tests/TextManipulatorTest.js:47-54 | the default level and level 1 give the same fragments on every text |
| TextManipulator.FragmentsKeepDigits | tests/TextManipulatorTest.js:45-61 | at every level, the fragments together hold exactly the text's digits in order; at the strict levels, joined, they are the extracted number |
| TextManipulator.Annotation | tests/TextManipulatorTest.js:76-79 | the annotation is 6 characters longer than the fragment and marker together |
| TextManipulator.SplitJoin | tests/TextManipulatorTest.js:76-79 | splitting a text around a fragment and joining the pieces with the fragment gives the text back |
| TextManipulator.SplitLeftmost | tests/TextManipulatorTest.js:79 | the pieces are found left to right: no occurrence of the fragment starts inside a piece |
| TextManipulator.SplitUnique | tests/TextManipulatorTest.js:76-79 | pieces that join into the text and were found left to right are exactly the split's pieces |
| TextManipulator.SplitWithoutOccurrence | tests/TextManipulatorTest.js:76-79 | a text without an occurrence of the fragment splits into itself |
| TextManipulator.SplitSingle | tests/TextManipulatorTest.js:76-79 | a text splits into one piece if and only if the fragment does not occur in it |
| TextManipulator.Occurrences | tests/TextManipulatorTest.js:78-79 | the count of occurrences is 0 if and only if the fragment does not occur in the text |
| TextManipulator.MarkFragment | tests/TextManipulatorTest.js:75-77 | an empty fragment leaves the text unchanged, whatever the marker |
| TextManipulator.MarkFragmentReplacesEveryOccurrence | tests/TextManipulatorTest.js:76-79 | the text is its left-to-right pieces joined by the fragment, and the marked text is the same pieces joined by the annotation, so every occurrence is replaced and nothing else changes |
| TextManipulator.MarkFragmentLength | tests/TextManipulatorTest.js:76-79 | marking k occurrences lengthens the text by k * (6 + marker length); a text without the fragment comes back unchanged |
| TextManipulator.MarkFragmentByPieces | tests/TextManipulatorTest.js:76-79 | whenever the text is some left-to-right pieces joined by the fragment, the marked text is those pieces joined by the annotation |
| TextManipulator.MarkEmptyFragmentRows | tests/TextManipulatorTest.js:75-77 | 'foo bar' with an empty fragment comes back unchanged, with marker '' and with marker 'bar' |
| TextManipulator.MarkFragmentSingleOccurrence | tests/TextManipulatorTest.js:76-78 | marking 'foo' in 'foo bar' with any marker m gives '{{foo}[' + m + ']} bar' |
| TextManipulator.MarkFragmentSingleRows | tests/TextManipulatorTest.js:76-78 | marking 'foo' in 'foo bar' gives '{{foo}[]} bar' with marker '' and '{{foo}[bar]} bar' with marker 'bar' |
| TextManipulator.MarkFragmentOverlap | tests/TextManipulatorTest.js:79 | occurrences are taken leftmost first without overlap: marking '11' in '111' with '' gives '{{11}[]}1' |
| TextManipulator.MarkFragmentRepeatedRow | tests/TextManipulatorTest.js:79 | marking 'foo' in 'foo bar foo bar' with 'bar' gives '{{foo}[bar]} bar {{foo}[bar]} bar' |

## Left out

- `tests/BaseTestCase.js` is not part of this model. The mocha/chai wiring (`describe`, `it`, `assert`, the data-provider loops) is test plumbing and is not modelled.
- CardValidation.CardNumberValidator.IsPossibleToBeACreditCard: modelled as a length gate, stating only that a possible number is in length range. Its expected rows live in `providerValidatePossibility` of the unseen `tests/BaseTestCase.js`, so no visible data fixes the exact rule.
- The concrete provider prefix and length tables, the test-number registry, the default weights and the default threshold do not appear in the test files. They are the abstract `Defaults` value, constrained only by `Plausible`.
- Scores and weights are exact `real` numbers, not IEEE doubles. The tests only compare sums and strict inequalities, where the two agree.
- `setProbabilities` checks keys but not values: any number is accepted as a weight, as the visible rows do not exercise invalid values.
- `ScoreRows` and `IsSurelyRows` each build a validator with the default weights. `SetProbabilitiesRows` applies the update rows in order to one validator, since the test rows share one instance.
- CardValidation.CardNumberValidator.CalculateProbabilityOfBeingACreditCard: the early exit to 0 covers only lengths below every provider's minimum or above every provider's maximum. A length in a gap between provider ranges (above one provider's maximum and below another's minimum) is still scored by the other checks, such as the test-number registry; the visible rows only exercise lengths 3, 16 and 20.
- TextManipulator.MarkFragment: occurrences are found leftmost first and do not overlap, as in a global left-to-right replacement; of two overlapping occurrences only the first is marked (`MarkFragmentOverlap`).
- Check levels other than `null`, 1 and 2 are not exercised by the tests. `ModeOf` treats them as strict, like level 1.
- Level-2 fragments follow the test rows, which show them trimmed to start and end on a digit (`'foo 12345 bar'` gives `'12345'` at level 2), rather than keeping the surrounding separators.
- Strings are sequences of characters; no Unicode normalisation or JavaScript UTF-16 detail is modelled. A digit is one of the characters '0' to '9'.
