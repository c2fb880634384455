# uni-rs exercises, modelled in Dafny

This project models the logic of three small command-line exercises and proves
what they promise:

- **Green bottles** (`src/bottles.rs`, `src/bottles_single.rs`): spelling a
  number below 10^15 in English words and singing the counting-down song.
  - A number is cut into three-digit groups ("segments").
  - Each non-zero group is spelled with its magnitude word ("forty-two",
    "one-hundred and fifteen", "three million").
  - The group terms are joined most significant first with ", ".
  - Verse `i` uses the capitalised spelling of `i` and the spelling of `i - 1`,
    or "no" when `i - 1` is zero.
- **Password validator** (`src/validator.rs`): a password is `TooShort`,
  `Failed` with the list of missing criteria, or `Passed`.
- **FizzBuzz** (`src/fizz_buzz.rs`): the items for 1..value joined by commas.

The two bottles files are the same algorithm. They differ only in where the
teen table lives: a lazily built global map in `src/bottles.rs`, and a map
rebuilt on every call in `src/bottles_single.rs`. One model in module
`Bottles` serves both, with the teen table as one constant map. The table
below cites lines of both files.

Files:

- `text.dfy` (module `Text`): join, split, reverse, ASCII character classes and
  capitalisation.
- `wrappers.dfy` (module `Wrappers`): `Option`.
- `bottles.dfy` (module `Bottles`): the number namer and the song.
- `validator.dfy` (module `Validator`).
- `fizz_buzz.dfy` (module `FizzBuzz`).

How the source's form is kept:

- `english_number` loops and mutates `n`, `thousand` and a vector of terms.
  It is the method `Bottles.EnglishNumber`, with a `while` loop whose
  invariants tie the terms collected so far to the specification function
  `Bottles.Spelling`.
- `validate` loops over the characters setting three flags. It is the method
  `Validator.Validate`, with a `for` loop whose invariants say what each flag
  means.
- `under_1000`, `sing_bottles`, `describe`, the FizzBuzz item closure and the
  fold are pure. They are functions.

`english_number(0)` reaches `under_1000(0, 0)` and panics at `assert_ne!(n, 0)`
(src/bottles_single.rs:71, 196), so the model requires `1 <= n`.

## Model

| member | source | states |
|---|---|---|
| `Bottles.SpecialNumsKeys` | src/bottles.rs:8-22 | The teen table has exactly the keys 11 to 19. |
| `Bottles.TablesAreTerms` | src/bottles_single.rs:56-67 | Every unit, ten, magnitude and teen word is non-empty, lower-case at both ends, and free of commas and line breaks. |
| `Bottles.UnitsAreTerms` | src/bottles.rs:25-27 | Each of the nine unit words is such a term. |
| `Bottles.TensAreTerms` | src/bottles.rs:30-32 | Each of the nine tens words is such a term. |
| `Bottles.TeensAreTerms` | src/bottles.rs:8-22 | Each teen word in the table is such a term. |
| `Bottles.ConnectorsAreClean` | src/bottles.rs:71-91 | The glue the formatting inserts ("-hundred and ", "-", " ") holds no comma and no line break, and "hundred" is a term. |
| `Bottles.TensAndUnit` | src/bottles_single.rs:96-148 | The words for the last two digits: the teen word, "tens-units", the tens or units word alone, or none when both digits are zero. Its contract is carried by `TensAndUnitLastTwoDigits`, `TensAndUnitSome`, `TensAndUnitIsTerm`, `UnitsAlone`, `TensAlone` and `TensDashUnits`. |
| `Bottles.TensAndUnitLastTwoDigits` | src/bottles.rs:41-76 | The tens-and-units words of a group depend only on its last two digits. |
| `Bottles.LastTwoDigits` | src/bottles.rs:41-68 | The units place, the tens place and the teen lookup read the same digits from n as from n % 100, and a group with last two digits below 10 has tens place 0. |
| `Bottles.TensAndUnitSome` | src/bottles.rs:43-75 | When the last two digits are not both zero, the `(None, None)` arm is not taken: some tens-and-units word exists. |
| `Bottles.TensAndUnitIsTerm` | src/bottles.rs:43-75 | When the last two digits are not both zero, their words form a term. |
| `Bottles.Under1000` | src/bottles_single.rs:70-170 | The words for one non-zero group at a magnitude, as in src/bottles.rs:38-93; the `unreachable!()` arm is asserted unreachable in its body. Its contract is carried by `Under1000Teen`, `Under1000BelowHundred`, `Under1000Hundreds`, `Under1000Magnitude` and `Under1000IsTerm`. |
| `Bottles.Under1000IsTerm` | src/bottles_single.rs:70-170 | For every group 1..999 and magnitude 0..4, the bounds under which the table indexing stays in range, the words form a non-empty term. The `unreachable!()` arm is proved unreachable. |
| `Bottles.GroupIsTerm` | src/bottles_single.rs:150-160 | For every group 1..999 at magnitude 0, the combined hundreds/tens/units words form a non-empty term. |
| `Bottles.Under1000Teen` | src/bottles_single.rs:96-102 | When the last two digits are 11..19 the group ends in the teen word. From 100 up it is "X-hundred and " followed by the teen word. |
| `Bottles.Under1000BelowHundred` | src/bottles_single.rs:105-147 | Below 100 and outside the teens, the words are the units word alone, the tens word alone, or "tens-units". |
| `Bottles.UnitsAlone` | src/bottles_single.rs:122-145 | For 1..9 the tens place is skipped and the words are the unit word alone. |
| `Bottles.TensAlone` | src/bottles_single.rs:107-144 | For a multiple of ten from 10 to 90 the words are the tens word alone. |
| `Bottles.TwoDigits` | src/bottles_single.rs:96-108 | Below 100 the teen lookup key is n itself and the tens place is n / 10. |
| `Bottles.TensDashUnits` | src/bottles_single.rs:107-143 | For 21..99 outside the multiples of ten the words are the tens word, a dash and the unit word. |
| `Bottles.Under1000Hundreds` | src/bottles_single.rs:150-160 | From 100 up, the words are "X-hundred" when the last two digits are zero. Otherwise they are "X-hundred and " followed by the words of the last two digits. |
| `Bottles.Under1000Magnitude` | src/bottles_single.rs:162-169 | Magnitude k >= 1 appends a space and the k-th magnitude word to the magnitude-0 words. |
| `Bottles.TensAndUnitExamples` | src/bottles.rs:47-75 | 7 is "seven", 40 is "forty" and 42 is "forty-two". |
| `Bottles.TeenExamples` | src/bottles.rs:41-44 | 15 is "fifteen" and 115 is "one-hundred and " followed by "fifteen". |
| `Bottles.NinetyNineExample` | src/bottles.rs:70-71 | 99 is "ninety-nine". |
| `Bottles.HundredsExamples` | src/bottles.rs:78-85 | 100 is "one-hundred" and 101 is "one-hundred and one". |
| `Bottles.LargestGroupExample` | src/bottles.rs:80-85 | 999 is "nine-hundred and " followed by "ninety-nine". |
| `Bottles.MagnitudeExamples` | src/bottles.rs:87-92 | (1, 1) is "one thousand" and (3, 2) is "three million". |
| `Bottles.SegmentsFrom` | src/bottles_single.rs:183-196 | The groups come most significant first. Every group is 1..999, so zero groups are skipped. Every magnitude is at most 4, so the loop runs at most four times. Magnitudes strictly decrease. |
| `Bottles.SegmentsFromValue` | src/bottles_single.rs:184-196 | The groups and their magnitudes add back up to the number: sum of group * 1000^magnitude. |
| `Bottles.Regroup` | src/bottles.rs:102-103 | Splitting n into n / 1000 and n % 1000 keeps its weighted value at every scale. |
| `Bottles.Segments` | src/bottles.rs:96-112 | For 1 <= n <= 999_999_999_999_999 the segments are valid, strictly decreasing in magnitude and worth exactly n. |
| `Bottles.TermsPeel` | src/bottles.rs:101-110 | One loop turn: the low group, if non-zero, is the last term. The rest come from n / 1000 at the next magnitude, which stays within bounds. |
| `Bottles.TermsLast` | src/bottles.rs:112 | After the loop, 1 <= n < 1000 and the remaining terms are the single final group at the current magnitude. |
| `Bottles.ScaleGrows` | src/bottles.rs:35 | Every magnitude from 1 up is worth at least 1000. |
| `Bottles.MaxNumberFits` | src/bottles.rs:96 | The asserted bound 999_999_999_999_999 is below 1000^5, so at most four magnitude words are ever needed. |
| `Bottles.PeelStep` | src/bottles_single.rs:184-194 | One loop turn keeps the invariant: the terms still to come from n / 1000 at the next magnitude, followed by the reverse of the pushed terms, are the whole term list. The magnitude stays at most 4. |
| `Bottles.PeelLast` | src/bottles_single.rs:196-198 | The final push followed by the reverse gives exactly the whole term list, most significant first. |
| `Bottles.SpellingJoinsTerms` | src/bottles.rs:116 | The spelling is the join with ", " of the terms of all segments from magnitude 0. |
| `Bottles.EnglishNumber` | src/bottles_single.rs:174-204 | The loop, the final push, the in-place reverse and the join yield exactly `Spelling(n)`. |
| `Bottles.JoinTermsWellPunctuated` | src/bottles_single.rs:200-203 | Joining terms with ", " gives text that starts and ends with a letter and has no line break. Every comma sits between a letter and ", " plus a letter. |
| `Bottles.Spelling` | src/bottles.rs:95-117 | Every spelling is non-empty. |
| `Bottles.SpellingWellPunctuated` | src/bottles.rs:95-117 | Every spelling has no leading, trailing or doubled comma, no empty term and no line break. |
| `Bottles.SpellingBelowThousand` | src/bottles.rs:101-112 | Below 1000 the loop does not run, and the spelling is the single group's words. |
| `Bottles.SegmentsExamples` | src/bottles.rs:100-110 | 1000 and 1_000_000 have one segment each. 1001 has two. |
| `Bottles.SpellingExamples` | src/bottles.rs:112-116 | 1000 is "one thousand" and 1001 is "one thousand, one". |
| `Bottles.SpellingOneTwoExample` | src/bottles.rs:112-116 | 1 is "one" and 2 is "two". |
| `Bottles.SpellingMillionExample` | src/bottles_single.rs:189-191 | 1_000_000 is "one million": the two zero groups leave no term. |
| `Bottles.CapitalisedSpelling` | src/bottles_single.rs:221-228 | The capitalised spelling is non-empty, so the `unwrap` cannot fail. It starts with an upper-case letter and has no line break. |
| `Bottles.CountPiecesAreOneLine` | src/bottles.rs:141-147 | The text around the counts (" green bottles", "There'll be ") has no line break. |
| `Bottles.FixedLinesAreOneLine` | src/bottles.rs:142-146 | The three fixed lines of the verse have no line break. |
| `Bottles.TemplateSplits` | src/bottles.rs:140-150 | With counts free of line breaks, the verse template splits into exactly its eight lines. |
| `Bottles.VerseTextStart` | src/bottles.rs:140-150 | A verse starts with the first character of its current count. |
| `Bottles.VerseHasEightLines` | src/bottles_single.rs:212-241 | Verse i is eight lines. Lines 1 and 3 hold the capitalised spelling of i. Line 7 holds the spelling of i - 1, or "no" when i is 1. The verse starts with an upper-case letter. |
| `Bottles.NextWord` | src/bottles_single.rs:213-219 | The next count is "no" for 1 and the spelling of i - 1 otherwise. |
| `Bottles.VerseText` | src/bottles_single.rs:231-241 | The verse template with the current count substituted twice and the next count once. Its contract is carried by `TemplateSplits` and `VerseTextStart`. |
| `Bottles.Verse` | src/bottles_single.rs:212-241 | The verse for i: the template with the capitalised spelling of i and the next count. Its contract is carried by `VerseHasEightLines`. |
| `Bottles.Countdown` | src/bottles_single.rs:210-242 | One verse per number, n of them, from n down to 1. `CountdownTail` carries the order. |
| `Bottles.SingBottles` | src/bottles_single.rs:208-245 | The verses joined by a blank line. Its contract is carried by `SongUnfolds`, `CountdownTail` and `VerseHasEightLines`. |
| `Bottles.CountdownTail` | src/bottles.rs:120-151 | The verses run from n down to 1: the first is the verse for n, and the rest are the countdown from n - 1. |
| `Bottles.SongUnfolds` | src/bottles.rs:119-154 | The song for 0 is empty and the song for 1 is one verse. For n >= 2 it is the verse for n, a blank line, then the song for n - 1. So it has exactly n verses. |
| `Bottles.VerseOneExample` | src/bottles.rs:123-150 | Verse 1 counts "One" down to "no". |
| `Bottles.VerseTwoExample` | src/bottles.rs:123-150 | Verse 2 counts "Two" down to "one". |
| `Bottles.SongOfTwo` | src/bottles_single.rs:208-245 | The song for 2 is the "Two"/"one" verse, a blank line, and the "One"/"no" verse. |
| `Text.ToUpper` | src/bottles_single.rs:227 | Upper-casing turns an ASCII lower-case letter into the matching upper-case letter and leaves other characters alone. |
| `Text.Capitalised` | src/bottles.rs:132-138 | Only the first character changes. A lower-case first letter becomes upper-case, and lower-casing gives it back. |
| `Text.Join` | src/bottles.rs:116 | The elements in order with the separator between neighbours, "" for none. Its contract is carried by `JoinCons`, `JoinSnoc` and `SplitJoin`. |
| `Text.JoinCons` | src/bottles.rs:153 | Joining x before a non-empty list puts one separator after x. |
| `Text.JoinSnoc` | src/bottles_single.rs:203 | Joining a non-empty list followed by x puts one separator before x. |
| `Text.SplitJoin` | src/fizz_buzz.rs:16-20 | Splitting the join of separator-free pieces at the separator gives back the pieces. |
| `Text.Reversed` | src/bottles.rs:114 | The terms in reverse order. Its contract is carried by `ReversedAt` and `ReversedSnoc`. |
| `Text.ReversedAt` | src/bottles.rs:114 | Position k of the reversed terms holds position \|s\| - 1 - k of the original. |
| `Text.ReversedSnoc` | src/bottles_single.rs:196-198 | Reversing after a push puts the pushed term first. |
| `Validator.Describe` | src/validator.rs:13-19 | Each criterion has its own phrase, and the phrase reads back as that criterion. |
| `Validator.Validate` | src/validator.rs:28-69 | The result is `Classify(password)`. The flag loop computes "some character is lower-case / upper-case / a digit". |
| `Validator.MissingExactly` | src/validator.rs:51-61 | A criterion is in the failure list exactly when no character meets it. The list is strictly in the order lower-case, upper-case, digit, so it has no duplicates and at most three entries. |
| `Validator.PassedIff` | src/validator.rs:63-68 | `Passed` exactly when the length is at least 8 and all three criteria are met. `TooShort` exactly when the length is below 8, whatever the characters. `Failed` always carries a non-empty list. |
| `Validator.ClassifyExamples` | src/validator.rs:29-31 | "abc" is `TooShort`, "abcdefgh" is `Failed([UppercaseChar, Digit])` and "Abcdefg1" is `Passed`. |
| `FizzBuzz.DivisibleByFifteen` | src/fizz_buzz.rs:5-10 | Both pushes happen exactly when 15 divides i: 15 divides i if and only if 3 and 5 both do. |
| `FizzBuzz.Item` | src/fizz_buzz.rs:3-15 | "FizzBuzz" when 15 divides i, "Fizz" when only 3 does, "Buzz" when only 5 does, otherwise the decimal digits of i. An item is never empty and has no comma. |
| `FizzBuzz.Decimal` | src/fizz_buzz.rs:12 | The decimal spelling is non-empty, all digits, and has no leading zero. |
| `FizzBuzz.DecimalHasNoComma` | src/fizz_buzz.rs:12 | A decimal spelling holds no comma. |
| `FizzBuzz.DecimalRoundTrip` | src/fizz_buzz.rs:11-13 | Reading the decimal spelling back gives the number. |
| `FizzBuzz.Items` | src/fizz_buzz.rs:2-15 | `value` items, the k-th being the item for k + 1. |
| `FizzBuzz.FoldWithCommas` | src/fizz_buzz.rs:16 | The fold that appends each item and then a comma. Its contract is carried by `FoldIsJoinPlusComma`. |
| `FizzBuzz.FoldIsJoinPlusComma` | src/fizz_buzz.rs:16 | For any non-empty list of items, appending each item and a comma is the items joined by "," plus one trailing comma. |
| `FizzBuzz.FizzBuzz` | src/fizz_buzz.rs:1-21 | For value >= 1 the result is the items for 1..value joined by ",": truncating removes exactly the trailing comma. |
| `FizzBuzz.FizzBuzzFields` | src/fizz_buzz.rs:16-20 | Splitting the result at commas gives back exactly the value items. So there are value - 1 commas, no empty field and no trailing comma. |
| `FizzBuzz.ItemsExamples` | src/fizz_buzz.rs:4-14 | The items for 1..5 are 1, 2, Fizz, 4, Buzz. |
| `FizzBuzz.FizzBuzzItemExamples` | src/fizz_buzz.rs:5-10 | Among the items for 1..20, item 15 is FizzBuzz and item 20 is Buzz. |

## Left out

- The `main` functions of all four programs, and `src/lib.rs` (`input`, `MainResult`). They only print, read standard input, or box errors. The validator's retry loop is console I/O.
- How the teen table is built: the `lazy_static` global and the per-call `HashMap`. Both are one constant map here. Their initialisation has no observable effect.
- Unicode: `is_lowercase`, `is_uppercase`, `is_digit(10)` and `to_uppercase` are modelled as ASCII ranges. `to_uppercase` of a non-ASCII first letter, which may give several characters, is not modelled.
- `Validator.Validate`: `password.len()` counts bytes. The model counts characters, which is the same for ASCII passwords only.
- Fixed-width integers: the model uses unbounded naturals. Inside the asserted bound of 999_999_999_999_999 no `usize` arithmetic in the number namer overflows, so nothing is lost.
- `Bottles.EnglishNumber`: 0 and numbers above the bound panic in the source. The model excludes them with a precondition instead of modelling the panic.
- `Bottles.SingBottles`: requires `n <= MaxNumber`. For larger n, `sing_bottles` panics in the assert of `english_number(n)` (src/bottles.rs:96, 131). The panic is not modelled.
- `FizzBuzz.FizzBuzz`: value 0 makes `out.len() - 1` underflow. In a debug build that panics. In a release build it wraps to `usize::MAX`, the `truncate` does nothing, and `fizz_buzz(0)` returns "". The model requires value >= 1 and models neither outcome.
- Vectors the source reverses or truncates in place are local values here: `terms` in `english_number`, and `out` in `fizz_buzz`. They are reassigned sequences. No other code can observe them.
