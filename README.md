# Largest number in a budget document

The script reads the text of a budget document and reports the largest
dollar figure it can find in it. It looks at the text three times and keeps
one running maximum (`largest_num`) across all three passes:

1. **Inline pass.** Every number followed directly by a unit suffix
   (" hundred", "k", " thousand", "m", " million", in any letter case) is
   scaled by that suffix. "1,088.6 million" reads as 1088600000.
2. **Block pass.** The text is cut at every blank line (`"\n\n"`). A block
   that contains "($K)" or "($M)", in any letter case, scales every bare
   number in it. The leftmost such header decides.
3. **Section pass.** The text is cut at every line break followed by
   "Fund " and a digit. A section that contains " in Thousands)" or
   " in Millions)" scales its bare numbers the same way. This header is
   matched case-sensitively.

In the block and section passes, a number spelled exactly "2023", "2024" or
"2025" is taken for a year and is not scaled. Each time this guard fires
under a real unit, a counter is incremented. At the end the script reports
either "no numbers found" or the maximum.

## How the model is built

The modules follow the script's concerns:

- `Text`: characters, ASCII lower-casing, `str.replace(',', '')`.
- `Decimal`: `float(...)` read exactly.
- `Units`: the unit table `modifiers_to_numbers`.
- `NumberGrammar`: the bare-number pattern and the inline pattern.
- `Patterns`: the fixed patterns searched for or split on.
- `Scaling`:
  - the unit each piece declares;
  - `get_number`;
  - the year guard of `get_number_with_multiplier`.
- `LargestNumber`:
  - the passes, folded into one running maximum;
  - a class `NumberScan` holding the script's two pieces of mutable state, `largest_num` and `date_multiplier_override_count`;
  - `FindLargest`, which runs the three passes and chooses what to report.

Each regular expression is written out as a leftmost-first, greedy scanner
over the characters (`TokenEnd`, `MatchAt`, `MatchLength`):

- **Bare numbers.** The scanner takes the grouped integer form `d{1,3}(,ddd)+` when at least one group follows, and otherwise a plain run of digits. It then takes an optional `.d+`. `re.findall` reports the same tokens because the bare-number pattern ends in optional parts only, so the greedy choice is always the match.
- **The inline pattern.** A failed suffix could make Python's engine back off to a shorter number. Every shorter choice, however, ends right before a digit, a ',' or a '.', because it is one of these:
  - fewer digits in a run;
  - fewer comma groups;
  - the plain form instead of the grouped one;
  - a shorter fraction, or none;
  - an empty number at a digit or at '.'.

  No suffix begins with a digit, a ',' or a '.', so backing off never produces a match (`ShorterNumberTakesNoSuffix`). The scanner therefore tries the greedy number only. When no suffix follows it, the scanner moves on one character, as `re.findall` does.

Values are exact reals. `None` stands for `float('-inf')`.

A header scales only the block it sits in. For "Cost ($M)\n\n120, 340, 2024",
the header and the figures are in different blocks, so the script as written
reports 2024 with no override. It does not report 340 million. The model
follows the script (`LargestNumber.HeaderStaysInItsBlock`).

## Model

| member | source | states |
|---|---|---|
| Text.RemoveChar | main.py:49 | dropping the commas leaves no comma and never lengthens the token |
| Text.RemoveOneChar | main.py:49 | dropping the single comma of "x,y" gives x followed by y |
| Text.Lower | main.py:51 | `.lower()` keeps the length, turns each capital letter into its small letter ('K' into 'k'), leaves no capital and keeps every other character |
| Decimal.ParseDecimal | main.py:52 | `float` of a digit string is never negative (the pattern reads no sign) |
| Decimal.FractionValue | main.py:52 | the digits after the point contribute a value in [0, 1) |
| Decimal.ParseInteger | main.py:52 | a plain digit string reads as its integer value |
| Decimal.ParseFraction | main.py:52 | "i.f" reads as the integer i plus the fraction f |
| Decimal.FractionPositional | main.py:52 | the fraction equals its digits, read as an integer, over ten to the number of digits |
| Decimal.DigitsValueAppend | main.py:52 | appending digits shifts the value read so far by a power of ten |
| Units.UnitTable | main.py:30-42 | every suffix the inline pattern names, in lower case, is a key of `modifiers_to_numbers`, and every factor the table lists is above 1 |
| Units.Scaled | main.py:52-60 | scaling a non-negative value never decreases it; factor 1 keeps it |
| Units.ScaledIsProduct | main.py:52-60 | the scaled value is the product of the value and the unit factor |
| NumberGrammar.DigitRun | main.py:84 | the run measured is all digits and stops at the end or at a non-digit |
| NumberGrammar.GroupsEnd | main.py:84 | the greedy `(,ddd)+` consumes whole groups and stops where no further group starts |
| NumberGrammar.IntegerEnd | main.py:84 | an integer part is taken exactly when a digit starts there, and it has the grammar's integer form; `IntegerPartBound` states that it is the longest one |
| NumberGrammar.FractionEnd | main.py:84 | a fraction is taken exactly when '.' and a digit follow, and it has the form `.d+` |
| NumberGrammar.TokenEnd | main.py:84 | where the lookahead allows a number, the token read is non-empty and inside the text; `TokenEndIsLongest` states what it is |
| NumberGrammar.StartsNumber | main.py:84 | definition of the lookahead `(?=\d|\.\d)`; `TokenStarts` states that every token satisfies it |
| NumberGrammar.TokenEndIsLongest | main.py:84 | the token read is a token of the grammar, and no longer stretch from the same place is one: the scan is as greedy as `re` |
| NumberGrammar.IntegerPartBound | main.py:84 | no integer part at a place is longer than the one read there, and a shorter one is always followed by a digit or a comma |
| NumberGrammar.TokenIsLongest | main.py:84 | no token of the grammar at a place ends after the greedy integer part and fraction read there |
| NumberGrammar.TokenStarts | main.py:84 | every token of the grammar opens with a digit, or with '.' and a digit |
| NumberGrammar.TokenChars | main.py:84 | a token holds only digits, commas and points |
| NumberGrammar.TokenEndOfToken | main.py:84 | a token followed by a character no token contains is read whole, up to that character |
| NumberGrammar.NumberSpansFrom | main.py:84 | every reported token lies within the text from the starting point on; `SpansAreGreedy` (each is the greedy token at its start), `SpansAreOrderedTokens` (in order) and `SpansCoverStarts` (none skipped) pin down the rest |
| NumberGrammar.BareNumbers | main.py:84 | definition: the text of each span, in order; `BareNumbersAreTokens` and `NoBareNumbersIffNoDigit` state its properties |
| NumberGrammar.SpansAreOrderedTokens | main.py:84 | every reported token is a whole token of the grammar, the greedy one at its start (so the longest there, by `TokenEndIsLongest`), and the tokens come out left to right without overlapping |
| NumberGrammar.SpansAreGreedy | main.py:84 | every reported token starts where the lookahead allows a number and ends where the greedy token from there ends: "12" is one token, never "1" and "2" |
| NumberGrammar.SpansCoverStarts | main.py:84 | no place where the lookahead allows a number (a digit, or '.' followed by a digit) is skipped: each lies inside some reported token, so ".5" is read from its point |
| NumberGrammar.SpansCoverDigits | main.py:84 | no digit of the text is skipped: each lies inside some reported token |
| NumberGrammar.TokenHasDigit | main.py:84 | every token of the grammar holds a digit |
| NumberGrammar.IntegerPartStartsWithDigit | main.py:84 | an integer part opens with a digit |
| NumberGrammar.BareNumbersAreTokens | main.py:84 | each number `re.findall` returns is a grammar token holding a digit |
| NumberGrammar.NoBareNumbersIffNoDigit | main.py:84 | no number is found in a piece if and only if the piece has no digit |
| NumberGrammar.DigitRunExact | main.py:84 | a run of exactly n digits is measured as n |
| NumberGrammar.PlainIntegerEnd | main.py:84 | digits followed by neither a digit nor a comma form the plain integer part |
| NumberGrammar.FractionEndExact | main.py:84 | '.' and a maximal digit run form the whole fraction |
| NumberGrammar.PlainTokenEnd | main.py:84 | the token of a comma-free number ends after its integer digits and its fraction |
| NumberGrammar.GroupedFormFirst | main.py:84 | the grouped form is tried first and is greedy: "1,2345" gives "1,234" and "5" |
| NumberGrammar.GroupedFormSpans | main.py:84 | any "d,dddd" splits after its first comma group |
| NumberGrammar.SecondPointStartsToken | main.py:84 | a second point starts a new token: "12.34.56" gives "12.34" and ".56" |
| NumberGrammar.SecondPointSpans | main.py:84 | any "dd.dd.dd" gives the first five characters and then ".dd" |
| NumberGrammar.SuffixFrom | main.py:30 | a suffix found is spelled in the text right at the given place |
| NumberGrammar.SuffixFromMeaning | main.py:30 | a suffix found lower-cases to one of the alternatives; none is found only when no alternative is spelled there in any letter case |
| NumberGrammar.InlineSuffixAt | main.py:30 | a suffix found is non-empty and spelled in the text right at the given place |
| NumberGrammar.InlineSuffixAtMeaning | main.py:30 | a suffix found lower-cases to one of the five alternatives and to a key of the unit table; none is found only when none of them is spelled there in any letter case |
| NumberGrammar.SuffixesPrefixFree | main.py:30 | no alternative is a prefix of another, so at most one can be spelled at a place |
| NumberGrammar.InlineSuffixAtExact | main.py:30 | wherever an alternative is spelled, in any letter case, the suffix read there is exactly that spelling |
| NumberGrammar.MatchAt | main.py:30 | a match found at a place starts there, with a non-empty number and then a non-empty suffix inside the text |
| NumberGrammar.MatchAtIsMatch | main.py:30 | a match found is the greedy token at that place immediately followed by one of the suffixes |
| NumberGrammar.MatchAtExact | main.py:30 | conversely, wherever the greedy token is immediately followed by a suffix, that is the match found there |
| NumberGrammar.InlineTable | main.py:30 | the table has one entry per position, end included, and each match it records starts at its own position and ends inside the text |
| NumberGrammar.ScanFrom | main.py:30 | a scan over such a table takes matches at or after its starting position and inside the text |
| NumberGrammar.ScanTakesRecorded | main.py:30 | the scan takes only matches the table records, each at its own position |
| NumberGrammar.ScanInOrder | main.py:30 | the scan takes its matches left to right without overlapping |
| NumberGrammar.ScanCovers | main.py:30 | the scan skips no recorded match: each lies inside a match it takes |
| NumberGrammar.ScanEmpty | main.py:30 | a scan over positions that record nothing takes nothing |
| NumberGrammar.InlineSpansFrom | main.py:30 | every reported match lies at or after the starting place, its number before its suffix, inside the text |
| NumberGrammar.InlineSpansAreMatches | main.py:30 | every reported match is the greedy token at its start immediately followed by a suffix |
| NumberGrammar.InlineSpansInOrder | main.py:30 | the matches come out left to right without overlapping |
| NumberGrammar.InlineSpansCoverMatches | main.py:30 | no place where the pattern matches is skipped: each lies inside a reported match |
| NumberGrammar.InlineMatches | main.py:30 | one pair per reported match, and each number followed by its suffix is exactly the text of that match |
| NumberGrammar.InlineMatchesInText | main.py:30 | each pair is the greedy token at its match's start and the suffix right after it, and the pairs come from left to right without overlapping |
| NumberGrammar.InlineMatchesParts | main.py:30-51 | each number is a token of the grammar and each suffix lower-cases to a key of the unit table, so the lookup in `get_number` succeeds on ASCII text |
| NumberGrammar.NumberCharOpensNoSuffix | main.py:30 | a stretch that opens with a digit, ',' or '.' is no spelling of a suffix |
| NumberGrammar.ShorterNumberTakesNoSuffix | main.py:30 | backing off to a shorter number never helps the pattern: at every place before the end of the greedy token, no suffix is spelled in any letter case |
| NumberGrammar.OneInlineMatch | main.py:30 | any token followed by any spelling of a suffix is read as exactly that one match |
| NumberGrammar.TokenThenSuffix | main.py:30 | in a token followed by a suffix spelling, the number part of the pattern stops exactly where the suffix begins |
| NumberGrammar.SuffixAfterToken | main.py:30 | wherever a suffix is spelled, in any case, the suffix alternative reads exactly that spelling |
| NumberGrammar.OnlyMatch | main.py:30 | a text that is the token at its start followed by the suffix read there gives exactly that one match |
| NumberGrammar.NoDigitNoInlineMatch | main.py:30 | text without digits has no inline match |
| NumberGrammar.SuffixNeedsNoBoundary | main.py:30 | no word boundary follows the suffix: two digits, then 'm', then a letter give one match with suffix "m" (as in "10mg") |
| NumberGrammar.SuffixMAt | main.py:30 | a lone 'm' is read as the suffix "m" |
| Patterns.MatchLength | main.py:72-103 | a match found lies inside the text |
| Patterns.MatchTable | main.py:72-82 | no recorded match runs past the end of the text, and each position records the pattern's match there; `SearchFrom`, `TableSplitReassembles`, `TablePieceAt` and `TableSeparatorAt` state what the search and the split read from it |
| Patterns.SearchFrom | main.py:79 | `re.search` finds the leftmost match, with none before it, and reports none only when there is no match at all |
| Patterns.Search | main.py:79 | `re.search` reports a position where the pattern matches with no match before it, and reports nothing only when the pattern matches nowhere |
| Patterns.Pieces | main.py:72 | definition of `split`; `SplitReassembles`, `PiecesHoldNoMatch`, `PieceCount` and `PieceCountPositive` state its properties |
| Patterns.Separators | main.py:96 | there is one separator fewer than there are pieces; `SeparatorsAreMatches` states that each is a whole match |
| Patterns.Occurrences | main.py:72 | definition of the left-to-right match count; `PieceCount` ties it to the number of pieces |
| Patterns.TableSplitReassembles | main.py:72 | over any match table, the pieces with the cut-out matches between them give back the text |
| Patterns.InterleaveCons | main.py:72 | putting the separators back works piece by piece |
| Patterns.TableLengths | main.py:72 | there is one more piece than there are separators |
| Patterns.TableCountSkips | main.py:72 | positions without a match add nothing to the count |
| Patterns.TablePieceCount | main.py:72 | the pieces number one more than the matches counted left to right |
| Patterns.TablePieceAt | main.py:72 | every piece is a stretch of the text with no match starting inside it |
| Patterns.TableSeparatorAt | main.py:72 | every separator is exactly the match the table records at its position |
| Patterns.MatchOfSlice | main.py:72 | a match cut out of the text is still a whole match |
| Patterns.CutIsMatch | main.py:72 | a cut-out separator is non-empty and matches in full |
| Patterns.MatchInSlice | main.py:72 | a match inside a stretch of the text is a match of the text at the shifted position |
| Patterns.SliceHoldsNoMatch | main.py:72 | a stretch of the text where the text has no match has none either |
| Patterns.SplitReassembles | main.py:72 | splitting loses nothing: the pieces and the dropped separators, interleaved, give the text |
| Patterns.SeparatorsAreMatches | main.py:96 | every dropped separator is, on its own, one whole match of the pattern split on |
| Patterns.PiecesHoldNoMatch | main.py:72 | no piece contains a match of the pattern it was cut on |
| Patterns.PieceCount | main.py:72 | `len(text.split("\n\n"))` is the number of non-overlapping "\n\n" plus one |
| Patterns.PieceCountPositive | main.py:72 | a split always yields at least one piece |
| Patterns.PiecesAreSlices | main.py:72 | each piece is a stretch of the text |
| Patterns.BlocksJoin | main.py:72 | joining the blocks with "\n\n" gives back the text |
| Patterns.BlocksHoldNoBlankLine | main.py:72 | no block contains two consecutive line breaks |
| Patterns.InterleaveUniform | main.py:72 | interleaving with one repeated separator is joining with it |
| Patterns.TableNoCut | main.py:72 | with no match, the text stays whole |
| Patterns.TableOneCut | main.py:72 | a single match cuts the text into the part before it and the part after it |
| Patterns.SplitAtLineBreak | main.py:96 | a separator at a text's only line break splits it in two there |
| Patterns.NoLineBreakNoSplit | main.py:96 | a text without a line break is one piece |
| Patterns.FundSplitEatsDigit | main.py:96 | the split also drops the first digit of the fund number: "a\nFund 12b" gives "a" and "2b" |
| Patterns.BlockSplitExample | main.py:72 | "Cost ($M)\n\n120" splits into the header line and the figure |
| Patterns.FundAtStartNotSplit | main.py:96 | a fund heading not preceded by a line break does not split |
| Scaling.HeaderFactor | main.py:79-82 | a header match, lower-cased, is a key of the unit table, and its factor is thousands or millions according to the letter |
| Scaling.BlockHeaderKey | main.py:79-82 | a block header, lower-cased, is "($k)" or "($m)" according to its letter, in either case |
| Scaling.SectionHeaderKey | main.py:103-105 | a section header, lower-cased, is " in thousands)" when it is fourteen characters long and " in millions)" otherwise |
| Scaling.Multiplier | main.py:77-82 | a piece's factor is 1 if and only if it has no header, and is otherwise 1000 or 1000000 |
| Scaling.FirstHeaderDecides | main.py:79-82 | the leftmost header sets the unit, whatever follows it |
| Scaling.BlockHeaderExamples | main.py:79-82 | "Cost ($M)" is in millions, and in "($k) ($M)" the lower-case "($k)" decides (thousands) |
| Scaling.SectionHeaderIsCaseSensitive | main.py:103 | " in millions)" in lower case declares no unit |
| Scaling.SectionHeaderInMillions | main.py:103-105 | " in Millions)" declares millions |
| Scaling.NumberValue | main.py:49-52 | a number's face value is never negative |
| Scaling.GetNumber | main.py:47-52 | a number with a suffix is worth its face value times the factor of its lower-cased suffix, so at least its face value |
| Scaling.IgnoredYearsListed | main.py:44 | the guard's membership test accepts exactly "2023", "2024" and "2025" |
| Scaling.IsIgnoredYear | main.py:44 | definition of the membership test in `numbers_to_ignore_multiplier`; `IgnoredYearsListed` states that it accepts exactly the listed entries |
| Scaling.GuardFires | main.py:56 | definition of the guard (a listed year under a unit above 1); `GuardedValueBounds`, `CountFiresStep` and `CountFiresBound` state its effect |
| Scaling.GuardedValue | main.py:54-60 | the value returned by `get_number_with_multiplier` is never negative |
| Scaling.GuardedValueBounds | main.py:54-60 | the guarded value lies between the face value and the scaled value: the face value when the guard fires, the scaled value otherwise |
| Scaling.NumberValueOfDigits | main.py:49-52 | a comma-free digit string is worth its integer value |
| Scaling.YearValue | main.py:44 | each listed year is worth 2020 plus its last digit |
| Scaling.ValueOf2024 | main.py:44 | "2024" is worth 2024 |
| Scaling.ValueOfGrouped2024 | main.py:55 | "2,024" is worth 2024, because the comma is dropped before reading |
| Scaling.ValueWithFraction | main.py:49-52 | "1,088.6" is worth 1088.6 |
| Scaling.FractionCommaDropped | main.py:49 | dropping the comma from "1,088.6" gives "1088.6" |
| Scaling.ValueOf1088 | main.py:52 | "1088" is worth 1088 |
| Scaling.YearUnderUnitKept | main.py:56-58 | "2024" under millions fires the guard and keeps 2024 |
| Scaling.GroupedYearScaled | main.py:56 | "2,024" is not spelled as a listed year, so it is scaled to 2024000000 |
| Scaling.YearWithoutUnit | main.py:56 | without a unit the guard does not fire |
| Scaling.GetNumberMillion | main.py:47-52 | "1,088.6" with " million" is 1088600000 |
| Scaling.MillionSuffix | main.py:47-52 | " million" or "m", in any letter case, multiplies the face value by a million |
| Scaling.GetNumberUpperCase | main.py:51 | the suffix is looked up in lower case: "5" with "K" is 5000 |
| Scaling.InlineYearScaled | main.py:62-63 | inline matches bypass the year guard: "2024" with "m" is 2024000000 |
| LargestNumber.Max | main.py:87-89 | one step of the maximum is at least the new value and the old one, and is one of them |
| LargestNumber.MaxOf | main.py:62-89 | once started, the running maximum never falls below its start and ends at least at the last value folded in; `MaxOfIsMaximum` states the whole property |
| LargestNumber.MaxOfIsMaximum | main.py:85-89 | the running maximum is at least every value folded in, is one of them (or the start), and is `-inf` only if nothing was folded in |
| LargestNumber.MaxOfStep | main.py:62-66 | each number compared is one step of the fold |
| LargestNumber.MaxOfAppend | main.py:62-112 | running over two lists one after the other is running over both |
| LargestNumber.InlineValues | main.py:62-63 | one value per inline match, in order: the number's face value times the factor of its suffix, never below the face value |
| LargestNumber.GuardedValues | main.py:84-86 | one value per number |
| LargestNumber.GuardedValuesMeaning | main.py:54-60 | each value is the face value where the guard fires, and the face value times the unit everywhere else |
| LargestNumber.PieceValues | main.py:84-86 | one value per bare number of the piece; `PieceValuesMeaning` states each value |
| LargestNumber.PieceValuesMeaning | main.py:77-86 | each value of a piece is its number's face value where the guard fires, and the face value times the piece's unit everywhere else |
| LargestNumber.CountFires | main.py:56-57 | definition of the firings among a piece's numbers; `CountFiresStep` and `CountFiresBound` state its properties |
| LargestNumber.ScopeValues | main.py:76-89 | definition of a pass's values, piece after piece; `ScopeValuesAppend` and `PieceValuesInScope` state how the pieces make it up |
| LargestNumber.ScopeOverrides | main.py:76-89 | definition of a pass's firings; `TwoPiecesOverrides` and `ScanPieces` state how it grows |
| LargestNumber.Split | main.py:72-96 | definition: blocks are cut at blank lines and sections at fund headings |
| LargestNumber.AllValues | main.py:62-112 | definition of every value compared, in the order the script meets them; `ValuesNonNegative` and `LargestIsMaximum` state its properties |
| LargestNumber.LargestIn | main.py:24-112 | definition of `largest_num` at the end; `LargestIsMaximum` and `NoNumbersIffNoDigit` state its properties |
| LargestNumber.OverridesIn | main.py:43-112 | definition of the override count at the end; `FindLargest` reports it |
| LargestNumber.CountFiresStep | main.py:56-57 | each number adds one to the count exactly when the guard fires |
| LargestNumber.NumberScan.constructor | main.py:24-45 | the scan starts at `-inf` with no overrides |
| LargestNumber.NumberScan.GetNumberWithMultiplier | main.py:54-60 | returns the guarded value, and increments the override count exactly when the guard fires |
| LargestNumber.NumberScan.InlinePass | main.py:62-66 | the maximum after the inline pass folds in every inline value; the override count is untouched; the maximum never decreases |
| LargestNumber.NumberScan.Consider | main.py:87-89 | the maximum is replaced only by a larger value |
| LargestNumber.NumberScan.ScanPiece | main.py:84-89 | the maximum folds in the piece's values, and the count grows by the guard firings in the piece |
| LargestNumber.NumberScan.ScanPieces | main.py:76-89 | the maximum folds in every piece's values in order; the count grows by every firing; the maximum never decreases |
| LargestNumber.FindLargest | main.py:24-123 | reports "no numbers" exactly when the maximum over all three passes is `-inf`, and otherwise that maximum, together with the total override count |
| LargestNumber.LargestIsMaximum | main.py:62-123 | the reported number is one of the values compared and at least every one of them |
| LargestNumber.NonNegativeAppend | main.py:62-112 | non-negative value lists stay non-negative when concatenated |
| LargestNumber.ScopeValuesNonNegative | main.py:84-89 | no value of a block or section pass is negative |
| LargestNumber.ValuesNonNegative | main.py:120-123 | no value compared is negative, so the number reported is not negative |
| LargestNumber.NoDigitNoScopeValues | main.py:84 | a pass over pieces without digits produces nothing |
| LargestNumber.PieceValuesInScope | main.py:76-89 | a pass's values are those of the pieces before a piece, then that piece's, then those of the pieces after it; so no piece has more values than its pass |
| LargestNumber.ScopeValuesAppend | main.py:76-89 | a pass over two runs of pieces gives the first run's values and then the second's |
| LargestNumber.PiecesInheritNoDigit | main.py:72 | a piece holds no digit that the text does not hold |
| LargestNumber.DigitInSomePiece | main.py:72 | a digit of the text lies in one of its pieces when the separator has no digit |
| LargestNumber.NoNumbersIffNoDigit | main.py:120 | the maximum stays `-inf` if and only if the text has no digit |
| LargestNumber.ReportsNoNumbersIffNoDigit | main.py:120-123 | "No numbers found" is reported exactly for digit-free text, and any number reported is not negative |
| LargestNumber.CountFiresBound | main.py:56-57 | the guard fires at most once per number, and never when there is no unit |
| LargestNumber.HeaderStaysInItsBlock | main.py:72-89 | "Cost ($M)\n\n120" yields 120 unscaled with no override, because the header is in another block |
| LargestNumber.TwoPieces | main.py:76-89 | a pass over two pieces gives the first piece's values, then the second's |
| LargestNumber.TwoPiecesOverrides | main.py:76-89 | a pass over two pieces counts the firings of both |
| LargestNumber.HeaderBlockHasNoNumber | main.py:79-86 | the block "Cost ($M)" holds no number and no firing |
| LargestNumber.FigureBlockUnscaled | main.py:77-86 | a block of three digits is read at face value with no firing |
| LargestNumber.OneBareNumber | main.py:84 | three digits alone form one bare number |
| LargestNumber.NoHeaderWithoutParenthesis | main.py:77-82 | a block without '(' has no unit |
| LargestNumber.ValueOf120 | main.py:52-60 | "120" is worth 120 |
| LargestNumber.TenMilligrams | main.py:30 | "10mg" is read inline as ten million, with no word boundary needed after the suffix |
| LargestNumber.TenWithSuffixM | main.py:30 | "10" followed by 'm' and a character that cannot extend the number yields exactly one inline value, ten million |
| LargestNumber.InlineValuesOfOneMatch | main.py:62-63 | a text with one inline match has one inline value: the face value times the suffix's factor |
| LargestNumber.OneInlineValue | main.py:30-63 | any token followed by any spelling of a suffix gives exactly one inline value: its face value times the suffix's factor |

## Left out

- Command-line handling (main.py:7-13) and the PDF text extraction (main.py:15-22) are not modelled. The extracted text is the input of `FindLargest`.
- The timing and every `print` (main.py:16-22, 26, 65, 74, 81, 88, 91, 98, 111, 114, 116-118, 121, 123) are not modelled. The block and section counts and the override count exist only to be printed; `FindLargest` returns the override count as a value instead of printing it.
- Floating point: values are exact reals. The model ignores binary rounding in `float(...)`, in the product with the unit, and in the `:.4f` formatting, so two values that round to the same float are still told apart.
- Float overflow: a token above about 1.8e308, or a product with the unit above it, reads as `inf` in Python. The model keeps the exact value, so it never reports `inf`.
- Python's general regular-expression engine: only the five patterns the script uses are modelled, each as its own scanner.
- Unicode: `\d` is taken as the ASCII digits, and `(?i)` and `str.lower()` as ASCII case folding. Non-ASCII digits are not modelled.
- Non-ASCII case folding in the inline pattern: Python's `(?i)` also lets 'ı' (dotless i) match 'i' and 'ſ' (long s) match 's'. So "5 mıllion" and "5 thouſand" are captured at main.py:30, but `.lower()` leaves them as they are, the lookup `modifiers_to_numbers[modifier.lower()]` at main.py:51 raises `KeyError`, and the script stops. The model reads only ASCII folding, so this crash is not modelled.
- NumberGrammar.InlineMatchesParts: its promise that every suffix's lookup succeeds holds for the ASCII model only; on the text above the source fails instead.
- The inline pass's `max(largest_num, current_num)` is modelled as the same replace-if-larger step as the other passes. With exact reals the two agree, and NaN cannot occur.
