# deep-dishes ingredient pipeline, modelled in Dafny

This project models the text-processing core of the deep-dishes recipe
pipeline. That core turns scraped ingredient lines ("1 ½ cups all-purpose
flour, sifted") into labelled token sequences for a CRF tagger. It then turns
the tagger's BIO tags back into an ingredient dictionary. The model covers
four parts:

- **Cleaning passes.** These are the row and string functions of
  `src/data/data_cleaning_util.py` and their older copies in
  `src/data/clean_training_data.py`:
  - character folding, spelling fixes and HTML scrubbing;
  - vulgar-fraction glyphs, mixed fractions, ranges and multipliers;
  - unit abbreviations, "sprig" units, spelled-out numbers;
  - the hand-written per-row patches.
- **Training labels** (`src/features/create_training_labels.py`). `match_up`
  assigns NAME, UNIT, QTY, COMMENT, RANGE_END or OTHER to each token.
  `add_prefixes` adds the BIO prefixes.
- **Output reassembly** (`src/data/recipe2vec.py`). `smartJoin` and
  `format_ingredient_output` turn the tagged tokens back into a dictionary.
- **CRF features** (`word2features` in `src/features/create_features.py` and
  its copy in `src/features/create_training_features.py`). This builds the
  feature dictionary of one token from a five-token window.

The modules follow the program's structure:

- **Supporting modules.**
  - `Wrappers`: results and Python exceptions.
  - `Strings`: `join`, `strip`, `lower`, `replace`, `str(n)`.
  - `Numbers`: `float`, `Fraction`, `Decimal`, `round`, `unicodedata.numeric` and the printed forms of numbers.
  - `Patterns`: the regular expressions of the source, as matchers.
  - `Regex`: `search`, `findall`, `sub`.
  - `Loops`: the two `findall`/`sub` loop idioms.
  - `Scanning`: a reader that certifies "no tag left".
  - `Record`: a pandas row as a class whose cells are assigned in place.
- **Modelled operations.** `Characters`, `Markup`, `Fractions`,
  `Quantities`, `Units`, `Words`, `Patches`, `Labels`, `Reassembly` and
  `Features`.

Three kinds of code get three treatments:

- Row functions that assign `row[col]` are methods on `Record.Row`.
- String loops are methods with loop invariants.
- Each method is proved equal to a specification function. The source's
  promises are proved about that function.

Two loop idioms recur throughout:

- **Idiom A:** `for m in findall(p, s): s = re.sub(p, rep(m), s, 1)`.
- **Idiom B:** the same loop without the count.

Idiom B rewrites every match in its first round with the first match's
replacement. The model follows that exactly.

## Model

| member | source | states |
|---|---|---|
| Characters.FixCharactersRemoves | src/data/data_cleaning_util.py:17-71 | no character that any step of `fix_characters` folds or deletes is left in the result, because every replacement is plain ASCII |
| Characters.FixCharactersFolds | src/data/data_cleaning_util.py:17-71 | no dash, curly quote, no-break space or trade-mark sign survives the pass |
| Characters.ReplacementCharacterSurvives | src/data/data_cleaning_util.py:51-52 | the pass as written keeps a lone U+FFFD: its guard tests for U+FFFD but deletes "™" |
| Characters.FixCharactersIntendedRemoves | src/data/data_cleaning_util.py:51-52 | with the guard deleting what it tests for, no U+FFFD (and nothing any other step removes) is left |
| Characters.RunRemoves | src/data/data_cleaning_util.py:17-71 | in a list of replacements that only write safe characters and only remove unsafe ones, no removed character comes back later |
| Characters.FixCharacters | src/data/data_cleaning_util.py:17-71 | on a text without "+" and without digits, the pass is the per-character table: a folded character becomes its ASCII text (" ", "x", "-", "'", '"', "/", "n"), a deleted one becomes "", and every other character is kept |
| Characters.FixCharactersIntended | src/data/data_cleaning_util.py:17-71 | with the guard deleting U+FFFD, the same table with U+FFFD deleted as well |
| Characters.RunLooks | src/data/data_cleaning_util.py:17-71 | a list of one-character replacements run over a text without "+" and digits equals looking each character up through the list |
| Characters.WrittenGuardRedundant | src/data/data_cleaning_util.py:51-54 | as written, the U+FFFD guard only repeats the "™" deletion, so the pass equals the pass without it |
| Characters.LonePlusKept | src/data/data_cleaning_util.py:43-44 | a text with no two adjacent "+" keeps every "+" |
| Characters.PlusRunDeleted | src/data/data_cleaning_util.py:43-44 | a single run of two or more "+" is deleted, and the run is maximal |
| Characters.HyphenSpaced | src/data/data_cleaning_util.py:69-70 | a single digits-hyphen-word-character place gets blanks around its hyphen, and the rest of the text is kept |
| Characters.FixSpelling | src/data/data_cleaning_util.py:74-110 | a NaN cell is passed through as NaN, and a text cell stays text |
| Characters.FixSpellingUnmatched | src/data/data_cleaning_util.py:74-110 | a text in which no rule of the spelling table matches comes back unchanged |
| Characters.FixSpellingRule | src/data/data_cleaning_util.py:74-110 | when only rule j applies (the rules before it do not match the text, and the rules after it do not match its result), the pass is that rule's substitution |
| Characters.CapRuleSub | src/data/data_cleaning_util.py:76-108 | a capital-keeping rule with one match rewrites it to the first letter as found followed by the fix, and keeps the rest |
| Characters.FixSpellingCap | src/data/data_cleaning_util.py:74-110 | under the conditions of FixSpellingRule, the one misspelling found is replaced by its correct spelling, keeping the case of its first letter |
| Characters.ChipolteFixed | src/data/data_cleaning_util.py:76 | the first rule turns "Chipolte" into "Chipotle", and finds nothing more in "Chipotle" |
| Markup.CleanNytHtml | src/data/data_cleaning_util.py:113-166 | the row after the call is the specification `HtmlCleaned` of the row before, for the current revision |
| Markup.CleanHtml | src/data/clean_training_data.py:8-51 | the same for the training-data revision: spaced `\n` scan, no `\t` loop |
| Markup.HtmlCleanedShape | src/data/data_cleaning_util.py:113-166 | unit and quantity untouched; a NaN input, name or comment stays NaN; a present one ends with no tag, no `\n` (current revision: no `\t`) and no surrounding whitespace |
| Markup.HtmlColumnFrame | src/data/data_cleaning_util.py:119-165 | one column's step changes only that column, plus the comment while the input column is processed; a NaN column is skipped |
| Markup.HtmlColumnTidy | src/data/data_cleaning_util.py:146-165 | one column's step leaves that column NaN or tidy |
| Markup.AnchorRoundsSplit | src/data/data_cleaning_util.py:123-143 | each anchor round deletes the anchors from the column and, for the input column, "see recipe" from a present comment; no other cell changes |
| Markup.AnchorLoopRow | src/data/data_cleaning_util.py:124-129 | the in-place anchor loop on the row equals the specification `AnchorLoop` |
| Markup.TagLoopCloses | src/data/data_cleaning_util.py:146-149 | the `<.*?>` loop leaves no tag, whether or not it runs |
| Markup.EscapeLoopClears | src/data/data_cleaning_util.py:151-159 | a backslash-escape loop leaves no escape of its kind |
| Markup.SpacedEscapeCounts | src/data/clean_training_data.py:38-41 | the older scan `\s*\\n\s*` finds a round whenever a `\n` is present |
| Markup.TrainingKeepsTabs | src/data/clean_training_data.py:32-41 | the older revision has no `\t` loop: a text free of tags and `\n` is kept |
| Markup.ScrubLeaves | src/data/data_cleaning_util.py:146-159 | after the three loops no tag, no `\n` and (current revision) no `\t` is left |
| Markup.ScrubText | src/data/data_cleaning_util.py:146-159 | the method running the three loops computes the specification `Scrub` |
| Markup.Settle | src/data/data_cleaning_util.py:162-165 | an emptied cell becomes NaN and nothing else does |
| Markup.SettleTidy | src/data/data_cleaning_util.py:162-165 | a settled cell is tidy |
| Markup.SettleBlank | src/data/data_cleaning_util.py:162-165 | an emptied cell becomes NaN, while a whitespace-only cell becomes "" |
| Markup.CleanEpiHtml | src/data/data_cleaning_util.py:169-192 | the method equals the specification `EpiHtmlCleaned` |
| Markup.EpiHtmlTidy | src/data/data_cleaning_util.py:169-192 | the result holds no `\n`, no `\t` and no surrounding whitespace |
| Scanning.ClosedNoTag | src/data/data_cleaning_util.py:146-149 | a text that the tag reader accepts holds no match of `<.*?>` |
| Scanning.TagSubCloses | src/data/data_cleaning_util.py:149 | one `sub` of `<.*?>` by tag-neutral text leaves no tag |
| Scanning.PairSubClears | src/data/data_cleaning_util.py:151-154 | one `sub` of a two-character escape by text free of both characters leaves none |
| Scanning.PlainNoPair | src/data/data_cleaning_util.py:151-159 | a text that the plain reader accepts holds no escape pair |
| Regex.Search | src/data/data_cleaning_util.py:146 | the match found is the leftmost one from the start position; none means no position matches |
| Regex.FindAllFrom | src/data/data_cleaning_util.py:146 | `findall` reports leftmost, non-overlapping matches in order, and is empty exactly when `search` finds nothing |
| Regex.NoMatchKeeps | src/data/data_cleaning_util.py:146-149 | without a match, `findall` is empty and both kinds of `sub` leave the text as it is |
| Regex.RoundsSettle | src/data/data_cleaning_util.py:146-149 | once a round leaves no match, later rounds of the loop change nothing |
| Spoons.Counted | src/data/data_cleaning_util.py:319 | `findall` of a spoon pattern finds exactly as many matches as there are `[Tt]bsp` (or `[Tt]sp`) starts |
| Spoons.SubFirstCounts | src/data/data_cleaning_util.py:322 | one `sub(..., 1)` by "tablespoon" or "teaspoon" removes exactly one abbreviation of its kind, if there is one |
| Spoons.SpoonRoundsCount | src/data/data_cleaning_util.py:319-329 | k idiom-A rounds leave the count less k, or none |
| Spoons.SubAllClears | src/data/clean_training_data.py:139 | a `sub` with no count by a unit word removes every abbreviation of its kind and creates none of the other |
| Spoons.SpoonAlone | src/data/data_cleaning_util.py:319 | one `[Tt]bsp` (or `[Tt]sp`) with its points, the only one in the text, is the only match `findall` finds, and it takes all the points |
| Spoons.SpoonSubsClear | src/data/clean_training_data.py:136-144 | the idiom-B spoon loop leaves no abbreviation of its kind, and none of the other kind where there was none |
| Regex.SubAllRemoves | src/data/data_cleaning_util.py:149 | what a `sub` removes does not come back: a character class holding outside every match and in the replacement holds in the result |
| Loops.RepsOf | src/data/data_cleaning_util.py:204-210 | either one replacement per match, each the computed one, or the exception of some match |
| Loops.SubEachFirst | src/data/data_cleaning_util.py:233-240 | the idiom-A loop computes the specification `EachFirstOf` |
| Loops.SubEachAll | src/data/data_cleaning_util.py:204-212 | the idiom-B loop computes the specification `EachAllOf` |
| Loops.AnyFailing | src/data/data_cleaning_util.py:233-240 | an exception in the replacement of any match escapes the idiom-A loop |
| Loops.SubEachFirstWith | src/data/data_cleaning_util.py:319-322 | the idiom-A loop with a replacement that never raises computes `EachFirstWith` |
| Loops.SubEachAllWith | src/data/clean_training_data.py:136-139 | the idiom-B loop with a replacement that never raises computes `EachAllWith` |
| Loops.SubRounds | src/data/data_cleaning_util.py:146-149 | the loop with a fixed replacement computes `Rounds` with one round per match of the scan |
| Loops.OneWith | src/data/data_cleaning_util.py:319-322 | when the scan finds a single match, both idioms replace exactly that match and keep the rest |
| Loops.NoMatchLoops | src/data/data_cleaning_util.py:205 | a scan that finds nothing leaves both idioms' results unchanged |
| Numbers.GlyphValue | src/data/data_cleaning_util.py:207 | every vulgar-fraction glyph has a value strictly between 0 and 1 |
| Numbers.MixedValue | src/data/data_cleaning_util.py:207 | a whole number followed by a fraction glyph is worth strictly more than the whole number and strictly less than the next one |
| Numbers.Round2Bounds | src/data/data_cleaning_util.py:14 | half-up rounding to hundredths moves a value by at most half a hundredth, with ties going up |
| Numbers.Fixed2Denotes | src/data/data_cleaning_util.py:236-239 | the two-decimal rendering of `quantize` reads back as exactly the rounded value |
| Numbers.Quantize2 | src/data/data_cleaning_util.py:237-239 | `str(round(Decimal(x), 2))` under the half-up context of line 14 succeeds exactly below 10^26 - 0.005, where the hundredths fit 28 digits, with the two-decimal rendering; otherwise it raises InvalidOperation |
| Numbers.FloatOfFraction | src/data/data_cleaning_util.py:245 | `float(Fraction(t))` is the fraction's value when that is below the first value that rounds past the largest double, raises OverflowError above it, and ZeroDivisionError for a zero denominator |
| Numbers.Short3Denotes | src/data/data_cleaning_util.py:207-210 | `str(round(x, 3))` reads back as exactly `round(x, 3)` |
| Numbers.NumeralOfNatToString | src/data/data_cleaning_util.py:425 | reading back `str(n)` gives n |
| Numbers.DecimalOfPointed | src/features/create_training_labels.py:25 | `Decimal` reads "digits.digits" as its pointed value |
| Fractions.NumericOf | src/data/data_cleaning_util.py:207 | `unicodedata.numeric` of a glyph lies in [0, 10) |
| Fractions.CleanUnicodeFractions | src/data/data_cleaning_util.py:195-225 | the two loops compute the specification `UnicodeFractionsCleaned`, whose written values UnicodeMixedCleaned, UnicodeLoneCleaned and UnicodeOverwrite state; the older copy in src/data/clean_training_data.py (lines 54-82) has the same code and the same model |
| Fractions.UnicodeMixedCleaned | src/data/data_cleaning_util.py:204-212 | a whole number, an optional blank and a glyph, the only glyph in the text, become `str(round(whole + value, 3))` and the rest of the text is kept |
| Fractions.UnicodeLoneCleaned | src/data/data_cleaning_util.py:215-222 | a lone glyph with no digit before it becomes `str(round(value, 3))` and the rest of the text is kept |
| Fractions.UnicodeOverwrite | src/data/data_cleaning_util.py:204-212 | as written, two mixed glyph numbers both become the first one's value, because the `sub` has no count |
| Fractions.UnicodeOneThreeQuarters | src/data/data_cleaning_util.py:204-212 | "1¾" becomes "1.75" |
| Fractions.UnicodeQuarter | src/data/data_cleaning_util.py:215-222 | "¼" becomes "0.25" |
| Fractions.UnicodeOverwriteExample | src/data/data_cleaning_util.py:204-212 | "1¼ and 2½" becomes "1.25 and 1.25" |
| Fractions.UnicodeFractionsClear | src/data/data_cleaning_util.py:195-225 | on a string the pass never raises and leaves no vulgar-fraction glyph |
| Fractions.MixedGlyphRepsOk | src/data/data_cleaning_util.py:204-210 | no replacement of the mixed-number loop raises |
| Fractions.GlyphRepsFree | src/data/data_cleaning_util.py:215-222 | no replacement of the lone-glyph loop raises or holds a glyph |
| Fractions.CleanEpiUnicodeFractions | src/data/data_cleaning_util.py:431-455 | the loop computes the specification `EpiUnicodeFractionsCleaned`, including the InvalidOperation that `round` raises and nothing catches; EpiMixedCleaned, EpiLoneCleaned and EpiUnicodeFractionsClear state its results |
| Fractions.EpiMixedCleaned | src/data/data_cleaning_util.py:442-453 | a whole number, an optional blank and a glyph, the only glyph in the text, become the sum rounded half-up to two decimals and the rest of the text is kept when those hundredths fit the 28-digit decimal context; otherwise the pass raises the uncaught InvalidOperation |
| Fractions.EpiLoneCleaned | src/data/data_cleaning_util.py:442-453 | a lone glyph becomes its own value rounded to two decimals |
| Fractions.EpiHalf | src/data/data_cleaning_util.py:442-453 | "½" becomes "0.50" |
| Fractions.EpiOneThreeQuarters | src/data/data_cleaning_util.py:442-453 | "1¾" becomes "1.75" |
| Fractions.FoundCountsGlyphs | src/data/data_cleaning_util.py:442 | `findall` of `(\d+\s?)?(glyph)` finds exactly one match per glyph |
| Fractions.EpiRepsFree | src/data/data_cleaning_util.py:442-453 | the Epicurious loop's replacements are all computed exactly when every match's value fits `round`'s 28 digits, the only exception is InvalidOperation, and every replacement is a glyph-free number |
| Fractions.EpiUnicodeFractionsClear | src/data/data_cleaning_util.py:431-455 | on a string the pass returns exactly when every match's value fits `round`'s 28 digits, and otherwise raises InvalidOperation; the text it returns holds no glyph, because each idiom-A round removes exactly one |
| Fractions.MergeFractions | src/data/data_cleaning_util.py:228-249 | the loops compute the specification `FractionsMerged`, including the uncaught ZeroDivisionError, OverflowError of `float(Fraction)` and InvalidOperation of `round`; MixedFractionMerged, BareFractionMerged and MergeFractionsRaises state its results |
| Fractions.MixedFractionMerged | src/data/data_cleaning_util.py:233-247 | a mixed fraction with no digit before it and no slash around it becomes whole + numerator/denominator rounded half-up to two decimals, and the rest of the text is kept, when those hundredths fit 28 digits; a fraction past the double range raises OverflowError, and a sum whose hundredths do not fit raises InvalidOperation |
| Fractions.BareFractionMerged | src/data/data_cleaning_util.py:233-247 | a bare fraction with a one-digit numerator, no digit before it and no slash around it, is not taken by the mixed loop and becomes its value rounded half-up to two decimals |
| Fractions.MergedOneAndAHalf | src/data/data_cleaning_util.py:233-240 | "1 1/2" becomes "1.50" |
| Fractions.MergedTwelveThirds | src/data/data_cleaning_util.py:233-240 | "12/3" is read as 1 and 2/3 and becomes "1.67" |
| Fractions.MergedHalf | src/data/data_cleaning_util.py:242-247 | "1/2" becomes "0.50" |
| Fractions.MixedFractionFails | src/data/data_cleaning_util.py:236-239 | a mixed fraction's replacement raises exactly when its denominator is zero or its sum does not fit `round`; ZeroDivisionError exactly for a zero denominator, OverflowError exactly for a fraction past the double range, and no other exception than these and InvalidOperation |
| Fractions.MergeFractionsRaises | src/data/data_cleaning_util.py:228-249 | on a string the only exceptions are ZeroDivisionError, OverflowError and InvalidOperation, and ZeroDivisionError comes only from a zero denominator in a mixed fraction found or, after the mixed loop, in a bare fraction found |
| Fractions.MixedOutcomes | src/data/data_cleaning_util.py:236-239 | a mixed fraction's outcome is the sum rounded to two decimals when its hundredths fit 28 digits, OverflowError when the fraction is past the double range, and InvalidOperation otherwise |
| Fractions.FractionFails | src/data/data_cleaning_util.py:245-247 | a bare fraction's replacement raises ZeroDivisionError exactly for a zero denominator, and no other exception than that, OverflowError and InvalidOperation |
| Fractions.HugeMixedRaises | src/data/data_cleaning_util.py:233-240 | a power of ten of 27 digits or more followed by " 1/2" raises the uncaught InvalidOperation |
| Fractions.ZeroDenominatorRaises | src/data/data_cleaning_util.py:233-240 | a zero denominator in any mixed fraction found makes the pass raise, and it raises ZeroDivisionError when every earlier mixed fraction was replaced without raising |
| Fractions.MergeTrainingFractions | src/data/clean_training_data.py:98-113 | the older loops compute `TrainingFractionsMerged`, whose written values TrainingFractionMerged and TrainingOverwrite state |
| Fractions.TrainingFractionMerged | src/data/clean_training_data.py:102-112 | a whole number, white space and a one-digit fraction, with no digit before them and no slash around them, become `str(round(sum, 3))` and the rest of the text is kept |
| Fractions.TrainingOverwrite | src/data/clean_training_data.py:102-106 | as written, two mixed fractions both become the first one's value, because the `sub` has no count |
| Fractions.TrainingOneAndAHalf | src/data/clean_training_data.py:102-106 | "1 1/2" becomes "1.5" |
| Fractions.TrainingOverwriteExample | src/data/clean_training_data.py:102-106 | "1 1/2 to 2 1/4" becomes "1.5 to 1.5" |
| Fractions.TrainingFractionsRaises | src/data/clean_training_data.py:98-113 | the older revision likewise raises only ZeroDivisionError |
| Fractions.SpacedZeroRaises | src/data/clean_training_data.py:102-106 | a zero denominator in any mixed fraction the older scan finds raises ZeroDivisionError |
| Fractions.DigitZeroRaises | src/data/clean_training_data.py:108-112 | a zero denominator in any bare fraction the older second loop finds raises ZeroDivisionError |
| Quantities.MergeQuantities | src/data/data_cleaning_util.py:252-288 | the range and multiplier loops compute the specification `QuantitiesMerged`, in which only TypeError is caught, so ValueError and InvalidOperation escape; RangeMerged, MultiplierMerged and QuantitiesRaise state its results |
| Quantities.RangeMerged | src/data/data_cleaning_util.py:264-287 | a range of two whole numbers joined by `t`, `o` or `r` letters, the only numbers in the text, becomes their average rounded half-up to two decimals when those hundredths fit 28 digits, and otherwise raises InvalidOperation |
| Quantities.MultiplierMerged | src/data/data_cleaning_util.py:264-287 | a count, white space and a size with at most one point, the only numbers in the text, become the product rounded half-up to two decimals when those hundredths fit 28 digits, and otherwise raise InvalidOperation |
| Quantities.ThreeToFourPounds | src/data/data_cleaning_util.py:264-287 | "3 to 4 pounds" becomes "3.50 pounds" |
| Quantities.TwoEightAndAHalfOunce | src/data/data_cleaning_util.py:264-287 | "2 8.5-ounce" becomes "17.00-ounce" |
| Quantities.RangeRepFails | src/data/data_cleaning_util.py:267-273 | both ends of a matched range are numerals that `float` reads; the replacement is computed exactly when the mean's hundredths fit 28 digits, and otherwise raises InvalidOperation |
| Quantities.RangesRaise | src/data/data_cleaning_util.py:264-274 | the range loop raises exactly when some range's mean does not fit `round`'s 28 digits, and then InvalidOperation |
| Quantities.RangeNeedsWord | src/data/data_cleaning_util.py:264 | without a `t`, `o` or `r` between the numbers no range is averaged, so "3-4" is kept |
| Quantities.FloatOfPoints | src/data/data_cleaning_util.py:280 | a digits-and-points run reads as `float` exactly when it has at most one point, and otherwise raises ValueError |
| Quantities.MultiplierFails | src/data/data_cleaning_util.py:277-284 | a multiplier's replacement is computed exactly when its size has at most one point and the product fits `round`; ValueError exactly for a size with two points or more, InvalidOperation otherwise |
| Quantities.MultipliersRaise | src/data/data_cleaning_util.py:277-284 | the multiplier loop raises exactly when some match fails, only ValueError or InvalidOperation; ValueError only for a size with two points or more, and only ValueError when every one-point product fits |
| Quantities.QuantitiesRaise | src/data/data_cleaning_util.py:252-288 | on a string the pass raises only ValueError or InvalidOperation: InvalidOperation when the range loop raises; after it, exactly when a multiplier of the averaged text has a two-point size or a product that does not fit, with ValueError only for a two-point size |
| Quantities.HugeProductRaises | src/data/data_cleaning_util.py:277-284 | a count and a size that are both powers of ten of 14 digits or more, as in "10000000000000 10000000000000", raise the uncaught InvalidOperation |
| Quantities.MergeRanges | src/data/clean_training_data.py:85-95 | the function returns None for every row |
| Units.FixAbbreviations | src/data/data_cleaning_util.py:291-331 | the row after the call is `AbbreviationsFixed` of the row before, whose spoon rewrites TablespoonExpanded and TeaspoonExpanded state |
| Units.AbbreviationColumnShape | src/data/data_cleaning_util.py:296-330 | one column's rewrite touches that column and at most the unit, and a present cell stays present |
| Units.AbbreviationsFrame | src/data/data_cleaning_util.py:291-331 | name and quantity are never written, and NaN input and comment stay NaN; a NaN unit can only become "teaspoon" |
| Units.ForcedColumn | src/data/data_cleaning_util.py:325-330 | a column that still holds a `[Tt]sp` before the teaspoon loop sets the unit to "teaspoon" |
| Units.TeaspoonForced | src/data/data_cleaning_util.py:325-330 | a `[Tt]sp` left after the oz, g and tbsp rewrites, in the input, the unit or the comment, leaves "teaspoon" as the final unit, whatever the unit was |
| Units.TeaspoonKept | src/data/data_cleaning_util.py:299-330 | "teaspoon" holds none of the abbreviations, so the rewrites keep it |
| Units.TablespoonsCleared | src/data/data_cleaning_util.py:319-323 | the tablespoon loop leaves no `[Tt]bsp`: it runs once per match and each round rewrites exactly one |
| Units.TeaspoonsCleared | src/data/data_cleaning_util.py:325-329 | the teaspoon loop leaves no `[Tt]sp`, and adds no `[Tt]bsp` |
| Units.SpoonsCleared | src/data/data_cleaning_util.py:319-329 | after both spoon loops no spoon abbreviation is left |
| Units.TablespoonExpanded | src/data/data_cleaning_util.py:319-323 | a `[Tt]bsp` with its points, the only one in the text, becomes "tablespoon" and the rest of the text is kept, in this loop and in the older one at src/data/clean_training_data.py lines 136-139 |
| Units.TeaspoonExpanded | src/data/data_cleaning_util.py:325-329 | likewise a lone `[Tt]sp` with its points becomes "teaspoon", in both revisions of the loop |
| Units.TablespoonExample | src/data/data_cleaning_util.py:319-323 | "2 tbsp. oil" becomes "2 tablespoon oil" in both revisions |
| Units.AbbreviationsSpoonFree | src/data/data_cleaning_util.py:291-331 | no spoon abbreviation is left in the input, unit or comment of the row |
| Units.EpiSpoonFree | src/data/data_cleaning_util.py:334-382 | the Epicurious pass leaves no spoon abbreviation |
| Units.TrainingSpoonFree | src/data/clean_training_data.py:136-144 | the older loops, which substitute with no count, leave no spoon abbreviation |
| Units.TrainingAbbreviationsSpoonFree | src/data/clean_training_data.py:116-145 | the older pass leaves no spoon abbreviation in the input or the unit |
| Units.OuncesConverted | src/data/data_cleaning_util.py:299-309 | an `oz` or `oz.` between two non-word characters, the only one the scan finds, becomes "ounce" with both characters kept; the same loop serves the Epicurious pass at lines 339-350 |
| Units.MillilitersConverted | src/data/data_cleaning_util.py:351-362 | likewise `ml` becomes "milliliter" |
| Units.GramsConverted | src/data/data_cleaning_util.py:311-316 | a number, an optional blank and `g` or `g.` before a non-word character, the only one found, becomes the number and " gram" |
| Units.TrainingOuncesConverted | src/data/clean_training_data.py:124-127 | the older pattern: a digit, white space, `oz` and points become the digit and " ounce" |
| Units.TrainingGramsConverted | src/data/clean_training_data.py:129-134 | the older pattern: a digit, white space and `g` before a non-lower-case character become the digit and " gram" |
| Units.OuncesSharedSpace | src/data/data_cleaning_util.py:299-309 | as written, " oz oz " becomes " ounce oz ": the first match takes the separator the second needs, and an `oz` is left standing alone |
| Units.NoLoneOzLeft | src/data/data_cleaning_util.py:299-309 | the corrected conversion leaves no `oz` standing between non-word characters, for every text |
| Units.OuncesSharedSpaceIntended | src/data/data_cleaning_util.py:299-309 | the corrected conversion turns " oz oz " into " ounce ounce " |
| Units.FixEpiAbbreviations | src/data/data_cleaning_util.py:334-382 | the loops compute the specification `EpiAbbreviationsFixed` |
| Units.FixTrainingAbbreviations | src/data/clean_training_data.py:116-145 | the row after the call is `TrainingAbbreviationsFixed` of the row before; the second ensures of TablespoonExpanded and TeaspoonExpanded state its spoon rewrites, and TrainingOuncesConverted and TrainingGramsConverted its ounce and gram rewrites |
| Units.TrainingAbbreviationsFrame | src/data/clean_training_data.py:116-145 | name, comment and quantity are never written, and no NaN cell is filled |
| Units.FixInconsistencies | src/data/data_cleaning_util.py:385-395 | the row after the call is `InconsistenciesFixed` of the row before |
| Units.SprigGroups | src/data/data_cleaning_util.py:387 | the second group of a sprig match is "sprig" or "sprigs" |
| Units.SprigRoundsMove | src/data/data_cleaning_util.py:388-394 | after the rounds over the matches, the comment is the old one followed by each matched word, separated by blanks (just the words when it was NaN), and the unit is the last match's "sprig(s)" |
| Units.SprigsMoved | src/data/data_cleaning_util.py:385-395 | every word before "sprig(s)" is appended to the comment in order, with a blank (or becomes the comment when it was NaN), and the last match's "sprig" or "sprigs" becomes the unit; with no such phrase the row is kept, and input, name and quantity never change |
| Words.FixNumericWords | src/data/data_cleaning_util.py:412-428 | the method computes the specification `NumericWordsFixed` |
| Words.NumericWordsNeverRaise | src/data/data_cleaning_util.py:419-427 | the `numbers[m]` lookup never raises KeyError |
| Words.NumeralKnown | src/data/data_cleaning_util.py:398-409 | every matched word is in the `numbers` table |
| Words.MixedWordsNeedLetters | src/data/data_cleaning_util.py:412-416 | the five literal rewrites change nothing in a text without `f` or `q` |
| Words.NoOpening | src/data/data_cleaning_util.py:419-421 | a text where no blank is followed by the first two letters of a number word has no match |
| Words.WordsUnambiguous | src/data/data_cleaning_util.py:420 | no number word is a prefix of another, so at most one matches at a position |
| Words.NumberWordAlone | src/data/data_cleaning_util.py:412-427 | a number word between two blanks, with no other blank followed by a number word's first letters and no `d` in the text, becomes its numeral between blanks and the rest is kept |
| Words.NumberWordsOverwrite | src/data/data_cleaning_util.py:419-427 | as written, two number words both become the first one's numeral, because the `sub` has no count |
| Words.MixedWordsNeedD | src/data/data_cleaning_util.py:412-416 | the five literal rewrites change nothing in a text without `d` |
| Words.NumericWordsHalfExample | src/data/data_cleaning_util.py:412-427 | the compound rewrite comes first: "add one and a half cups" becomes "add 1.5 cups" |
| Words.NumericWordsExample | src/data/data_cleaning_util.py:422-427 | as written, "add two eggs and three yolks" becomes "add 2 eggs and 2 yolks" |
| Words.NumericWordsIntendedExample | src/data/data_cleaning_util.py:422-427 | with one rewrite per round, the same text becomes "add 2 eggs and 3 yolks" |
| Words.NumberWordsIntended | src/data/data_cleaning_util.py:419-427 | with one rewrite per round, any two number words between blanks each get their own numeral, on the same texts where the loop as written overwrites the second (NumberWordsOverwrite) |
| Patches.FixIndividualRows | src/data/data_cleaning_util.py:458-486 | the row after the call, together with the exception raised, is the specification `Patched` of the row before |
| Patches.PatchesKeepText | src/data/data_cleaning_util.py:458-486 | input and name are never written |
| Patches.PatchesUntouched | src/data/data_cleaning_util.py:458-486 | a row outside the table whose unit is not "chopped" comes back unchanged |
| Patches.ChoppedMoves | src/data/data_cleaning_util.py:465-467 | outside the table, a "chopped" unit moves to the comment and the unit becomes NaN |
| Patches.ButterPatched | src/data/data_cleaning_util.py:483-485 | the butter line ends with unit "ounces" and comment "(1 stick)" |
| Patches.PatchesRaise | src/data/data_cleaning_util.py:462-479 | raises TypeError exactly when the daikon line lacks a unit or a comment, or the chilies line lacks a comment and its unit is not "chopped" |
| Patches.ChiliesGrow | src/data/data_cleaning_util.py:477-479 | a second application prefixes "long " again, so the pass is not idempotent |
| Labels.MatchUp | src/features/create_training_labels.py:9-40 | one label per input token, in order, each the label of that token alone |
| Labels.LabelKnown | src/features/create_training_labels.py:28-39 | every label is one of the six |
| Labels.LabelPriority | src/features/create_training_labels.py:28-37 | NAME beats UNIT, which beats QTY, which beats COMMENT, which beats RANGE_END |
| Labels.QtyIsNumeric | src/features/create_training_labels.py:32-33 | QTY goes only to a token that `Decimal` reads as the quantity |
| Labels.RangeEndIsNumeric | src/features/create_training_labels.py:36-37 | RANGE_END goes only to a token that `Decimal` reads as the range end |
| Labels.OtherWhenUnmatched | src/features/create_training_labels.py:38-39 | OTHER is given exactly when no test holds |
| Labels.AddPrefixes | src/features/create_training_labels.py:43-63 | the loop carrying the previous tag computes `Prefixed` of the tags |
| Labels.PrefixDrops | src/features/create_training_labels.py:58-59 | each new tag is "B-" or "I-" followed by the original tag |
| Labels.PrefixChunks | src/features/create_training_labels.py:58 | the first tag begins a chunk, and a later one is "I-" exactly when it repeats its predecessor |
| Labels.EncodeDecodes | src/features/create_training_labels.py:43-63 | the run-length encoding that chunks refer to spells out the tags in maximal runs |
| Labels.BeginsCountRuns | src/features/create_training_labels.py:58-61 | the number of "B-" tags is the number of maximal runs of equal tags |
| Reassembly.SmartJoin | src/data/recipe2vec.py:19-36 | without commas or parentheses `smartJoin` is `" ".join`, and `smartJoin([])` is "" |
| Reassembly.SmartJoinComma | src/data/recipe2vec.py:27-28 | a comma token is attached to the word before it |
| Reassembly.SmartJoinParens | src/data/recipe2vec.py:30-34 | parenthesis tokens are attached to the words they enclose |
| Reassembly.SmartJoinTight | src/data/recipe2vec.py:19-36 | for non-empty words without spaces, no "( " and no " )" survive |
| Reassembly.FormatIngredientOutput | src/data/recipe2vec.py:39-81 | the loop and the comprehension compute the specification `Formatted` |
| Reassembly.FormattedKeys | src/data/recipe2vec.py:65-81 | no (token, tag) pair raises IndexError; otherwise the keys are the distinct stripped tags plus "input" |
| Reassembly.FormattedInput | src/data/recipe2vec.py:52-56 | the "input" entry is the smart join of every zipped token, in order |
| Reassembly.RunsGather | src/data/recipe2vec.py:52-68 | a tag's entry holds the tokens of all its display runs, so interrupted stretches are gathered |
| Reassembly.StripPrefixed | src/data/recipe2vec.py:47 | stripping a prefix that `add_prefixes` added gives back the tag, lower-cased |
| Reassembly.FormattedPrefixed | src/data/recipe2vec.py:39-81 | formatting a labelled line's own BIO tags gives one key per label, lower-cased, plus "input" |
| Reassembly.Runs | src/data/recipe2vec.py:52-56 | the display runs are non-empty, there are none exactly when there are no tokens, and the last run carries the last tag |
| Features.Word2Features | src/features/create_features.py:9-85 | the dictionary built step by step equals the window specification `Window`; the training copy in src/features/create_training_features.py (lines 5-81) has the same code and the same model |
| Features.Featurized | src/features/create_features.py:95-97 | one feature dictionary per token |
| Features.FeaturizedEnds | src/features/create_features.py:95-97 | BOS exactly on the first token, EOS exactly on the last, and bias 1.0 on every token |
| Features.WindowKeySet | src/features/create_features.py:11-83 | the key set is the own keys plus the offset keys of each neighbour in reach, plus BOS/EOS at the ends |
| Features.PreviousKeys | src/features/create_features.py:23-52 | "-1:" keys exactly from the second token, "-2:" keys from the third, and BOS exactly at the first |
| Features.NextKeys | src/features/create_features.py:54-83 | "+1:" and "+2:" keys exactly when those tokens exist, and EOS exactly at the last |
| Features.OwnPunct | src/features/create_features.py:21-81 | "is_punct" is an own feature and never a neighbour feature |
| Features.SidedPunct | src/features/create_features.py:23-81 | left neighbours get no "is_right_punct" and right neighbours no "is_left_punct" |
| Features.SingleToken | src/features/create_features.py:11-83 | a one-token sentence gets its own keys plus BOS and EOS |
| Features.OwnEntry | src/features/create_features.py:11-22 | every own feature keeps the token's own value in the window |
| Features.Bias | src/features/create_features.py:12 | "bias" is 1.0 |
| Features.NeighbourEntry | src/features/create_features.py:23-81 | an offset feature holds the neighbour's attribute value when the neighbour is in reach |
| Record.Set | src/data/data_cleaning_util.py:127 | `row[col] = f` changes the named cell and no other |
| Record.Row.Assign | src/data/data_cleaning_util.py:127 | the in-place assignment leaves the row's cells as `Set` of the old ones |
| Strings.StripShape | src/data/data_cleaning_util.py:165 | `strip` returns a slice of the input that neither begins nor ends with whitespace |
| Strings.StripIdempotent | src/data/data_cleaning_util.py:165 | stripping twice is stripping once |
| Strings.Lower | src/data/recipe2vec.py:47 | `lower` keeps the length and lower-cases each letter |
| Strings.ReplaceChar | src/data/data_cleaning_util.py:19 | replacing a character by text that lacks it removes it and adds nothing else |

## Left out

- Reading and writing files, `print` calls, the `__main__` blocks and
  `qty2float` are not modelled. A message printed after a caught TypeError
  only makes the row come back as it was at that point.
- spaCy parsing is not modelled. Each token's attributes (lemma, shape,
  punctuation flags and so on) are inputs of `Features.Featurized`.
  `nlp.pipe` and the CRF tagger are not modelled.
- Floating point: `float`, `Fraction`, `round` and `Decimal` are modelled
  on exact reals. Values whose binary float differs from the decimal text
  (such as 2.675 under `round`) are not modelled. The 28-digit limit of
  `round` and the OverflowError of `float(Fraction)` are decided on the
  exact value, so a value within one float rounding of either bound may
  fall on the other side in Python.
- Numbers.FloatOf reads a digit run of 309 digits or more as its exact
  value; Python's `float` gives infinity there. `round` raises
  InvalidOperation on both, so the passes raise the same exception, except
  in one case: a multiplier where one factor is 0 and the other has 309
  digits or more gives NaN in Python, written as "NaN", where the model
  writes "0.00".
- Numbers.Short3Denotes: `str(round(x, 3))` is modelled in positional
  notation. This holds below 10^16, where Python switches to exponent
  notation.
- Units.FixAbbreviations, Units.FixTrainingAbbreviations and
  Units.FixEpiAbbreviations require cells without backslashes. The
  `re.sub` templates built from captured text are read as literal text,
  and a backslash in them would be a template escape in Python.
- Labels.MatchUp requires that no token is a NaN or infinity spelling.
  `Decimal` accepts those as special values, and comparing them with the
  quantity is not modelled.
- Words.FixNumericWords takes a string. A NaN cell, on which `re.sub`
  raises an uncaught TypeError, is not modelled.
- Markup.CleanEpiHtml, Characters.FixCharacters and
  Units.FixEpiAbbreviations take a string. In the Epicurious script they
  run before NaN rows are dropped, and a NaN cell raises TypeError there;
  that path is not modelled.
- Characters.FixCharacters: the per-character table is stated for texts
  without "+" and without digits. The two steps that look at neighbours
  are stated separately: Characters.LonePlusKept for any text,
  Characters.PlusRunDeleted and Characters.HyphenSpaced for a text with a
  single match.
- Characters.FixSpellingRule and Characters.FixSpellingCap are stated when
  a single rule applies. Characters.ChipolteFixed is stated for the first
  rule alone; that the other rules leave "Chipotle" alone is not proved.
- Units.OuncesConverted, Units.MillilitersConverted, Units.GramsConverted,
  Units.TrainingOuncesConverted and Units.TrainingGramsConverted are stated
  for a text whose scan finds a single match. Several matches are not
  characterised, apart from the shared-separator case under "Findings".
- Fractions.UnicodeMixedCleaned, Fractions.UnicodeLoneCleaned,
  Fractions.EpiMixedCleaned and Fractions.EpiLoneCleaned state the value
  written for a text with a single glyph and no digit before its number.
  Fractions.UnicodeOverwrite states two mixed glyph numbers. Other texts
  are characterised only by the glyph-free lemmas.
- Fractions.MixedFractionMerged, Fractions.BareFractionMerged and
  Fractions.TrainingFractionMerged state the value written for a text with
  a single fraction, no digit before it and no slash around it.
  Fractions.TrainingOverwrite states two spaced mixed fractions. The value
  the older second loop writes for a bare `\d/\d` is not stated on its
  own.
- Quantities.RangeMerged states a range of two whole numbers, and
  Quantities.MultiplierMerged a size with at most one point, each in a
  text with no other digit. Ranges with decimal ends, and texts where the
  average feeds a multiplier, are not characterised.
- Words.NumberWordAlone and Words.NumberWordsOverwrite are stated for texts
  without `d`, where the five literal rewrites change nothing, and where no
  other blank is followed by a number word's first two letters. Three or
  more number words are not characterised; the compound rewrites are
  stated by Words.NumericWordsHalfExample for one text.
- Units.TablespoonExpanded and Units.TeaspoonExpanded are stated for a
  text with a single abbreviation of their kind. Several abbreviations are
  characterised only by the count lemmas (none is left).
- Numbers.DecimalOf reads ASCII digits with an optional sign, point and
  exponent. Python's `Decimal` also reads underscores between digits
  ("1_5") and other Unicode decimal digits. For such a token Labels.LabelOf
  gives OTHER where src/features/create_training_labels.py (lines 32-37)
  can give QTY or RANGE_END.
- Reassembly.Formatted returns a map. The dict that
  `format_ingredient_output` returns keeps its keys in first-seen order,
  and that order is not modelled.
- Strings.Lower lower-cases ASCII letters only. Python's Unicode case
  mapping is not modelled.
- Features.Word2Features requires an index inside the sentence, which is
  how `process_data` calls it.
- Quantities.MergeRanges: the regular expression whose result the
  function discards is not modelled.
- Regular expressions: `\s` is Python's whitespace set. `\w` is ASCII
  letters, digits and underscore, the Latin-1 letters and digits, and the
  vulgar-fraction glyphs. Word characters beyond those are not modelled.
  `.` excludes only newline. `\d` is the ASCII digits only; Python's
  other Unicode decimal digits are not modelled.
- Reassembly.FormatIngredientOutput ignores the `display` argument,
  because the body overwrites it before use.
- pandas rows are modelled as `Record.Row`, whose five cells (input, name,
  unit, comment, qty) are fields. Other columns, row copies
  and aliasing between rows are not modelled.

## Findings

| source | as written | input that shows it | evidently intended | confidence | as-written member | corrected member |
|---|---|---|---|---|---|---|
| src/data/data_cleaning_util.py:51-52 | the guard tests for U+FFFD and then deletes "™" | a text holding a lone U+FFFD comes back unchanged | the guard deletes U+FFFD | high; not executed | Characters.ReplacementCharacterSurvives | Characters.FixCharactersIntendedRemoves |
| src/data/data_cleaning_util.py:422-427 | `re.sub` without a count in the loop writes the first word's numeral over every number word | "add two eggs and three yolks" becomes "add 2 eggs and 2 yolks" | each word gets its own numeral, as with `count=1` in the file's other loops: "add 2 eggs and 3 yolks" | high; not executed | Words.NumericWordsExample | Words.NumberWordsIntended |
| src/data/data_cleaning_util.py:299-309 | the findall scan `([^\w])oz\.?([^\w])?` consumes the separator after each `oz`, so two abbreviations sharing one separator give one match and one round | " oz oz " becomes " ounce oz " | every `oz` between non-word characters becomes "ounce" | medium; not executed | Units.OuncesSharedSpace | Units.NoLoneOzLeft |
