# Address converter core, modelled in Dafny

This project models the address-resolution core of the `AddressConverter`
class in `app.js`. The class turns free-text Vietnamese postal addresses into
catalog entries for province, district and ward. Four steps make up the core:

- **`normalizeText`**. Lower-case the text and expand whole-word
  abbreviations. Strip diacritics, keep only `[a-z0-9\s]`, collapse whitespace
  and trim. Then rewrite province aliases.
- **`parseAddressSmart`**. Split the normalized text on commas. Classify each
  fragment by keyword or by position. Fill empty fields from four regular
  expressions. Remove marker words with `clean`, then clamp the confidence.
- **`findInDatabase`**. Score every province and keep the first best one. Do
  the same for the wards whose `parent_code` is that province. Look up the
  ward's district, then decide the status and the confidence.
- **`processBatch`**. Run the two previous steps line by line. A line that
  throws becomes an error entry.

The project also models the status tally of `displayResults` and the quoting
of the original address in the CSV export.

Modules, one file each:

- `JsText`: the JavaScript string operations the code relies on. These are
  `trim`, `includes`, `indexOf`, `split`, first-occurrence `replace`, and a
  global `\b(a|b|...)\b` replace with the `i` flag, where `.` in a source
  string is the wildcard. It also proves that erasing every whole-word match
  and trimming leaves no whole-word match behind.
- `Letters`: the tables of Vietnamese capitals, their lower-case forms and
  their base letters, which stand in for `toLowerCase` and
  `normalize('NFD')`.
- `Normalizer`: `normalizeText` as a function, with the abbreviation and alias
  tables. It also proves that the result is space-canonical, comma-free and
  free of `A-Z`.
- `NormalizerFacts`: what the pipeline does on given inputs. The character
  filter is idempotent, the whole normalization is not, and "Hà Nội"
  normalizes to "ha noi".
- `Fallback`: the four fallback patterns as word-level matchers that return
  capture slots 1 to 5. Each returns exactly the capture list that
  JavaScript's backtracking search returns.
- `Parser`: `parseAddressSmart` as a function, with `clean` and the clamp.
- `Matcher`: the scoring rules, the first-best selection and `findInDatabase`
  as a function.
- `Batch`: the results array of `processBatch` and the status tally.
- `Csv`: the CSV quoting and its round trip.
- `Converter`: the class `AddressConverter`, with its catalog fields and the
  loops of the source as methods. Each method is proved to compute the
  function above it, for example
  `FindInDatabase(p)` returns `Find(Snapshot(), p)`.

Where the code departs from the system's documented behaviour, the model
follows the code. Several quirks of the code are reproduced as well:

- **`normalizeText` is not idempotent**, although it is documented to be.
  `NormalizerFacts.NormalizeNotIdempotent` proves that "tp_" normalizes
  to "tp" and that "tp" normalizes to "thanh pho". The character filter of
  app.js:141-145 is the only step proved idempotent
  (`NormalizerFacts.FilterIdempotent`).
- **The alias keys written with diacritics can never match.** They are
  applied after the diacritics have been stripped. Only `tphcm` and `hcm` can
  match. They match only where the abbreviation pass did not see them as
  whole words, for example inside a longer word or next to an underscore. An
  expansion that does happen puts accented letters back into the normalized
  text. For that reason
  `NormalizeText` promises a space-canonical, comma-free result without
  `A-Z`, not a `[a-z0-9 ]` one.
- **The normalized text never holds a comma**, so the comma split yields at
  most one fragment (`Parser.CommaPartsOfNormalized`). Positional guessing
  therefore only ever sees a single last fragment.
- **Only pattern 4 of the fallback puts a name in every slot that
  app.js:269-279 reads.** Patterns 1 to 3 do not line up, and the lemmas on
  `Parser.FallbackPattern*` state the consequences.
  - Pattern 1 starts with free text. When its slot 3 happens to be a district
    marker, it copies its ward marker from slot 4 into the district, and
    `clean` then empties it.
  - Pattern 2 puts its province marker in slot 5. It copies that marker word
    into the province, which `clean` then empties.
  - Pattern 3 has its province marker in slot 3. It never fills the ward or
    the district.
- **The success confidence is not clamped.** It lies between 0.8 and 1.12,
  because a ward can score 1.2 (`Matcher.Resolve`).
- **The final error branch of the status decision, app.js:411-414, is
  unreachable.** Once a province is found, the status is never an error.

## Model

| member | source | states |
|---|---|---|
| JsText.AsciiLower | app.js:133 | the `i` flag folds `A-Z` onto `a-z` and leaves every other character alone. This agrees with JavaScript only on the texts matched here, which are already lower-cased: without the `u` flag, `i` also folds non-ASCII capitals |
| JsText.Trim | app.js:145 | `trim` removes exactly the leading and trailing `\s`. The result is the slice of the input after its leading `\s`, with only `\s` before and after it and none at either end of its own. It is empty exactly when the input is all `\s` |
| JsText.TrimIsInfix | app.js:145 | the trimmed text is one contiguous slice of the input with only `\s` around it |
| JsText.TrimProvenance | app.js:145 | trimming introduces no character |
| JsText.IndexOfFrom | app.js:149 | the result is an occurrence at or after the start with no earlier one; none means there is no occurrence at all |
| JsText.IncludesIff | app.js:149 | `includes` holds exactly when the text occurs somewhere |
| JsText.IncludesEmpty | app.js:334 | every string includes the empty string |
| JsText.NotIncludesWithout | app.js:149 | a text lacking a character of the key cannot include the key |
| JsText.ReplaceFirst | app.js:150 | a string pattern replaces one occurrence. The text is unchanged when the pattern is absent; when present, the length changes by one replacement. No character comes from outside the two texts |
| JsText.ReplaceFirstSplices | app.js:150 | the replacement is spliced in at the first occurrence |
| JsText.Split | app.js:178 | `split` yields at least one piece and no piece holds the separator |
| JsText.JoinSplit | app.js:178 | joining the pieces with the separator gives the text back |
| JsText.SplitWithoutSeparator | app.js:178 | a text without the separator splits into itself alone |
| JsText.Compile | app.js:133 | in a key used as a regular expression, `.` is the wildcard and every other character is literal |
| JsText.FirstWordAt | app.js:287 | the alternative taken at a position is the first in source order that matches as a whole word; none means no alternative matches there |
| JsText.ReplaceWords | app.js:133-134 | the global whole-word replace leaves a text without a match unchanged, and every character of its output comes from the text or the replacement |
| JsText.ReplaceWordsFromUnchanged | app.js:133-134 | once nothing matches from a position on, the rest of the text is copied unchanged |
| JsText.ReplaceWordsFromProvenance | app.js:133-134 | every character of the output comes from the text or from the replacement |
| JsText.ReplaceWordsSkip | app.js:133-134 | where no alternative matches, the character is copied and the scan moves on by one |
| JsText.ReplaceWordsAtMatch | app.js:133-134 | at a match, the replacement is emitted and the scan resumes after the matched text, so matches never overlap |
| JsText.ReplaceWordsLeftmost | app.js:133-134 | the text up to the leftmost match is copied, that match is replaced, and the scan resumes right after it |
| JsText.ReplaceWholeText | app.js:287 | a text that is exactly the alternative taken at its start is replaced as a whole |
| JsText.ReplaceWholeWord | app.js:287 | a text that is exactly an alternative, with no earlier alternative matching it, is replaced as a whole |
| JsText.MatchEdges | app.js:287 | a whole-word match of an alternative that begins and ends with a word character has a word character at each end and a non-word character (or the end of the text) on each side |
| JsText.NoWordConcat | app.js:287 | two texts without a whole-word match, joined between non-word characters, still have none |
| JsText.EraseAfterMatch | app.js:287 | what erasing leaves after a match holds no match and does not begin with a word character |
| JsText.EraseWordsFrom | app.js:287 | erasing every whole-word match from a word boundary on leaves no match at all, even though erasing joins the text around each match |
| JsText.NoWordTrim | app.js:287 | trimming keeps a text free of whole-word matches |
| JsText.EraseWordsTrim | app.js:287 | erasing then trimming leaves no whole-word match of any alternative. This holds for alternatives that begin and end with a word character and have no two adjacent other characters |
| Letters.UpperTable | app.js:129 | the 67 Vietnamese capitals are distinct and none lies below U+00C0; the three tables have the same length |
| Letters.LowerTable | app.js:138 | the lower-case letters are distinct, lie above U+00DF and are no combining marks |
| Letters.BaseTable | app.js:138 | every base letter is in `a-z` or is `đ` |
| Normalizer.Position | app.js:138 | the index found holds the character; none means the table lacks it |
| Normalizer.PositionOfIncreasing | app.js:129 | in a table without repeated letters each letter is found at its own index |
| Normalizer.LowerChar | app.js:129 | `toLowerCase` maps `A-Z` onto `a-z` and the `k`-th Vietnamese capital onto the `k`-th lower-case letter. It leaves every other character unchanged and never yields `A-Z` |
| Normalizer.Lowercase | app.js:129 | lower-casing works character by character, keeps the length and leaves no `A-Z` letter |
| Normalizer.StripChar | app.js:138 | NFD followed by the removal of U+0300 to U+036F: a combining mark disappears, the `k`-th accented lower-case letter becomes the `k`-th base letter, and every other character stays. No `A-Z` letter comes from a character that was not one |
| Normalizer.StripDiacritics | app.js:138 | stripping never lengthens the text |
| Normalizer.StripDiacriticsClean | app.js:138 | after stripping no combining mark is left, and a text without `A-Z` gains none |
| Normalizer.StripDiacriticsFixes | app.js:138 | a text without accented lower-case letters or combining marks passes unchanged |
| Normalizer.ReplaceDStroke | app.js:142 | every `đ` becomes `d`, and every other character stays where it was |
| Normalizer.KeepClass | app.js:143 | each `[a-z0-9\s]` character stays where it was and every other character becomes a space |
| Normalizer.NonSpaceKeepClass | app.js:143 | the characters other than `\s` left by the class filter are exactly the `[a-z0-9]` characters of the input, in order |
| Normalizer.NonSpaceTrim | app.js:145 | trimming removes only `\s` characters |
| Normalizer.SpaceRun | app.js:144 | the run measured is a maximal run of `\s` at the start |
| Normalizer.Collapse | app.js:144 | collapsing keeps the characters other than `\s` in order and leaves only single plain spaces. The result is empty exactly when the input is, and starts with a space exactly when the input starts with `\s` |
| Normalizer.CollapseAlphabet | app.js:143-144 | collapsing a `[a-z0-9\s]` text leaves a `[a-z0-9 ]` text |
| Normalizer.TrimCanonical | app.js:145 | trimming a `[a-z0-9 ]` text without double spaces leaves words separated by single spaces |
| Normalizer.FilterAndCollapse | app.js:141-145 | the filter's output holds only `a-z`, `0-9` and single inner spaces, with no edge space and no comma. Its characters other than spaces are exactly the `[a-z0-9]` characters of the input after `đ` becomes `d`, in order |
| Normalizer.ExpandProvenance | app.js:132-135 | every character of the expanded text comes from the text or from an expansion in the table |
| Normalizer.AliasProvenance | app.js:148-152 | every character after the alias pass comes from the text or from an alias expansion |
| Normalizer.Normalize | app.js:129-152 | for every string the pipeline yields words separated by single plain spaces, with no edge space, no comma and no `A-Z` letter |
| Normalizer.NormalizeText | app.js:125-155 | a non-string or empty argument gives `''`. Any result is space-canonical and has no comma and no `A-Z` letter |
| Normalizer.ReplaceFirstKeepsShape | app.js:150 | replacing an occurrence by a space-canonical, comma-free text keeps the text space-canonical and comma-free |
| Normalizer.ProvinceAliasesShaped | app.js:34-48 | every alias expansion is non-empty, space-canonical and comma-free |
| Normalizer.AliasesKeepShape | app.js:148-152 | the alias pass keeps the text space-canonical, comma-free and free of `A-Z` |
| NormalizerFacts.ExpandUnchanged | app.js:132-135 | abbreviations that match no whole word leave the text as it is |
| NormalizerFacts.AliasesUnchanged | app.js:148-152 | aliases the text does not include leave it as it is |
| NormalizerFacts.StripAscii | app.js:138 | text below U+00C0 without combining marks passes diacritic stripping unchanged |
| NormalizerFacts.CollapseFixes | app.js:144 | collapsing leaves a text with single plain spaces unchanged |
| NormalizerFacts.FilterFixesCanonical | app.js:141-145 | the filter leaves canonical text unchanged |
| NormalizerFacts.FilterIdempotent | app.js:141-145 | the filter is idempotent |
| NormalizerFacts.ExpandTpUnderscore | app.js:132-135 | no abbreviation applies to "tp_" |
| NormalizerFacts.FilterTpUnderscore | app.js:141-145 | the filter turns "tp_" into "tp" |
| NormalizerFacts.AliasesTp | app.js:148-152 | no alias applies to "tp" |
| NormalizerFacts.ExpandTp | app.js:132-135 | "tp" expands to "thanh pho" and no later abbreviation applies |
| NormalizerFacts.AliasesThanhPho | app.js:148-152 | no alias applies to "thanh pho" |
| NormalizerFacts.NormalizeTpUnderscore | app.js:129-152 | "tp_" normalizes to "tp" |
| NormalizerFacts.NormalizeTp | app.js:129-152 | "tp" normalizes to "thanh pho" |
| NormalizerFacts.NormalizeNotIdempotent | app.js:125-155 | normalizing twice can differ from normalizing once |
| NormalizerFacts.LowercaseHaNoi | app.js:129 | "Hà Nội" lower-cases to "hà nội" |
| NormalizerFacts.ExpandHaNoi | app.js:132-135 | no abbreviation applies to "hà nội" |
| NormalizerFacts.StripHaNoi | app.js:138 | "hà nội" loses its diacritics and becomes "ha noi" |
| NormalizerFacts.FilterHaNoi | app.js:141-145 | the filter leaves "ha noi" unchanged |
| NormalizerFacts.AliasesHaNoi | app.js:148-152 | no alias applies to "ha noi" |
| NormalizerFacts.NormalizeHaNoi | app.js:125-155 | `normalizeText('Hà Nội')` is `'ha noi'`: the letters survive, lower-cased and without their marks |
| Fallback.MatchGroups | app.js:254-263 | the captures found decompose the words from `i` by the groups and are the preferred decomposition. Each lazy group takes the fewest words, and each marker the first alternative, after which the later groups can still match, group after group. None is found only when no decomposition exists |
| Fallback.PreferredDecomposes | app.js:254-263 | the decomposition backtracking prefers is a decomposition |
| Fallback.PreferredUnique | app.js:254-263 | at most one capture list is the preferred one, so the search order fixes every capture |
| Fallback.LazyFrom | app.js:254-263 | a lazy group takes the fewest words, at least `n`, after which the rest of the pattern matches, and the rest is captured the preferred way. None means no word count from `n` on works |
| Fallback.MarkerFrom | app.js:254-263 | a marker group takes the first alternative, from `a` on, that occurs at word `i` with the rest of the pattern matching after it, and the rest is captured the preferred way. None means no such alternative exists |
| Fallback.SuffixMarkerAt | app.js:257-263 | an unanchored leading marker may start inside word `t`. The result uses the first alternative whose first word ends word `t` and after which the rest matches, and captures the rest the preferred way; none means there is no such alternative |
| Fallback.SearchFrom | app.js:267 | the match found starts in the leftmost word where any match starts, and its captures are the preferred ones from there; none means no word from `t` on starts a match |
| Fallback.MatchPattern | app.js:267 | `match` returns captures into which the pattern's groups decompose the words of the text. The match starts at the leftmost possible word and its captures are the preferred ones (`Selected`); none means the pattern matches nowhere |
| Fallback.SelectedMatches | app.js:267 | the match JavaScript returns is a match of the pattern |
| Fallback.SelectedUnique | app.js:267 | at most one capture list is the match JavaScript returns |
| Fallback.MatchPatternSelected | app.js:267 | `MatchPattern` returns a capture list exactly when that list is the match JavaScript returns |
| Fallback.ExampleSelected | app.js:263 | on "phuong a quan c d e" pattern 4 returns "phuong", "a", "quan", "c", "d e" |
| Fallback.ExampleOtherDecomposes | app.js:263 | the split with district "c d" and province "e" also decomposes those words |
| Fallback.LazyDistrictTakesFewestWords | app.js:263 | the lazy district takes the single word "c". The other decomposition is not what `match` returns |
| Fallback.FirstMatchFrom | app.js:266-283 | the pattern used is the first that matches, every earlier one failing; none means every pattern fails |
| Fallback.FirstMatch | app.js:266-283 | the `for ... of` loop with its `break` uses the first pattern in order that matches, with the slots of its captures; none means no pattern matches |
| Fallback.CapturedMarker | app.js:254-263 | each marker group captures one of its own marker words |
| Fallback.PatternSlots | app.js:252-264 | pattern by pattern, which marker word lands in which of slots 1 to 5 |
| Fallback.FirstMatchSlots | app.js:266-279 | the slots read at app.js:269-279 hold those marker words for the pattern that matched |
| Parser.KeywordInLevel | app.js:193-199 | within one level, the keyword found is the first the fragment includes; none means it includes none |
| Parser.FindKeyword | app.js:192-202 | levels are tried in order, and within a level keywords in order. The first keyword included wins; none means no keyword is included |
| Parser.ClassifySpec | app.js:186-226 | a keyword gives its level's kind and +0.1. The value is then the fragment with every whole-word occurrence of that keyword removed, trimmed. Without a keyword the fragment keeps its text and is placed by position: the last three are province, district and ward with +0.05; earlier ones are a street when they start with a digit and a hamlet otherwise, with +0. The value holds only characters of the fragment |
| Parser.ClassifyIncrement | app.js:197-217 | a fragment adds 0.1 with a keyword, 0.05 among the last three fragments, and 0 otherwise |
| Parser.AssignSpec | app.js:229-247 | the local of the fragment's kind takes the value and every other local keeps its own. The confidence grows by the increment and the entry is pushed onto `analyzedParts` |
| Parser.IncrementsCount | app.js:197-217 | the increments add up to 0.1 per keyword fragment plus 0.05 per fragment placed by position |
| Parser.ClassifyPartsSpec | app.js:180-248 | after `k` fragments `analyzedParts` holds one entry per fragment, in order. Each local holds the value of the last entry of its kind, and the confidence is 0.5 plus 0.1 per keyword fragment plus 0.05 per fragment placed by position |
| Parser.NonEmpty | app.js:178 | `filter(p => p)` keeps exactly the non-empty pieces |
| Parser.NonEmptyAppend | app.js:178 | the filter works piece by piece, so it keeps the order of the pieces |
| Parser.TrimAll | app.js:178 | `map(p => p.trim())` trims each piece in place |
| Parser.CommaFreePieces | app.js:178 | a text without a comma yields its trimmed self, or nothing when it is blank |
| Parser.CommaParts | app.js:178 | every fragment is non-empty, comma-free and trimmed; a text without a comma yields its trimmed self, or nothing when it is blank |
| Parser.CommaPartsOfNormalized | app.js:178 | comma splitting of normalized text yields nothing or the whole text |
| Parser.ApplySlots | app.js:269-280 | an empty ward takes slot 2 after a ward marker in slot 1. An empty district takes slot 4, or slot 2 when that is empty, after a district marker in slot 3. An empty province takes slot 5, else slot 4, else slot 3. Every other field is kept, and each fill adds 0.1 |
| Parser.WithFallback | app.js:251-284 | nothing changes when province, district and ward are all set or no pattern matches. Otherwise the slots of the first matching pattern are applied. A filled field, the hamlet, the street and the parts never change, and the confidence grows by 0.1 per fill |
| Parser.Clean | app.js:287 | `clean` leaves no `\s` at either end and brings in no character; a text without a marker word is only trimmed |
| Parser.MarkerWordsFenced | app.js:287 | every marker word begins and ends with a letter and has no two adjacent non-letters |
| Parser.CleanLeavesNoMarker | app.js:287 | after `clean` no marker word is left anywhere as a whole word |
| Parser.Clamp | app.js:296 | the confidence is clamped to [0, 1] and unchanged inside it |
| Parser.ClassifiedNormalized | app.js:178-248 | normalized text is classified as one fragment in last position. It gives one entry, its value in the field of its kind and a confidence of 0.5 plus its increment. Empty text leaves the initial locals |
| Parser.Analyze | app.js:175-284 | on normalized text there is at most one entry, and the fragment's value lands in the field of its kind, which the fallback keeps. The confidence is 0.5 plus the fragment's increment plus 0.1 per fallback fill |
| Parser.Finish | app.js:286-308 | every field is the cleaned local and the confidence is clamped. The original text, the normalized text and `analyzedParts` pass through |
| Parser.ParseText | app.js:174-308 | the result keeps the text and its normalization, and every field is the cleaned local. The fragment's value goes, cleaned, to the field of its kind. The confidence is 0.5 plus the increment plus 0.1 per fill, clamped, so it lies in [0.5, 1] |
| Parser.Parse | app.js:158-309 | a non-string throws; blank text gives the all-empty record with confidence 0; any other text is parsed once trimmed |
| Parser.CleanWholeMarker | app.js:287 | a text that is exactly a marker word is cleaned to `''` |
| Parser.CleanErasesProvinceMarker | app.js:287 | `clean` erases "tinh" and "thanh pho" |
| Parser.CleanErasesWardMarker | app.js:287 | `clean` erases "xa" and "phuong" |
| Parser.AnalyzeWithoutKeyword | app.js:205-209 | without a keyword the whole normalized text becomes the province, and the fallback cannot replace it |
| Parser.AnalyzeWithKeyword | app.js:194-197 | a keyword raises the confidence to at least 0.6 |
| Parser.ProvinceFromMarkerSlot | app.js:277-289 | an empty province filled from a province marker in slot 5 is cleaned to `''` |
| Parser.FallbackPattern2EmptiesProvince | app.js:277-289 | when pattern 2 fills an empty province, the cleaned province is `''` |
| Parser.FallbackPattern1EmptiesDistrict | app.js:273-290 | when pattern 1 fills an empty district, the cleaned district is `''` |
| Parser.FallbackPattern3KeepsDistrictAndWard | app.js:269-276 | pattern 3 fills neither the ward nor the district |
| Matcher.ProvinceScore | app.js:330-338 | a province scores 0, 0.6, 0.8 or 1; at least 0.8 when the parsed province is empty or the name is not a string |
| Matcher.FindDistrict | app.js:376 | the district found is the first whose code equals the ward's `parent_code`; none means no district has that code |
| Matcher.DistrictBonus | app.js:375-384 | the district bonus is 0 or 0.2, and 0 when no district was parsed |
| Matcher.WardScore | app.js:364-385 | a ward scores 0, 0.7, 0.8 or 1, plus a bonus of 0 or 0.2, so at most 1.2 |
| Matcher.RunningMax | app.js:340-343 | the kept score is at least every score seen. The kept index is the first that reaches it, with a score above 0; none means every score is 0 |
| Matcher.ScoresOf | app.js:325-339 | one score per unit |
| Matcher.ScoresOfAt | app.js:325-339 | score `i` is the rule applied to unit `i` |
| Matcher.ProvinceScores | app.js:325-338 | one province score per province |
| Matcher.ProvinceScoresAt | app.js:325-338 | province score `i` is the score of province `i` |
| Matcher.ProvinceScoresAll | app.js:325-338 | every province score is the score of its province |
| Matcher.WardScores | app.js:360-385 | one ward score per ward |
| Matcher.WardScoresAt | app.js:360-385 | ward score `i` is the score of ward `i` |
| Matcher.WardScoresAll | app.js:360-385 | every ward score is the score of its ward |
| Matcher.WardsOf | app.js:358 | exactly the wards whose `parent_code` is the province code |
| Matcher.WardsOfAppend | app.js:358 | `filter` keeps catalog order: a ward appended to the catalog is appended to the filtered list exactly when its `parent_code` is the province code |
| Matcher.BestProvince | app.js:322-344 | the chosen province has a maximal score above 0, and no earlier one reaches it; none means every province scores 0 |
| Matcher.BestWard | app.js:355-390 | the chosen ward has a maximal score above 0, and no earlier one reaches it; none means every ward scores 0 |
| Matcher.Resolve | app.js:355-425 | success exactly when a ward is found. The success confidence is exactly `max(0.4 * province score + 0.6 * ward score, 0.8)`, from 0.8 to 1.12. Otherwise a warning with 0.7 times the province score; never an error. The ward is the first best-scoring child of the province in catalog order. The district is `districts.find` of the ward's parent code, and there is none without a ward |
| Matcher.ResolveByScan | app.js:386-415 | the outcome in terms of the ward loop's running maximum |
| Matcher.Find | app.js:312-426 | an error with confidence 0 exactly when the data is not loaded or no province scores above 0, with the not-ready or the province-not-found message respectively; otherwise the resolution for the first best province |
| Matcher.FindEmptyProvinceNeverFails | app.js:325-352 | with an empty parsed province and a loaded, non-empty catalog, the result is not an error and its confidence is at least 0.56 |
| Batch.ProcessLine | app.js:443-492 | entry `i` has index `i + 1` and keeps its line. A non-string line gives an error entry with confidence 0; otherwise the display repeats the resolution's status and confidence |
| Batch.Lines | app.js:443-498 | after `k` passes of a per-line rule there are `k` entries, entry `i` being the rule applied to line `i` and index `i` |
| Batch.Process | app.js:429-504 | throws exactly when the data is not loaded; otherwise one entry per line, in order, with index `i + 1` and the original line |
| Batch.ProcessFailingLine | app.js:475-491 | a failing line becomes an error entry with confidence 0 and the loop goes on |
| Batch.ProcessIsLineByLine | app.js:443-492 | entry `i` depends only on line `i` |
| Batch.Tally | app.js:516-520 | the three counters partition the entries by status |
| Batch.StatusSetGrows | app.js:516-520 | one more entry adds one to the counter of its status only |
| Csv.EscapeQuotes | app.js:645 | doubling quotes adds one character per quote |
| Csv.QuoteField | app.js:645 | the field is wrapped in double quotes |
| Csv.UnescapeEscape | app.js:645 | reading doubled quotes back gives the text |
| Csv.QuoteRoundTrip | app.js:645 | reading the quoted field as section 2 of RFC 4180 describes gives the original address back |
| Converter.AddressConverter.constructor | app.js:3-8 | the catalog starts empty and not loaded |
| Converter.AddressConverter.Store | app.js:101-114 | `loadData` stores one table and leaves the other fields unchanged |
| Converter.AddressConverter.MarkLoaded | app.js:71 | the data is marked loaded, and the tables are unchanged |
| Converter.AddressConverter.ExpandAll | app.js:132-135 | the abbreviation loop computes the expansion over the whole table |
| Converter.AddressConverter.AliasAll | app.js:148-152 | the alias loop computes the alias pass over the whole table |
| Converter.AddressConverter.NormalizeText | app.js:125-155 | the method computes `normalizeText`, so its result is space-canonical, comma-free and free of `A-Z` |
| Converter.AddressConverter.MatchKeyword | app.js:192-202 | the nested loops with their `break`s find the first keyword in level order |
| Converter.AddressConverter.ClassifyPart | app.js:186-226 | the method computes the kind, value and increment of one fragment |
| Converter.AddressConverter.AssignPart | app.js:229-247 | the `switch` and the `push` compute the assignment of one fragment |
| Converter.AddressConverter.ClassifyAll | app.js:186-248 | the fragment loop computes the fields of the whole classification |
| Converter.AddressConverter.Fallback | app.js:251-284 | the pattern loop with its `break` computes the fallback |
| Converter.AddressConverter.FillSlots | app.js:269-280 | the three guarded assignments compute the fills of the matching pattern |
| Converter.AddressConverter.ParseAddressSmart | app.js:158-309 | the method computes `parseAddressSmart` |
| Converter.AddressConverter.ScanBest | app.js:325-344 | the running-maximum loop keeps the first best unit and its score |
| Converter.AddressConverter.ResolveWard | app.js:355-425 | the ward loop, the district lookup and the status decision compute the resolution for the chosen province |
| Converter.AddressConverter.FindInDatabase | app.js:312-426 | the method computes `findInDatabase` on the converter's catalog |
| Converter.AddressConverter.ProcessLine | app.js:443-492 | one pass of the batch loop computes the entry of `Batch.ProcessLine` on the converter's catalog |
| Converter.AddressConverter.ProcessBatch | app.js:429-504 | the batch loop computes the results array on the converter's catalog |

## Left out

- Loading the data is left out: `init`, the `fetch` of the three JSON files,
  `Promise.all` and their errors (app.js:55-122) are I/O. The catalog is
  stored with `Store` and `MarkLoaded`.
- The interface is left out: jQuery rendering, the progress bar, the
  `setTimeout` pauses inside `processBatch`, and events. None of them changes
  a result.
- The rest of `displayResults` is left out: `totalConfidence` and the
  percentages rounded with `Math.round` are display arithmetic in floating
  point. Only the status tally is modelled.
- The Excel export, file download and timestamps are left out. Only the
  quoting of the original address at app.js:645 is modelled.
- `JsText.Compile`: strings are sequences of Unicode scalar values, not
  UTF-16 code units. Without the `u` flag, the `.` of an abbreviation key
  (app.js:25-30) matches one code unit, that is half of a character outside
  the Basic Multilingual Plane such as an emoji. `\b` then fails between the
  two halves. In the model `.` takes the whole character, so a key such as
  `q.` followed by an emoji and a letter is expanded where JavaScript leaves
  the text alone.
- Scores and confidences are exact reals, not IEEE doubles. For example,
  0.5 + 0.1 + 0.05 is exact here.
- `toLowerCase` and `normalize('NFD')` are tables of the Vietnamese letters
  (`Normalizer.LowerChar`, `Normalizer.StripChar`). Other non-ASCII letters
  pass unchanged, and a decomposed input (a base letter followed by combining
  marks) is only stripped of its marks.
- The JavaScript regular-expression engine is not modelled in general. The
  `\b...\b` replacements are modelled character by character. The four
  fallback patterns are modelled over the words of the normalized text, which
  is exact because that text is space-canonical (`Normalizer.Normalize`,
  `Normalizer.NormalizeText`).
- `Parser.Parse`: for blank input the source's record has no
  `analyzedParts`; the model gives an empty sequence.
- `Batch.ProcessLine`: the message of the caught exception comes from the
  engine, so it is a parameter `failure`.
- Unit codes are compared as strings. The source compares `parent_code` and
  `code` with `===` on whatever the JSON holds.
- `Converter.AddressConverter.ScanBest`: the province loop and the ward loop
  of `findInDatabase` are one method, parameterised by the scoring rule.
- `Converter.AddressConverter.NormalizeText`: the character filter, the
  lower-casing and the diacritic stripping are applied as whole-string
  functions. Only the two `forEach` loops are written as loops.
- `Normalizer.StripDiacritics`: its own contract states only that the text
  does not grow. What stripping removes and keeps is stated by
  `StripDiacriticsClean`, `StripDiacriticsFixes` and `StripChar`. Quantified
  facts on a function this widely used make every proof that mentions it
  slower.
- `Normalizer.ExpandAbbreviations` and `Normalizer.ApplyAliases` carry no
  contract of their own. Their properties are lemmas
  (`ExpandUnchanged`, `ExpandProvenance`, `AliasesKeepShape`,
  `AliasProvenance`, `AliasesUnchanged`) and the loop methods `ExpandAll` and
  `AliasAll`.
