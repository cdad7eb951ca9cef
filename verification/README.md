# Halakhita core, modelled in Dafny

Halakhita is a web app for learning the Batak (Toba) script. The app has
five pieces of logic behind its user interface, and this project models all
five as pure Dafny functions and small state machines, with their properties
proved:

- **The store's transliterator** (`convertText` in the application store).
  - Latin to Batak lower-cases the input and splits it on spaces.
  - Each word is scanned left to right, trying a 3-, then 2-, then
    1-character key of an 18-entry record. Unmatched characters are copied.
  - Batak to Latin looks each character up in a 17-entry reverse record.
- **The converter page** (`Converter.tsx`).
  - Two `Map`s are built from the character table. Every character of the
    input is then rewritten on its own.
  - The page keeps a small state: input, output and direction. Three handlers
    change it.
- **The character table** (`batakCharacters.ts`): 22 entries and the three
  queries over them.
- **The utilities** (`utils.ts`): the `m:ss` clock, accuracy as a rounded
  percentage, progress levels, the Fisher–Yates shuffle, and the two script
  validators.
- **The two quizzes**:
  - the store's quiz actions and its user-progress merge;
  - the practice page's question generator, answer handler, score, accuracy
    and badges.

Modules follow the source files:

| Module | File | Models |
|---|---|---|
| `Text` | text.dfy | The JavaScript string and array built-ins the code relies on: ASCII `toLowerCase`, `split(" ")` / `join(" ")`, `includes`, `filter`, `find`, and record lookup used as a condition. |
| `Characters` | characters.dfy | `src/data/batakCharacters.ts` |
| `StoreConverter` | store_converter.dfy | `convertText` of `src/stores/useAppStore.ts` |
| `StoreQuiz` | store_quiz.dfy | The quiz actions and `updateUserProgress` of `src/stores/useAppStore.ts` |
| `CharMaps` | char_maps.dfy | The table-independent part of `src/components/features/Converter.tsx`: `new Map(pairs)` and the per-character rewrite. |
| `Converter` | converter.dfy | The rest of `Converter.tsx`: the two maps over the table, and the page state. |
| `Utils` | utils.dfy | `src/lib/utils.ts` |
| `Practice` | practice.dfy | `src/components/features/Practice.tsx` |

Strings are `seq<char>`. Every character in the data is in the Basic
Multilingual Plane, so one Dafny `char` is one UTF-16 unit of the source.
Glyphs are written as code points, for example `\U{1BC2}` for `ha`.

Clock readings and random draws become parameters or open choices:

- `Date.now()` is a `now` parameter, in milliseconds.
- Each `Math.random()` index becomes a `:|` choice within the bounds the code
  computes.
- The random-comparator sorts become the same open sequence of exchanges as
  `shuffleArray`. `Utils.ShuffleArray`'s `swaps` output records them.

Batak to Latin does not invert Latin to Batak on every table entry:

- In the store's converter, `nya` does not come back. Its two code points
  decode to `sa` followed by U+1BF0 (`StoreConverter.NyaRoundTrip`).
- On the converter page, `ya`'s glyph U+1BE8 reads back as `o`, because the
  later `o` row wins (`Converter.YaReadsAsO`). The page never produces that
  glyph from `ya`, so Latin text still comes back, lower-cased
  (`Converter.ConvertTextRoundTrip`).
- On the converter page, `nya`'s two code points read back as `sa` followed by
  U+1BF0. The page's map holds the pair as a key, but the text is split into
  single code points first (`Converter.NyaPairOnPage`).

## Model

| member | source | states |
|---|---|---|
| Characters.TableKeysDistinct | src/data/batakCharacters.ts:5-207 | The table has 22 entries. Their ids are pairwise distinct, and so are their Latin keys. |
| Characters.GlyphsNotInjective | src/data/batakCharacters.ts:160-188 | Two entries with different ids (`ya` and `o`) share the glyph U+1BE8. |
| Characters.GlyphsInBatakBlock | src/data/batakCharacters.ts:5-207 | Every glyph of the table lies in the Batak block U+1BC0–U+1BFF. |
| Characters.GetCharacterById | src/data/batakCharacters.ts:209-211 | There is a result exactly when some entry has the id. The result is a table entry with that id. |
| Characters.GetCharacterByOwnId | src/data/batakCharacters.ts:209-211 | Looking up any entry's own id returns that very entry, because ids are unique. |
| Characters.GetCharactersByCategory | src/data/batakCharacters.ts:213-217 | The result holds only entries of the category and every such entry. It is a subsequence of the table, so table order is kept. |
| Characters.CategoriesSplitTable | src/data/batakCharacters.ts:213-217 | On the shipped data, consonants are rows 0–17, modifiers rows 18–21, and the vowel category is empty. |
| Characters.MatchesQuery | src/data/batakCharacters.ts:219-227 | The search's test: the query occurs in the lower-cased Latin key, or in the glyph as typed, or in the lower-cased description. It is characterized by `SearchCharacters`, `SearchEmptyQuery` and `SearchIgnoresCase`. |
| Characters.SearchCharacters | src/data/batakCharacters.ts:219-227 | Every result passes one of the three tests, every entry that passes is in the result, and table order is kept. |
| Characters.SearchEmptyQuery | src/data/batakCharacters.ts:219-227 | The empty query returns the whole table. |
| Characters.SearchIgnoresCase | src/data/batakCharacters.ts:219-227 | Every query returns the same entries as its lower-cased form. The Latin and description tests lower-case both sides, and a query holding an upper-case letter cannot occur in a glyph. |
| Text.JoinSplit | src/stores/useAppStore.ts:194-218 | Joining the space-split words with single spaces gives back the text, so splitting loses nothing. |
| StoreConverter.KeyLengths | src/stores/useAppStore.ts:173-192 | Every key of the record is two or three letters long. |
| StoreConverter.GlyphsShape | src/stores/useAppStore.ts:173-192 | Every value of the record is a non-empty run of Batak code points. |
| StoreConverter.ReverseKeysShape | src/stores/useAppStore.ts:221-239 | Every key of the reverse record is one Batak code point, and it maps to a non-empty string. |
| StoreConverter.ConvertWord | src/stores/useAppStore.ts:195-218 | The word loop as a recursive definition. `LongestMatchIsLongest`, `KeyStep`, `UnmatchedCopied` and `ConvertWordChars` characterize it, and `ConvertWordLoop` shows the `while` loop computes it. |
| StoreConverter.LatinToBatakText | src/stores/useAppStore.ts:194-218 | Latin to Batak: lower-case, split on spaces, convert each word, join with spaces. It is characterized by the `LatinToBatak…` lemmas below and by `LatinRoundTrip`. |
| StoreConverter.LongestMatch | src/stores/useAppStore.ts:202-210 | A hit has length 1 to 3, and its glyphs are what the record holds for that piece of the word. |
| StoreConverter.LongestMatchIsLongest | src/stores/useAppStore.ts:202-210 | The probe finds the longest key that prefixes the rest of the word. It finds nothing exactly when no key does. |
| StoreConverter.Probe | src/stores/useAppStore.ts:202-210 | The `for (len = 3; len >= 1; len--)` loop, as written, returns the same hit as `LongestMatch`. |
| StoreConverter.ConvertWordLoop | src/stores/useAppStore.ts:196-216 | The `while` loop, as written, computes `ConvertWord`. This holds even when `i += len` steps past the end of a clipped `substring`. |
| StoreConverter.ConvertWordChars | src/stores/useAppStore.ts:196-216 | Every output character comes from the word or from a record value. Nothing else appears. |
| StoreConverter.WholeKeyConverts | src/stores/useAppStore.ts:199-210 | A key on its own converts to its value. |
| StoreConverter.KeyStep | src/stores/useAppStore.ts:173-210 | A key followed by anything converts to that key's glyphs first. A two-letter key is never read as part of a three-letter one. |
| StoreConverter.NgaIsOneGlyph | src/stores/useAppStore.ts:188-209 | `nga` becomes U+1BC5, not `n` followed by `ga`. |
| StoreConverter.NyaIsItsGlyphPair | src/stores/useAppStore.ts:188-209 | `nya` becomes U+1BD8 U+1BF0, not `n` followed by `ya`. |
| StoreConverter.KeysConvertOneByOne | src/stores/useAppStore.ts:173-215 | A word made of keys converts to their glyphs in the same order. |
| StoreConverter.UnmatchedCopied | src/stores/useAppStore.ts:211-214 | A word in which no character can start a key is copied unchanged. |
| StoreConverter.LatinToBatakEmpty | src/stores/useAppStore.ts:194-218 | Empty input gives empty output. |
| StoreConverter.LatinToBatakIgnoresCase | src/stores/useAppStore.ts:194 | Converting a text gives the same result as converting its lower-cased form. |
| StoreConverter.LatinToBatakWordwise | src/stores/useAppStore.ts:194-218 | Matching never crosses a space. The two sides of a space convert as if each stood alone. |
| StoreConverter.LatinToBatakKeepsSpaces | src/stores/useAppStore.ts:194-218 | The output has exactly as many spaces as the input. |
| StoreConverter.LatinToBatakOfKeys | src/stores/useAppStore.ts:173-218 | Text spelled from keys converts to the keys' glyphs in order. |
| StoreConverter.ReverseUndoesGlyphs | src/stores/useAppStore.ts:173-239 | Every glyph except that of `nya` is one code point, and the reverse record maps it back to its key. |
| StoreConverter.BatakToLatinText | src/stores/useAppStore.ts:241-244 | Batak to Latin through the reverse record, one code point at a time. The output is never shorter than the input. `BatakToLatinAppend`, `BatakToLatinKeepsOtherText`, `ReverseUndoesGlyphs` and `NyaDecodesAsSa` characterize it. |
| StoreConverter.BatakToLatinAppend | src/stores/useAppStore.ts:241-244 | Batak to Latin works character by character, so it distributes over concatenation. |
| StoreConverter.BatakToLatinKeepsOtherText | src/stores/useAppStore.ts:241-244 | Text without Batak code points passes through unchanged. |
| StoreConverter.NyaDecodesAsSa | src/stores/useAppStore.ts:188-243 | The `nya` glyph pair decodes to `sa` followed by U+1BF0, which is left undecoded. |
| StoreConverter.LatinRoundTrip | src/stores/useAppStore.ts:173-244 | Text spelled from keys other than `nya` survives Latin to Batak to Latin. |
| StoreConverter.NyaRoundTrip | src/stores/useAppStore.ts:188-243 | `nya` comes back from the round trip as `sa` followed by U+1BF0. |
| StoreConverter.ConvertText | src/stores/useAppStore.ts:165-248 | The action keeps input and mode. The output is the input converted in the current mode, so empty input gives empty output. |
| StoreConverter.ConvertTextIdempotent | src/stores/useAppStore.ts:165-248 | Converting twice is converting once. The previous output plays no part. |
| StoreQuiz.UpdateUserProgress | src/stores/useAppStore.ts:78-83 | With a stored progress, the patch is spread over it. With none, the patch itself is stored. Nothing else in the store changes. |
| StoreQuiz.MergeFields | src/stores/useAppStore.ts:80-81 | Each field the patch sets takes the patch's value. Every other field keeps the old value. |
| StoreQuiz.EmptyPatchKeeps | src/stores/useAppStore.ts:78-83 | An empty patch leaves a stored progress as it was. |
| StoreQuiz.UpdateIdempotent | src/stores/useAppStore.ts:78-83 | Applying the same patch twice is the same as applying it once. |
| StoreQuiz.UpdateTwice | src/stores/useAppStore.ts:78-83 | Two updates in a row are one update with the second patch spread over the first. |
| StoreQuiz.UpdateKeepsComplete | src/stores/useAppStore.ts:78-83 | A complete stored progress stays complete. With none stored, the result is complete exactly when the patch is. |
| StoreQuiz.FirstPartialUpdateIncomplete | src/stores/useAppStore.ts:82 | The cast is unchecked. A first update that sets one field stores a progress with the other fields missing. |
| StoreQuiz.StartQuiz | src/stores/useAppStore.ts:95-103 | The new quiz holds a rearrangement of the characters, with the same length and the same multiset. It is at index 0, has no answers, and started now. |
| StoreQuiz.SubmitQuizAnswer | src/stores/useAppStore.ts:105-116 | With a quiz, exactly one answer is appended and every other quiz field is unchanged. Without a quiz, nothing changes. |
| StoreQuiz.NextQuizQuestion | src/stores/useAppStore.ts:118-128 | With a quiz, the index goes up by exactly 1 and every other field is unchanged. Without a quiz, nothing changes. |
| StoreQuiz.AnswerAllRecords | src/stores/useAppStore.ts:105-128 | Answering and moving on through a list of answers records exactly that list, and advances the index by its length. |
| StoreQuiz.CountCorrect | src/stores/useAppStore.ts:135-141 | The count of right answers among the first `n` questions lies between 0 and `n`. |
| StoreQuiz.CountCorrectAll | src/stores/useAppStore.ts:135-141 | All `n` count as right exactly when each of the first `n` answers equals its question's Latin key. |
| StoreQuiz.CountCorrectNone | src/stores/useAppStore.ts:135-141 | The count is 0 exactly when none of the first `n` answers is right. |
| StoreQuiz.CountCorrectIgnoresExtra | src/stores/useAppStore.ts:135-141 | Answers past the last question do not count. |
| StoreQuiz.FinishQuiz | src/stores/useAppStore.ts:130-157 | With no quiz or no user, there is no result and nothing changes. Otherwise the result is the user's, and the total is the number of questions. The score is the count of questions answered with their Latin key, between 0 and the total. The quiz is cleared. |
| StoreQuiz.CountCorrectIsCardinality | src/stores/useAppStore.ts:135-141 | The recursive count equals the size of the set of positions answered with their Latin key. |
| StoreQuiz.FinishQuizScore | src/stores/useAppStore.ts:135-146 | The score is the size of the set of questions answered with their Latin key. It is full exactly when every question was, and 0 exactly when none was. |
| StoreQuiz.FinishQuizTime | src/stores/useAppStore.ts:148-150 | Time spent is the whole seconds since the start, rounded down, or 0 without a start time. |
| StoreQuiz.PerfectRun | src/stores/useAppStore.ts:105-157 | Answering every question of a fresh quiz with its Latin key and then finishing gives a full score. |
| CharMaps.FoldMap | src/components/features/Converter.tsx:19-30 | `new Map(pairs)` has exactly the keys of the pairs. |
| CharMaps.FoldMapLastWins | src/components/features/Converter.tsx:19-30 | A key maps to the value of its last pair. |
| CharMaps.MapChars | src/components/features/Converter.tsx:40-50 | Each character is replaced by its map value, or kept when it has none. The output is never shorter than the input. `MapCharsAppend`, `MapCharsRoundTrip` and `MapCharsKeepsOthers` characterize it. |
| CharMaps.ConvertWith | src/components/features/Converter.tsx:34-54 | The body of `convertText` over any two maps. It is characterized by `ConvertWithLatinSide`, `ConvertWithKeepsOthers` and `ConvertWithRoundTrip`. |
| CharMaps.MapCharsAppend | src/components/features/Converter.tsx:40-50 | The per-character rewrite distributes over concatenation. |
| CharMaps.VowelSignsOnlyKeeps | src/components/features/Converter.tsx:40-44 | Text with no vowel letter is its own vowel-sign rewrite. |
| CharMaps.ConvertWithLatinSide | src/components/features/Converter.tsx:38-44 | Over any maps holding only the vowel signs, Latin to Batak equals the reference rewrite `VowelSignsOnly` of the lower-cased text. |
| CharMaps.ConvertWithKeepsConsonants | src/components/features/Converter.tsx:38-44 | Over such maps, lower-case text without vowel letters passes through unchanged. |
| CharMaps.CharRoundTrip | src/components/features/Converter.tsx:38-50 | Over such maps, one non-Batak character sent out and back is itself. |
| CharMaps.MapCharsRoundTrip | src/components/features/Converter.tsx:38-50 | Over such maps, text without Batak characters sent out and back is itself. |
| CharMaps.MapCharsKeepsOthers | src/components/features/Converter.tsx:45-51 | A map with no key outside the Batak block copies text without Batak code points exactly. |
| CharMaps.ConvertWithKeepsOthers | src/components/features/Converter.tsx:45-51 | Over vowel-sign maps, Batak to Latin copies text without Batak code points as it is, upper case included. |
| CharMaps.PairDecodes | src/components/features/Converter.tsx:28-51 | A one-code-point key whose pair is the last with that key reads back, on the Batak side, as that pair's value. |
| CharMaps.UnkeyedDecodes | src/components/features/Converter.tsx:28-51 | A code point that is no pair's key is copied by the Batak side. |
| CharMaps.ConvertWithRoundTrip | src/components/features/Converter.tsx:34-54 | Over such maps, text without Batak characters converted to Batak and back comes out lower-cased. |
| Converter.LatinMap | src/components/features/Converter.tsx:17-26 | `new Map` of lower-cased Latin key to glyph, over the table. `LatinMapOnOneLetter` characterizes it. |
| Converter.BatakMap | src/components/features/Converter.tsx:28-32 | `new Map` of glyph to Latin key, over the table, last write winning. `BatakMapKeepsOthers`, `VowelSignDecodes`, `GlyphDecodesOnPage` and `NyaKeyOnPage` characterize it. |
| Converter.ConvertText | src/components/features/Converter.tsx:34-54 | The page's `convertText` over its two maps. `LatinSideIsVowelSignsOnly`, `BatakSideKeepsOthers`, `GlyphDecodesOnPage` and `ConvertTextRoundTrip` characterize it. |
| Converter.LatinMapOnOneLetter | src/components/features/Converter.tsx:17-26 | Looked up one character at a time, the Latin map holds only `i`, `o`, `u` and `e`, each mapped to its vowel sign. |
| Converter.BatakMapKeepsOthers | src/components/features/Converter.tsx:28-32 | A character outside the Batak block is not a key of the Batak map. |
| Converter.BatakSideKeepsOthers | src/components/features/Converter.tsx:45-51 | Batak to Latin copies text with no Batak code point exactly as it is, upper case included. |
| Converter.VowelSignDecodes | src/components/features/Converter.tsx:28-32 | Each vowel sign reads back as its letter. For U+1BE8 the later `o` row wins over `ya`. |
| Converter.PageMapsAreVowelSignMaps | src/components/features/Converter.tsx:17-32 | The page's two maps are vowel-sign maps. The generic `CharMaps` results therefore apply to them. |
| Converter.ConvertTextAppend | src/components/features/Converter.tsx:34-54 | Conversion distributes over concatenation in both directions. |
| Converter.LatinSideIsVowelSignsOnly | src/components/features/Converter.tsx:34-44 | Latin to Batak only ever rewrites `i`, `o`, `u` and `e`. Every other character comes out lower-cased and otherwise unchanged. |
| Converter.ConsonantsPassThrough | src/components/features/Converter.tsx:34-44 | Lower-case text with no vowel letter comes out exactly as typed. |
| Converter.ConvertTextRoundTrip | src/components/features/Converter.tsx:34-54 | Text with no Batak code point, converted to Batak and back, comes out lower-cased. |
| Converter.GlyphDecodesOnPage | src/components/features/Converter.tsx:28-51 | Every one-code-point glyph except U+1BE8 reads back, on the page, as its own row's Latin key: `ha`'s U+1BC2 reads `ha`, and so on. |
| Converter.UnkeyedCharKept | src/components/features/Converter.tsx:45-51 | A code point that is no row's glyph, even one inside the Batak block such as U+1BF0 (`MarkIsNoGlyph`), is copied. |
| Converter.NyaKeyOnPage | src/components/features/Converter.tsx:28-32 | The page's Batak map does hold `nya`'s two code points as a key, mapped to `nya`. |
| Converter.NyaPairOnPage | src/components/features/Converter.tsx:45-51 | The text is split into single code points first, so that key never matches: `nya`'s glyph pair reads as `sa` followed by U+1BF0. |
| Converter.YaReadsAsO | src/components/features/Converter.tsx:28-32 | The glyph of `ya` converts back to `o`. |
| Converter.SyllablesPassThrough | src/components/features/Converter.tsx:34-44 | As written, `ha` converts to `ha`, though the table maps it to U+1BC2. |
| Converter.SyllablesConvertToGlyphs | src/components/features/Converter.tsx:17-44 | With greedy longest-key matching over the same map, every entry's Latin key converts to that entry's glyph. |
| Converter.HandleInputChange | src/components/features/Converter.tsx:56-59 | The input is the typed text and the output is its conversion in the current direction. The direction is kept. |
| Converter.ToggleDirection | src/components/features/Converter.tsx:61-65 | The direction flips, and the input and output texts trade places. |
| Converter.ToggleTwice | src/components/features/Converter.tsx:61-65 | Toggling twice restores the state. |
| Converter.ToggleKeepsLowerCaseConsistent | src/components/features/Converter.tsx:56-65 | After lower-case Latin input, toggling leaves an output that is the conversion of the new input. |
| Converter.ToggleLosesCase | src/components/features/Converter.tsx:56-65 | Typing `O` and toggling leaves an output that is not the conversion of the new input. |
| Converter.ClearAll | src/components/features/Converter.tsx:77-80 | Both texts are emptied and the direction is kept. The empty state is consistent. |
| Converter.ClearAllIsEmptyInput | src/components/features/Converter.tsx:56-80 | Clearing is the same as typing the empty text, and clearing twice is clearing once. |
| Utils.NatToString | src/lib/utils.ts:13 | `n.toString()` is a non-empty run of decimal digits with no leading zero. |
| Utils.NatToStringValue | src/lib/utils.ts:13 | Reading `n.toString()` back as a decimal numeral gives `n`. |
| Utils.PadStart | src/lib/utils.ts:13 | The result has the target width, or the string's own length if longer. It ends with the string, and everything before is the fill character. |
| Utils.FormatTime | src/lib/utils.ts:10-14 | Minutes, a colon, and the seconds modulo 60 padded to two digits. `FormatTimeShape` and `FormatTimeInjective` characterize it. |
| Utils.FormatTimeShape | src/lib/utils.ts:10-14 | The clock reads `m:ss`. `m` is the minutes without leading zeros. `ss` is exactly two digits whose value is the seconds modulo 60. |
| Utils.FormatTimeInjective | src/lib/utils.ts:10-14 | Different second counts give different clocks. |
| Utils.CalculateAccuracy | src/lib/utils.ts:24-26 | The result is 0 when the total is not positive. Otherwise it lies within half a point of `100 * correct / total`, with ties going up. |
| Utils.AccuracyIsNearest | src/lib/utils.ts:24-26 | Any whole number within that half point is the accuracy, so rounding has exactly one answer. |
| Utils.AccuracyBounds | src/lib/utils.ts:24-26 | For `0 <= correct <= total`, the accuracy is between 0 and 100. It is 0 for none right and 100 for all right. |
| Utils.AccuracyMonotone | src/lib/utils.ts:24-26 | More right answers never lower the accuracy. |
| Utils.AccuracyAtLeast | src/lib/utils.ts:24-26 | Accuracy reaches `p` exactly when `200 * correct + total >= 2 * p * total`. |
| Utils.ProgressLevel | src/lib/utils.ts:28-34 | Beginner exactly below 30. Advanced exactly from 70. |
| Utils.ProgressLevelMonotone | src/lib/utils.ts:28-34 | A higher score never gives a lower level. |
| Utils.ApplySwapsPermutes | src/lib/utils.ts:40-47 | Any run of in-bounds exchanges keeps the length and the multiset of elements. |
| Utils.ShuffleArray | src/lib/utils.ts:40-47 | The result is a permutation of the input. It is the input with the recorded exchanges applied: one per `i` from the last index down to 1, each with `0 <= j <= i`. |
| Utils.IsValidBatakText | src/lib/utils.ts:60-64 | True exactly when some character lies in U+1BC0–U+1BFF. |
| Utils.IsValidLatinText | src/lib/utils.ts:66-70 | True exactly when every character is an ASCII letter, JavaScript white space, or one of `.,!?'"()-`. |
| Utils.ValidatorsOnEmpty | src/lib/utils.ts:60-70 | The empty string is valid Latin text and is not Batak text. |
| Utils.ValidatorsExclusive | src/lib/utils.ts:60-70 | No text passes both validators. |
| Practice.GenerateFrom | src/components/features/Practice.tsx:41-60 | Over any non-empty entry list: the target is an entry, and there are at most three distractors, each an entry with another id. The options are the answers of a rearrangement of target and distractors, and the correct answer is among at most four options. |
| Practice.GenerateQuestion | src/components/features/Practice.tsx:41-60 | The same over the reference table. The question's id and correct answer are the target's. |
| Practice.DuplicateOptions | src/components/features/Practice.tsx:45-51 | In `batak` mode, a question for `ya` with `o` as a distractor shows U+1BE8 twice, though the ids differ. |
| Practice.HandleAnswer | src/components/features/Practice.tsx:69-83 | Once answered, nothing changes. Otherwise the total goes up by exactly 1, and the score goes up by 1 exactly when the answer equals the correct one. |
| Practice.ShowResult | src/components/features/Practice.tsx:80-82 | The timer only shows the result. |
| Practice.StartNewQuestion | src/components/features/Practice.tsx:62-67 | The selection, the answered flag and the result are cleared. Score and total are untouched. |
| Practice.ResetQuiz | src/components/features/Practice.tsx:89-93 | Score and total are 0, and a fresh question is shown. |
| Practice.HandlersKeepValid | src/components/features/Practice.tsx:36-93 | `0 <= score <= totalQuestions` is kept by every handler. |
| Practice.AnswerOnce | src/components/features/Practice.tsx:69-71 | A second answer to the same question changes nothing. |
| Practice.Accuracy | src/components/features/Practice.tsx:99-100 | The page's own rounding, the same as `Utils.CalculateAccuracy`. `AccuracyRange` characterizes it. |
| Practice.AccuracyRange | src/components/features/Practice.tsx:99-100 | Accuracy is 0 before any answer, and always between 0 and 100. |
| Practice.Badges | src/components/features/Practice.tsx:368-396 | The badges shown, none before the first answer. `BadgeThresholds` and `AnsweringKeepsCountBadges` characterize it. |
| Practice.BadgeThresholds | src/components/features/Practice.tsx:368-396 | The accuracy badge shows exactly when `200 * score >= 159 * total`, that is accuracy of at least 80. The practice badge shows exactly when total >= 10. The learner badge shows exactly when score >= 5. |
| Practice.AnsweringKeepsCountBadges | src/components/features/Practice.tsx:69-396 | Answering never removes the practice or learner badge. A new question keeps all badges. A reset clears them. |

## Left out

- Rendering, animation, styling and the example-text buttons of the three pages.
- Clipboard writes and `alert`.
- The store's plain setters: `setCurrentUser`, `setCurrentLesson`,
  `setSelectedCharacter`, `setSidebarOpen`, `setCurrentView`,
  `setConverterInput`, `setConverterOutput` and `setConverterMode`. Each writes
  one field and holds no logic.
- zustand's persistence to local storage. It is storage I/O.
- `cn`, `formatDate`, `generateId` and `debounce`. They call into libraries,
  `Intl`, randomness or timers.
- The distributions of `Math.random`. Only the bounds of each draw are
  modelled.
- The practice page's mode and tab switches (`setQuizMode` followed by
  `resetQuiz`, and `setPracticeMode`). Their effect goes through React's
  re-render and effect scheduling, which is not modelled.
- `nextQuestion` (Practice.tsx lines 85-87) only calls `startNewQuestion`, so
  `Practice.StartNewQuestion` models it too.
- The one-second delay before the practice result shows. `ShowResult` is the
  timer's effect, applied whenever the caller chooses.
- Text.Lower: only ASCII letters are lower-cased, while JavaScript's
  `toLowerCase` covers all of Unicode. The table needs no more, but typed
  input can. U+212A KELVIN SIGN lower-cases to ASCII `k`, so the store
  converts KELVIN SIGN + `a` to the glyph of `ka`. The model leaves the sign
  as it is, so the `a` after it is not read as part of `ka`.
- Surrogate pairs. Input is taken to be BMP characters, so splitting an emoji
  into UTF-16 halves is not modelled.
- Utils.FormatTime: takes whole, non-negative seconds. The JavaScript
  function also accepts fractions and negatives.
- Utils.CalculateAccuracy: uses exact rational arithmetic with round half up.
  Agreement with IEEE doubles at exact `.5` boundaries is not claimed.
- Practice.Accuracy: the same rounding caveat as `Utils.CalculateAccuracy`.
- Practice.GenerateQuestion: states at most four options, not exactly four. The
  table has 21 entries with another id, so there are always three distractors.
  The model does not count the filtered list.
- StoreQuiz.StartQuiz: states only that the questions are a rearrangement. How
  a random comparator shuffles in a given JavaScript engine is not modelled.
- StoreQuiz.UpdateUserProgress: a patch key that is present with the value
  `undefined` is treated as absent. Object spread would copy the `undefined`.
- StoreQuiz.FinishQuiz: the source reads the clock three times: `Date.now()`
  for `id`, `new Date()` for `completedAt`, and `Date.now()` for `timeSpent`
  (useAppStore.ts lines 144, 148 and 150). The model reads it once. `id`
  is `quiz_` followed by that decimal reading, `completedAt` is the same
  reading, and `timeSpent` is measured up to it. No `Date` object is
  modelled.

## Findings

| source | as written | input that shows it | evidently intended | confidence | as-written member | corrected member |
|---|---|---|---|---|---|---|
| src/components/features/Converter.tsx:34-44 | Latin to Batak splits the text into single characters before the map lookup. Every consonant key (`ha`, `na`, … `nga`) is two or three letters, so none can match, and only `i`, `o`, `u`, `e` are ever converted. | `ha` converts to `ha`; the table maps it to U+1BC2. | Keys of the map match as whole syllables, longest first, as the store's converter does. Every entry's Latin key then converts to its glyph. | not executed; high that the output is as stated, medium that syllable matching was meant | Converter.SyllablesPassThrough | Converter.SyllablesConvertToGlyphs |
