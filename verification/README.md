# Meter-reading extraction, modelled in Dafny

The application reads a utility meter from a photo. An OCR engine
returns a list of text fragments, and `extract_logic` (app.py:32-54) turns
those fragments into a single reading, or into the string `"Cek Foto"`
("check the photo") when it finds none. This project models
`extract_logic` and proves properties of it. It works in four stages.

1. **Normalise** (module `Normalize`, app.py:34-44).
   - The fragments are joined with one space, upper-cased, and every `,` becomes `.`.
   - Then the `str.replace` loop runs over the confusion table. The table maps
     `O D Q` to `0`, `B` to `8`, `S` to `5`, `G` to `6`, `I L` to `1`,
     `T` to `7`, `Z` to `2` and `A` to `4`.
   - The loop is modelled as written (`ApplyMapping`, one replace per entry,
     in dictionary order). It is proved equal to a per-character
     substitution, and so independent of the order of the entries.
2. **Scan** (module `Scan`, app.py:48). `re.findall(r'\d{5,8}(?:\.\d{1,3})?')`.
   - `MatchAt` gives the end of the greedy match at a position. It is proved
     to be the end of the longest reading-shaped prefix there, and to be
     absent exactly when no reading starts there.
   - `ScanFrom` is the findall loop. It is proved equal to the declarative
     description `IsFindAll` (leftmost match, longest match, resume after
     it), and that description has exactly one solution.
3. **Filter and rank** (module `Select`, app.py:51-52).
   - Candidates whose non-point characters are all the same are dropped.
   - `valid.sort(key=len, reverse=True)` is a stable sort. It is modelled by
     a stable insertion sort, which is proved to be a permutation, sorted
     longest first, and order-preserving within each length.
   - Any two lists with those properties are proved equal. So the insertion
     sort gives the same list as Python's Timsort.
4. **Result** (module `Extract`, app.py:54). The head of the sorted list, or
   `"Cek Foto"` when the list is empty.

Module `Chars` holds the ASCII character predicates. Module `Scenarios`
works through concrete inputs.

The code strips no unit words (`KWH`, `M3`) before the letter map. It
returns the bare reading or the bare string `"Cek Foto"`, not a tagged
result, and so does the model.

## Model

| member | source | states |
|---|---|---|
| Extract.ExtractLogic | app.py:32-54 | The result is `"Cek Foto"` exactly when no candidate of the normalised text survives the filter. Otherwise it is a reading (5-8 digits, optionally a point and 1-3 digits) of 5 to 12 characters with two distinct digits, the longest survivor, and the first survivor of that length. |
| Extract.ExtractFrom | app.py:48-54 | The same properties, stated for an already-normalised text. |
| Extract.ExtractIsEarliestLongest | app.py:48-54 | A non-sentinel result is the text of a surviving match. No surviving match is longer, and every surviving match that starts earlier in the text is strictly shorter. |
| Extract.ResultIsSlice | app.py:48-54 | A non-sentinel result is a contiguous slice of the normalised text. |
| Extract.ResultWithinOneFragment | app.py:34-48 | A non-sentinel result lies inside the normalised text of a single OCR fragment. The joining space can never be part of a reading. |
| Extract.SurvivingSpansOfText | app.py:48-51 | The surviving match positions are exactly the matches whose text passes the filter. They are in text order, and their texts are the list `valid`. |
| Extract.NoFiveDigitRunGivesSentinel | app.py:48-54 | A normalised text with no five digits in a row yields `"Cek Foto"`. |
| Extract.EmptyGivesSentinel | app.py:34-54 | An empty fragment list yields `"Cek Foto"`. |
| Extract.OneDigitValueGivesSentinel | app.py:50-54 | A text whose digits are all the same digit yields `"Cek Foto"`, because every candidate repeats that digit. |
| Extract.Survivors | app.py:48-51 | `valid` before the sort holds exactly the candidates that pass the filter, and every element is a reading. `Select.KeepVariedConcat` fixes their order. |
| Extract.SurvivorShape | app.py:48-51 | Every survivor is a reading of 5 to 12 characters with two distinct digits, and it can never equal the sentinel. |
| Normalize.Join | app.py:34 | The joined text is empty for no fragments. Otherwise its length is the total length of the fragments plus one separator between each two neighbours. |
| Normalize.JoinFragments | app.py:34 | Fragment `k` appears in the joined text at offset `Offset(k)`: the lengths of the earlier fragments plus one separator after each. |
| Normalize.JoinSeparators | app.py:34 | A space follows every fragment of the joined text except the last. With `JoinFragments` and the length this fixes every character of the join. |
| Normalize.UpperCase | app.py:34 | Upper-casing keeps the length, leaves no small letter, turns each small letter into its own capital and keeps every other character. |
| Normalize.ReplaceChar | app.py:34-44 | One `str.replace` of a character: every occurrence of the key becomes the value, none is left when they differ, and every other character is kept. |
| Normalize.ApplyMapping | app.py:43-44 | The replace loop adds and removes no character, and keeps every character that is no key of the table. |
| Normalize.NormalChar | app.py:34-44 | A normalised character is never a lower-case letter, a comma or a letter of the confusion table. |
| Normalize.ConfusableLettersEitherCase | app.py:34-44 | Every letter of the confusion table becomes its digit whether OCR returned it as a capital or as a small letter, because `upper()` runs before the map. |
| Normalize.FullText | app.py:34-44 | The normalised text has the length of the joined fragments. Each character is the normalisation of the joined character at the same position: upper-cased, `,` to `.`, confusable letter to digit. |
| Normalize.ApplyMappingIsSubstitution | app.py:43-44 | When no replacement value is itself a key, the sequential replace loop equals replacing each character by its table entry in one pass. |
| Normalize.ReplacementOrderIrrelevant | app.py:37-44 | Two orderings of the same table with distinct keys, where no value is a key, give the same text. |
| Normalize.MappingOrderWellFormed | app.py:37-42 | The keys of the confusion table are capital letters, the values are digits, no value is a key, and no key repeats. |
| Normalize.MappingOrderLookup | app.py:37-44 | The table lookup sends `O D Q` to `0`, `B` to `8`, `S` to `5`, `G` to `6`, `I L` to `1`, `T` to `7`, `Z` to `2`, `A` to `4`, and leaves every other character unchanged. |
| Normalize.NormalStringOfJoin | app.py:34-44 | Normalising the joined text equals joining the normalised fragments, because normalisation works character by character and keeps the space. |
| Normalize.SpaceFreeSliceOfFullText | app.py:34 | A space-free slice of the normalised text is a slice of the normalised text of one fragment. |
| Normalize.NormalCharKeeps | app.py:34-44 | Digits, points and spaces pass through normalisation unchanged. |
| Chars.ToUpper | app.py:34 | A lower-case letter becomes the capital at the same place in the alphabet. The result is a capital letter exactly when the input is an ASCII letter. Other characters are unchanged. |
| Scan.MatchAtIsLongestReading | app.py:48 | A match at a position ends where the longest reading starting there ends. There is no match exactly when no reading starts there. |
| Scan.MatchAt | app.py:48 | The regular expression engine's attempt at one position: a match there has at least five characters and ends within the text. `MatchAtIsLongestReading` gives its full behaviour. |
| Scan.MatchIsReading | app.py:48 | The text matched at a position is a reading. |
| Scan.ReadingShape | app.py:48 | A reading has 5 to 12 characters and starts with five digits. Every character is a digit or a point, and there is at most one point. |
| Scan.CountDigits | app.py:48 | The greedy `\d{0,cap}` run: all counted characters are digits, and the run stops only at the cap, the end of the text, or a non-digit. |
| Scan.ScanFrom | app.py:48 | The matches lie within the text, have positive length, and are in order without overlapping. |
| Scan.ScanFromReadings | app.py:48 | Every match found covers a reading. |
| Scan.ScanIsFindAll | app.py:48 | The scan returns a list exactly when that list is the leftmost-longest, non-overlapping findall result. |
| Scan.FindAllIsUnique | app.py:48 | The findall description has at most one solution. |
| Scan.Candidates | app.py:48 | Every string found is a reading. |
| Scan.DigitRunChunksAt | app.py:48 | Once the scan reaches the first digit of a maximal run not followed by a point and a digit, the run yields eight-digit candidates from the left, then the rest only when it has at least five digits, and the scan carries on after the run. |
| Scan.ScanPassesThrough | app.py:48 | No match runs across a character that is neither a digit nor a point, so the scan from an earlier position ends with the scan from just after such a character. |
| Scan.RunChunksInCandidates | app.py:48 | A maximal digit run that starts the text or follows such a separator, and is not followed by a point and a digit, appears in the text's candidates as its eight-digit pieces from the left, then the rest when it has five or more digits. |
| Scan.DigitRunChunks | app.py:48 | A text made only of digits is cut into eight-digit pieces from the left, followed by the rest only when it has at least five digits. |
| Select.RemoveDots | app.py:51 | The result holds exactly the non-point characters of the input. |
| Select.Varied | app.py:51 | A candidate that passes the filter has at least two characters besides points. |
| Select.VariedIffTwoDistinct | app.py:51 | `len(set(p.replace('.', ''))) > 1` holds exactly when two non-point characters of `p` differ. |
| Select.KeepVaried | app.py:51 | An element is kept exactly when it is a candidate that passes the filter. |
| Select.KeepVariedConcat | app.py:51 | Filtering a concatenation is concatenating the filtered parts, so the comprehension keeps the order and the repetitions of the candidates. |
| Select.KeepVariedOne | app.py:51 | A single candidate is kept exactly when it passes the filter. With `KeepVariedConcat` this fixes `valid` completely. |
| Select.SortByLengthDesc | app.py:52 | The sorted list is a permutation of its input, ordered longest first. |
| Select.SortIsStable | app.py:52 | Within each length, the sorted list keeps the input order. |
| Select.StableSortIsUnique | app.py:52 | Two longest-first lists that agree on the order within every length are equal, so every stable sort by length gives this result. |
| Select.SortHeadIsFirstLongest | app.py:52-54 | The head of the sorted list is the first of the longest elements of its input. |
| Scenarios.ConfusableLettersBecomeDigits | app.py:34-44 | The fragment `O12B45` normalises to `012845`. |
| Scenarios.ConfusableLettersReading | app.py:32-54 | `extract_logic(["O12B45"])` returns `012845`. |
| Scenarios.ThirteenDigitRun | app.py:48 | Thirteen digits yield the candidates `12345678` and `90123`. |
| Scenarios.FractionStopsAtThreeDigits | app.py:48 | In `12345.6789` the fraction stops after three digits, so the only candidate is `12345.678`. |
| Scenarios.TwoCandidatesReading | app.py:51-54 | With two candidates, each having two different leading digits, the reading is the second one only when it is strictly longer. Otherwise it is the first. |
| Scenarios.TwoDigitFragments | app.py:34 | Two fragments made only of digits are read from the text "first, space, second". |
| Scenarios.TwoRuns | app.py:48 | Two runs of five to eight digits separated by a space are two candidates, in text order. |
| Scenarios.LongerSecondRunWins | app.py:32-54 | `extract_logic(["12345", "1234567"])` returns `1234567`, because the later candidate is longer. |
| Scenarios.ThirteenDigitsReading | app.py:48-54 | Eight digits followed by five, each part with two different leading digits, read as the first eight: the earlier, longer candidate wins. |
| Scenarios.DigitFragmentReadsItself | app.py:34-44 | A single fragment made only of digits is its own normalised text. |
| Scenarios.RepeatedDigitFragment | app.py:32-54 | A single fragment of one repeated digit yields `"Cek Foto"`. |
| Scenarios.RepeatedDigitIsRejected | app.py:50-54 | `extract_logic(["000000"])` returns `"Cek Foto"`. |

## Left out

- The Streamlit interface, the camera and upload widgets, the Excel export,
  the session history and the timestamps (app.py:56 onward). They are I/O
  and state around the core, not part of it.
- The OCR reader (app.py:17-21) and the image preprocessing
  `pre_process_vision` (app.py:23-30). They are foreign code and floating-point image work.
  The model starts from the fragment list the OCR returns.
- Unicode. `str.upper()` and `\d` in Python cover all of Unicode. The model
  upper-cases only `a`-`z` and treats only `0`-`9` as digits. Other
  characters pass through unchanged. Text with non-ASCII letters or digits
  can therefore be read differently by the program.
- Select.SortByLengthDesc: Python's Timsort is not modelled step by step.
  The model uses a stable insertion sort instead.
  Select.StableSortIsUnique shows that every stable sort by length gives
  the same list, so the result is unaffected.
- Determinism and totality need no lemma. `ExtractLogic` and `ExtractFrom`
  have no precondition, and each is a mathematical function of its input.
