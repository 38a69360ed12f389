# Phonetic alphabet teacher — answer checking

`phonetic_teacher.py` is a quiz for the military phonetic alphabet. It loads a
letter-to-code-word table from `alphabet.csv` and a word list from `words.csv`.
Then, round after round, it picks a word, takes a spoken or typed response and
checks it: the expected answer is the code-word of each letter, joined by single
spaces. When the response is wrong, the quiz walks the response word by word
and says which code-words were missed.

This project models the checking logic as Dafny functions and methods over
explicit inputs:

- `Text` (`text.dfy`) holds the parts of Python's `str` the script uses:
  - `lower()`;
  - `strip()`;
  - `split(sep)` with a one-character separator;
  - `sep.join`.
- `Colors` (`colors.dfy`) holds `class Color` and `color_me`.
- `Lookup` (`lookup.dfy`) builds the lookup table from CSV rows that have already been parsed. It is a loop over the rows with a map accumulator, proved equal to a fold over the rows.
- `WordList` (`word_list.dfy`) parses the word list from the file's text.
- `Grading` (`grading.dfy`) covers:
  - answer expansion and the verdict;
  - the mismatch walk, a loop proved equal to a recursive definition;
  - one round's feedback.

Python's `IndexError` is modelled as data:
- a data row with fewer than two fields gives `Err(ShortRow(i))`;
- the walk evaluates `w[0]` only where the response word differs from the expected word at its position. If that word is empty, the walk gives `Crashed(reports, at)`, where `reports` holds the lines emitted before the crash. An empty response word facing an empty expected word passes.

The TODO at `phonetic_teacher.py:7-9` asks for alternate spellings per
letter. The code keeps one spelling per letter, and a later row of
`alphabet.csv` replaces an earlier one for the same letter
(`Lookup.LoadLastWins`). The mismatch walk splits on a single space, so
spacing matters. It never reports a missing word, and it stops before the
last expected word (`Grading.WrongLastWordUnreported`).

## Model

| member | source | states |
|---|---|---|
| Colors.Code | phonetic_teacher.py:17-27 | every attribute of `Color` is an ANSI SGR sequence (ESC, `[`, digits, `m`) |
| Colors.ColorMe | phonetic_teacher.py:29-30 | the result is the style's code, then the text, then the reset code, with the lengths adding up; the style defaults to red |
| Colors.ColorMeInjective | phonetic_teacher.py:29-30 | a coloured text determines both the escape code and the original text |
| Colors.SgrPrefixUnique | phonetic_teacher.py:17-30 | a text that starts with an SGR code determines that code and the remainder |
| Colors.SameCodeOnlyForCyans | phonetic_teacher.py:17-27 | two styles share a code exactly when they are equal or both are CYAN/DARKCYAN |
| Lookup.LoadUpTo | phonetic_teacher.py:48-53 | the table after the rows before `n`; when it is an error, it names a data row below `n` with fewer than two fields |
| Lookup.Load | phonetic_teacher.py:48-53 | the table after all rows; an error names a data row with fewer than two fields, and a file with only a header gives the empty table |
| Lookup.BuildLookup | phonetic_teacher.py:48-53 | the loop that skips the header and assigns `lookup[line[0]] = line[1]` returns `Load` of the rows, including its error |
| Lookup.ErrorIsFinal | phonetic_teacher.py:50-53 | once a short row has stopped the build, the later rows change nothing |
| Lookup.LoadFailsAtFirstShortRow | phonetic_teacher.py:50-53 | the build succeeds iff every data row has at least two fields; otherwise the error names the first short data row |
| Lookup.LoadKeys | phonetic_teacher.py:50-53 | the table's keys are exactly the first fields of the data rows |
| Lookup.LoadLastWins | phonetic_teacher.py:53 | each data row's key maps to its second field unless a later row has the same key |
| Lookup.HeaderIgnored | phonetic_teacher.py:51-52 | the header row has no effect on the outcome |
| Lookup.LastRowWins | phonetic_teacher.py:53 | a data row with two fields, appended after a header and a successful build, wins for its key |
| Lookup.PrefixUnchanged | phonetic_teacher.py:50-53 | the build up to row `n` reads only the rows before `n` |
| Lookup.OneSpellingPerLetter | phonetic_teacher.py:7-9 | example: with rows `a,alfa`, `a,alpha`, `b,bravo` after any header, the table is `{a: alpha, b: bravo}`; only the later spelling of `a` is kept |
| Text.Lower | phonetic_teacher.py:79 | `lower()` keeps the length and maps every character on its own |
| Text.LowerIdempotent | phonetic_teacher.py:81 | lower-casing twice is lower-casing once |
| Text.Strip | phonetic_teacher.py:58 | `strip()` gives a string no longer than its input; `StripTrimmed`, `StripIsSlice` and `StripExact` say which |
| Text.StripTrimmed | phonetic_teacher.py:58 | the result of `strip()` neither starts nor ends with whitespace |
| Text.StripIsSlice | phonetic_teacher.py:58 | the result of `strip()` is a slice of its input with only whitespace before and after it |
| Text.StripExact | phonetic_teacher.py:58 | whitespace around a core that has no whitespace at either end is exactly what `strip()` removes |
| Text.Join | phonetic_teacher.py:79-80 | `sep.join` of n pieces holds at least n - 1 characters, and the separator whenever there are two pieces or more |
| Text.Split | phonetic_teacher.py:58 | `split(sep)` gives at least one piece, no piece holds the separator, and joining the pieces gives the input back |
| Text.SplitJoin | phonetic_teacher.py:79-80 | splitting a join of one or more separator-free pieces gives the pieces back |
| WordList.NonEmptyPositions | phonetic_teacher.py:58 | the positions of the pieces that pass the `w != ''` filter; each is below `n` |
| WordList.NonEmptyPositionsExactly | phonetic_teacher.py:58 | those positions are exactly the non-empty pieces, each once and in increasing order |
| WordList.StripNonEmpty | phonetic_teacher.py:58 | the comprehension keeps at most one word per piece |
| WordList.ParseWords | phonetic_teacher.py:57-58 | the words of the file's text, at most one per line |
| WordList.StripNonEmptyAt | phonetic_teacher.py:58 | the k-th word is the stripped k-th non-empty piece |
| WordList.WordsComeFromNonEmptyLines | phonetic_teacher.py:57-58 | each word is the stripped form of a line that was non-empty before stripping, in line order; every such line gives a word, and there are no more words than lines |
| WordList.ParseWordsOfLines | phonetic_teacher.py:58 | parsing a text joined from newline-free lines works on those lines |
| WordList.StripNonEmptyAppend | phonetic_teacher.py:58 | consecutive blocks of lines give their words block by block |
| WordList.BlankLines | phonetic_teacher.py:58 | an empty line is dropped, but a line of blanks gives the empty word |
| WordList.EmptyLinesDropped | phonetic_teacher.py:57-58 | for any two plain words, an empty line between them and a final newline give exactly the two words |
| WordList.BlankLineGivesEmptyWord | phonetic_teacher.py:57-58 | for any two plain words, a whitespace-only line between them gives an empty word between them |
| Grading.Expand | phonetic_teacher.py:79-80 | there is at most one code-word per character, and each code-word is a value of the table |
| Grading.Codewords | phonetic_teacher.py:79-80 | the code-words of the lower-cased word, at most one per character, each a value of the table |
| Grading.Answer | phonetic_teacher.py:79-80 | the joined answer is empty when no character is mapped, and is the single code-word when one is |
| Grading.IsCorrect | phonetic_teacher.py:81 | a correct response has exactly the length of the answer |
| Grading.CodewordsAppend | phonetic_teacher.py:79-80 | expansion works character by character, in word order |
| Grading.CodewordsOfChar | phonetic_teacher.py:79-80 | a mapped character gives its code-word, and an unmapped one gives nothing |
| Grading.UnmappedCharSkipped | phonetic_teacher.py:79-80 | inserting an unmapped character changes nothing |
| Grading.CodewordAt | phonetic_teacher.py:79-80 | the code-word of a mapped character appears at the position given by the number of code-words before it |
| Grading.MappedCount | phonetic_teacher.py:79-80 | the number of characters whose lower-case form is a key, at most the word's length |
| Grading.CodewordsCount | phonetic_teacher.py:79-80 | there are exactly as many code-words as mapped characters |
| Grading.CodewordsFullLength | phonetic_teacher.py:79-80 | there are as many code-words as characters iff every lower-cased character is mapped |
| Grading.AnswerParts | phonetic_teacher.py:79-80 | when no code-word holds a space, the answer's space-separated parts are exactly the code-words, and the answer is empty when none is mapped |
| Grading.VerdictIgnoresCase | phonetic_teacher.py:81 | the verdict does not depend on the case of the response or of the word |
| Grading.AcceptedOnlyIfAnswerLowercase | phonetic_teacher.py:81 | a response can be accepted only if the answer has no capitals, and the verbatim answer is accepted exactly then |
| Grading.CorrectIffWordsMatch | phonetic_teacher.py:81 | when the word has a mapped character and no code-word holds a space, a response is correct iff its single-space split equals the code-words, so spacing counts |
| Grading.Heard | phonetic_teacher.py:97 | `lookup.get(w[0], 'Not a valid word')`: a table value when the first letter is a key, the default otherwise |
| Grading.Examined | phonetic_teacher.py:90-93 | the number of positions the loop visits: the smaller of the number of response words and the number of expected words less one |
| Grading.FlaggedBelowExactly | phonetic_teacher.py:91-94 | the flagged positions are, in increasing order, exactly the positions where the response word differs |
| Grading.Flagged | phonetic_teacher.py:90-94 | a position is flagged iff it is below the number of response words and below the last expected word, and the words there differ; the last expected word is never flagged |
| Grading.WalkUpTo | phonetic_teacher.py:91-97 | the walk over the first `k` positions has at most `k` reports, and a crash lies below `k` at an empty response word that differs from the expected word |
| Grading.WalkOf | phonetic_teacher.py:88-97 | the whole walk reports fewer lines than there are expected words, and a crash lies at an empty response word before the last expected word |
| Grading.WalkReportsFlagged | phonetic_teacher.py:91-97 | the walk either reports every flagged position in order, each with the expected word and the lookup of the response word's first letter, or stops at the first flagged empty word after reporting the positions before it |
| Grading.ReportsAtLength | phonetic_teacher.py:95-97 | there is one report per flagged position |
| Grading.CrashIsFinal | phonetic_teacher.py:97 | once the walk has stopped on an empty word, later positions change nothing |
| Grading.MismatchWalk | phonetic_teacher.py:88-89 | the walk of the split lower-cased response against the split answer is `WalkOf` of the two |
| Grading.WalkWords | phonetic_teacher.py:90-97 | the loop, which indexes the expected words only below the break, returns `WalkOf` of the word lists |
| Grading.CheckResponse | phonetic_teacher.py:79-97 | the round congratulates iff the response is correct; otherwise it shows the response, the answer and the mismatch walk |
| Grading.ExtraWordsIgnored | phonetic_teacher.py:91-93 | response words past the last examined position are never looked at |
| Grading.WrongLastWordUnreported | phonetic_teacher.py:90-94 | a response that is wrong only in its last code-word is judged incorrect, yet the walk reports nothing |
| Grading.SplitDoubledSpace | phonetic_teacher.py:88 | splitting on `' '` turns a doubled space into an empty word |
| Grading.DoubledSpaceStopsWalk | phonetic_teacher.py:88-97 | a lower-cased response with a doubled space after a correct (possibly empty) first word stops the walk with `IndexError` at the empty word, before any report |

## Left out

- `say_answer` and the `speech_recognition` recogniser, microphone and web service are not modelled. They are audio I/O and a network call. The response is a parameter.
- Opening `alphabet.csv` and `words.csv` and the `csv.reader` parsing are not modelled. They are file I/O and a library parser. The model starts from the rows and from the file's text.
- `random.choice`, the `input()` prompts, the outer `while True` loop and the `except Exception` fallback to typed input are not modelled. They are interactive, nondeterministic control flow. The word and the response are parameters.
- The `print` calls are not modelled. Their contents are returned as data: `Feedback`, with `Report` for each "You seem to have missed" line.
- Colors.ColorMe: the style is a `Style` value, so `getattr` with a name that is not an attribute of `Color` (an `AttributeError`) is not modelled.
- Text.Lower: only ASCII capitals are lower-cased. Python's full Unicode case mapping is not modelled.
- Grading.MismatchWalk: when the walk crashes, the program ends with an uncaught `IndexError`, and the model returns `Crashed` instead. The lines printed before the crash are kept in the result.
- Text.Strip: its own contract states only that the result is no longer than the input. What `strip()` removes is stated by the lemmas `Text.StripTrimmed`, `Text.StripIsSlice` and `Text.StripExact`. Keeping the function's contract small keeps the proofs about word lists cheap.
- Text.Join: its own contract states only a length bound and the presence of the separator. The full relation with splitting is stated by `Text.Split` and `Text.SplitJoin`.
