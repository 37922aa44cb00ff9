# TruthfulQA evaluation scripts: the string and score layer

The multiple-choice evaluation script `tfqa_mc_eval.py` and the
factual-recall script `factural_eval.py` drive a language model over the
TruthfulQA questions. Below the model calls they share a small layer that
is fully deterministic:

- normalising the reference answers of a dataset row (`split_multi_answer`,
  `format_best`);
- assembling the few-shot prompts (`create_demo_text` and the three
  `build_prompt*` functions);
- reading a `#### <number>` answer out of a completion and comparing it with
  the reference (`extract_answer_from_output`, `is_correct`);
- naming a downloaded file after its URL (the file-name rule of
  `download_url`);
- the MC1 and MC3 scores with the `max` and `diff` entries of `MC_calcs`;
- choosing the slice of the dataset a process evaluates in parallel mode.

This project models that layer in Dafny and proves what the scripts rely on.

| module (file) | models |
|---|---|
| `PyErrors` (`py_errors.dfy`) | the Python exceptions the code can raise, `Result` and `Option` |
| `PyStr` (`py_str.dfy`) | `str.isspace`, `strip`, `split` with one character, `rpartition`, and `Count`, the number of separators, which bounds the number of pieces |
| `AnswerPieces` (`answer_pieces.dfy`) | the "strip each piece, skip empty ones" part of both `split_multi_answer` loops |
| `TfqaAnswers` (`tfqa_answers.dfy`) | `split_multi_answer` and `format_best` of `tfqa_mc_eval.py` |
| `FacturalAnswers` (`factural_answers.dfy`) | `split_multi_answer` of `factural_eval.py`, and its `format_best` |
| `AnswerExtraction` (`answer_extraction.dfy`) | `ANS_RE`, `extract_answer_from_output`, `is_correct` |
| `Prompts` (`prompts.dfy`) | `create_demo_text`, `build_prompt`, `build_prompt_with_answer`, `build_prompt_and_answer` |
| `DownloadName` (`download_name.dfy`) | lines 96-97 of `download_url` |
| `McScores` (`mc_scores.dfy`) | `max`, `diff`, MC1 and MC3 of `MC_calcs` |
| `Sharding` (`sharding.dfy`) | the `--parallel` slice of the dataset |

Modelling choices:

- Both `split_multi_answer` functions and `create_demo_text` work by
  appending to a list or string in a loop. Each is a Dafny `method` with that
  loop. Each is proved against a specification function (`Kept`, `CloseAll`,
  `Answers`, `DemoText`), and the lemmas state their properties in terms of
  that function.
- The other operations are single expressions or conditionals in the
  scripts, so they are functions here.
- A Python exception on an input the code does not guard against is an
  `Err` value, not a precondition. Five exceptions appear:
  - `IndexError` for `best[-1]` on an empty string and for `file[0]` on an
    empty segment;
  - `ValueError` for `max([])` and for `list.index` of a missing item;
  - `AssertionError` from `is_correct`;
  - `ZeroDivisionError` and `TypeError` in the shard arithmetic.
- Separators are single characters, which is how both scripts call
  `split_multi_answer` (`';'` and `','`).
- Scores are exact reals.
- `format_best` is character for character the same in both scripts. It is
  modelled once, as `TfqaAnswers.FormatBest`. The factual script's module
  states the properties that matter for it.
- Python's `//` floors toward negative infinity, while Dafny's `/` is
  Euclidean. `FloorDiv` writes out the floored quotient. `SliceIndex` writes
  out how a slice bound is wrapped (negative bounds) and clamped.
- The prompt builders are stated for an arbitrary demonstration text `demo`
  (`PromptFor`, `PromptWithAnswerFor`, `PromptAndAnswerFor`).
  `BuildPrompt`, `BuildPromptWithAnswer` and `BuildPromptAndAnswer` apply
  them to `DemoText()`, so every property proved for an arbitrary `demo`
  holds for the scripts' prompts.

## Model

| member | source | states |
|---|---|---|
| PyStr.Strip | tfqa_mc_eval.py:40 | `str.strip()`: the result is no longer than the input and has no whitespace (in the sense of `str.isspace`) at either end |
| PyStr.RStripDropsSpace | tfqa_mc_eval.py:40 | what `rstrip` removes is whitespace |
| PyStr.TrimmedInfixShift | tfqa_mc_eval.py:40 | a leading whitespace character moves a whitespace-bounded infix one place right |
| PyStr.StripInfix | tfqa_mc_eval.py:40 | `strip` removes only outer whitespace: the result is the infix `s[k..k+len]` of the input, with only whitespace before and after it; `k` is returned |
| PyStr.RStripEmpty | tfqa_mc_eval.py:40 | `rstrip` leaves nothing exactly when every character is whitespace |
| PyStr.StripEmpty | tfqa_mc_eval.py:43-44 | `strip` leaves an empty string exactly when every character is whitespace: this is what `len(a)` tests |
| PyStr.StripTrimmed | tfqa_mc_eval.py:43 | a string without outer whitespace is its own strip |
| PyStr.StripIdempotent | tfqa_mc_eval.py:60 | stripping twice is stripping once |
| PyStr.Count | factural_eval.py:39 | the number of separators in the string, used to bound the number of pieces; it is at most the length |
| PyStr.CountZero | factural_eval.py:39 | the count is zero exactly when the character does not occur |
| PyStr.Split | tfqa_mc_eval.py:40 | `str.split(sep)` always yields at least one piece and at most one more than the length |
| PyStr.SplitCount | tfqa_mc_eval.py:40 | there is exactly one more piece than there are separators |
| PyStr.SplitJoin | tfqa_mc_eval.py:40 | no piece contains the separator, and joining the pieces with it gives back the string (`sep.join(s.split(sep)) == s`) |
| PyStr.SplitNoSeparator | factural_eval.py:39 | a string without the separator splits into itself alone |
| PyStr.SplitConcat | tfqa_mc_eval.py:40 | the pieces of `p + sep + q` are the pieces of `p` followed by those of `q` |
| PyStr.SplitFirst | tfqa_mc_eval.py:97 | the first piece is the text before the first separator, and the separator follows it unless it is the whole string |
| PyStr.AfterLast | tfqa_mc_eval.py:96 | `rpartition(c)[2]` is a suffix without `c`, preceded by `c` whenever it is not the whole string |
| AnswerPieces.Kept | tfqa_mc_eval.py:42-44 | the kept answers are non-empty, have no outer whitespace, and are no more numerous than the pieces |
| AnswerPieces.KeptStep | tfqa_mc_eval.py:42-44 | one more piece appends its stripped text at the end when that text is non-empty, and nothing otherwise |
| AnswerPieces.KeptConcat | tfqa_mc_eval.py:42-44 | keeping distributes over concatenation, so answers stay in the order of their pieces |
| AnswerPieces.KeptComplete | tfqa_mc_eval.py:42-44 | every piece whose strip is non-empty is kept |
| AnswerPieces.KeptSound | tfqa_mc_eval.py:42-44 | every kept answer is the strip of some piece, whose index is returned |
| AnswerPieces.KeptMembers | tfqa_mc_eval.py:42-44 | an answer is kept if and only if it is the non-empty strip of some piece |
| AnswerPieces.KeptSplitConcat | tfqa_mc_eval.py:40-44 | the answers of `p + sep + q` are those of `p` followed by those of `q` |
| TfqaAnswers.Closed | tfqa_mc_eval.py:45-51 | under close the answer ends in `.` and grows by at most that one character; without close it is unchanged; it is unchanged exactly when close is off or the answer already ends in `.` |
| TfqaAnswers.CloseAll | tfqa_mc_eval.py:45-51 | the closing rule applied to each answer, keeping length and order |
| TfqaAnswers.SplitMultiAnswer | tfqa_mc_eval.py:36-53 | the loop returns, position by position, the kept pieces of the stripped cell, each closed. There are at most as many as pieces (separators + 1). Each is non-empty, has no outer whitespace and, under close, ends in `.`. A whitespace-only cell gives `[]` |
| TfqaAnswers.SplitAnswersShape | tfqa_mc_eval.py:36-53 | the specification of the loop's result meets the length bound, the shape of each answer, and gives `[]` for a blank cell |
| TfqaAnswers.BlankHasNoAnswers | tfqa_mc_eval.py:40-44 | a whitespace-only cell has no non-empty pieces |
| TfqaAnswers.CloseAllStep | tfqa_mc_eval.py:42-51 | one loop turn appends at most one closed answer, at the end |
| TfqaAnswers.ClosedIsReference | tfqa_mc_eval.py:45-51 | closing a trimmed answer gives the shape `split_multi_answer` promises |
| TfqaAnswers.FormatBest | tfqa_mc_eval.py:56-64 | it fails with IndexError exactly when close is set and the stripped answer is empty. Otherwise: without close it is the strip. With close it ends in `.` and is the strip, or the strip plus `.` exactly when the strip did not end in `.`. The result has no outer whitespace |
| TfqaAnswers.FormatBestFixed | tfqa_mc_eval.py:56-64 | an answer already trimmed (and ending in `.` under close) is returned unchanged |
| TfqaAnswers.FormatBestIdempotent | tfqa_mc_eval.py:56-64 | formatting a formatted best answer changes nothing |
| FacturalAnswers.Answers | factural_eval.py:39-43 | the answers of a stripped cell number at most its commas (separators). Each is non-empty without outer whitespace. A cell without the separator has none |
| FacturalAnswers.SplitMultiAnswer | factural_eval.py:35-52 | the loop over `answers[:-1]` returns `Answers` of the stripped cell, whatever `close` is: both branches append the stripped piece unchanged and no `.` is added |
| FacturalAnswers.LastPieceDiscarded | factural_eval.py:39-41 | the text after the last separator never contributes: the answers of `p + sep + q` (no separator in `q`) are the kept pieces of `p` |
| FacturalAnswers.TrailingSeparatorKeepsAll | factural_eval.py:39-41 | a cell ending in the separator loses nothing: its answers are all kept pieces before it |
| FacturalAnswers.FormatBestAppendsAtMostOne | factural_eval.py:55-63 | with close, `format_best` fails exactly on a blank answer. Otherwise it ends in `.`, appends at most one character to the strip, and is idempotent |
| AnswerExtraction.RunEnd | tfqa_mc_eval.py:26 | the greedy `[0-9\.\,]+` run ends at the first character outside the class |
| AnswerExtraction.MatchAt | tfqa_mc_eval.py:26 | a match at `p` means `#### ` at `p` followed by the group: non-empty, an optional leading `-` followed by at least one class character, all else in `[0-9.,]`. The group is greedy: the character after it is outside the class or the text ends. Conversely `#### ` followed by a class character, or by `-` and a class character, always matches |
| AnswerExtraction.SearchFrom | tfqa_mc_eval.py:113 | `re.search` finds the leftmost matching position, or reports that none exists |
| AnswerExtraction.RemoveAll | tfqa_mc_eval.py:116 | `replace(",", "")` removes exactly the commas: the length drops by their count and every other character stays |
| AnswerExtraction.RemoveAllConcat | tfqa_mc_eval.py:116 | removal distributes over concatenation, so the kept characters stay in order and with their multiplicity |
| AnswerExtraction.RemoveAllAbsent | tfqa_mc_eval.py:116 | a string without the character is unchanged |
| AnswerExtraction.ExtractAnswerFromOutput | tfqa_mc_eval.py:112-119 | `"[invalid]"` is returned exactly when no match exists. Otherwise the answer has no `,`, uses only `-0123456789.`, and has `-` at most in front |
| AnswerExtraction.GroupGivesAnswerText | tfqa_mc_eval.py:115-116 | removing the commas from a group leaves answer text |
| AnswerExtraction.ExtractLeftmost | tfqa_mc_eval.py:113-117 | the answer is the leftmost match's group without its commas |
| AnswerExtraction.IsCorrect | tfqa_mc_eval.py:122-125 | AssertionError exactly when the reference is `"[invalid]"`; otherwise true exactly when the two answers are equal |
| AnswerExtraction.CorrectNeedsMatch | tfqa_mc_eval.py:112-125 | a completion judged correct contains a match |
| Prompts.BlocksStep | tfqa_mc_eval.py:150-151 | one more question/answer pair appends its demonstration at the end |
| Prompts.DemoStep | tfqa_mc_eval.py:150-151 | one loop turn extends the text by the next `"Q: …\nA: …\n\n"` block |
| Prompts.CreateDemoText | tfqa_mc_eval.py:127-152 | the loop builds the instruction, a blank line and one block per pair, in order |
| Prompts.BlocksOfSix | tfqa_mc_eval.py:150-151 | six pairs give exactly six blocks, in order |
| Prompts.DemoTextSixBlocks | tfqa_mc_eval.py:127-152 | the demonstration text is the instruction line, `"\n\n"`, then exactly the six listed demonstrations in the listed order |
| Prompts.PromptFor | tfqa_mc_eval.py:155-158 | the prompt is the demonstrations, `"Q: "`, the question, then `"\nA:"` at the very end; its length is their sum |
| Prompts.PromptWithAnswerFor | tfqa_mc_eval.py:160-163 | the prompt is `build_prompt`'s prompt followed by a space and the answer |
| Prompts.PromptAndAnswerFor | tfqa_mc_eval.py:165-169 | the pair's first part is `build_prompt`'s prompt and its second is the answer after one space |
| Prompts.PromptAndAnswerSplit | tfqa_mc_eval.py:155-169 | the two parts of `build_prompt_and_answer` concatenate to `build_prompt_with_answer`'s prompt |
| Prompts.PromptForParts | tfqa_mc_eval.py:155-158 | the prompt is the demonstrations followed by `"Q: "`, the question and `"\nA:"` |
| Prompts.Blocks | tfqa_mc_eval.py:150-151 | a non-empty list of pairs gives text ending in a blank line |
| Prompts.TextShape | tfqa_mc_eval.py:148-151 | the instruction, a blank line and blocks each ending in a blank line give text that starts with the instruction and ends in a blank line |
| Prompts.DemoText | tfqa_mc_eval.py:127-152 | `create_demo_text()` starts with the instruction line and ends in a blank line, so the question that follows starts a line of its own |
| Prompts.BuildPrompt | tfqa_mc_eval.py:155-158 | `build_prompt(q)` is the demonstration text followed by `"Q: "`, `q` and `"\nA:"` |
| Prompts.BuildPromptAndAnswer | tfqa_mc_eval.py:165-169 | the pair's first part is `build_prompt(q)` and its second is the answer after one space |
| Prompts.BuildPromptWithAnswer | tfqa_mc_eval.py:160-163 | `build_prompt_with_answer(q, a)` is exactly the two parts of `build_prompt_and_answer(q, a)` joined |
| DownloadName.FileName | tfqa_mc_eval.py:96-97 | IndexError exactly when the last `/` segment is empty. Otherwise the name is non-empty, has no `/`, and is a prefix of the segment. It is the whole segment when that starts with `?`, and otherwise is cut just before its first `?` and has no `?` |
| DownloadName.FileNameOfUrl | tfqa_mc_eval.py:96-97 | for `prefix + "/" + name + query`, with `name` free of `/` and `?` and `query` empty or starting with `?`, the name is recovered |
| DownloadName.AfterLastSeparator | tfqa_mc_eval.py:96 | the segment after a separator that does not occur again is the whole tail |
| McScores.Max | tfqa_mc_eval.py:176-177 | `max` is an element and bounds every element |
| McScores.CountAbove | tfqa_mc_eval.py:190 | the count of entries above a threshold is at most the length, and positive exactly when some entry exceeds it |
| McScores.CountAboveConcat | tfqa_mc_eval.py:190 | the count of a concatenation is the sum of the counts, and one entry counts 1 exactly when it exceeds the threshold: it is the number of entries above it |
| McScores.IndexOf | tfqa_mc_eval.py:183 | `list.index` gives the first position holding the item |
| McScores.McCalcs | tfqa_mc_eval.py:172-191 | **Errors:** ValueError for an empty list or a best answer missing from the true answers, and IndexError when its position has no score. **Otherwise:** max and diff are `max(true)` and `max(true) - max(false)`, and the lists are passed through. MC1 is 0 or 1, and is 1 exactly when the best answer's score exceeds `max(false)` |
| McScores.Mc3IsShare | tfqa_mc_eval.py:188-191 | MC3 is the number of true scores above `max(false)` divided by their count, so 0 ≤ MC3 ≤ 1 |
| McScores.Mc3PositiveIffDiffPositive | tfqa_mc_eval.py:176-191 | MC3 > 0 exactly when diff > 0 |
| McScores.Mc1BoundsMc3 | tfqa_mc_eval.py:181-191 | MC1 = 1 implies MC3 ≥ 1 / len(scores_true) |
| Sharding.FloorDiv | tfqa_mc_eval.py:260 | `//` is the floored quotient, for either sign of the divisor |
| Sharding.SliceIndex | tfqa_mc_eval.py:261 | a slice bound lies in `[0, n]` and is itself when already in range |
| Sharding.SliceBounds | tfqa_mc_eval.py:261 | a slice selects an index range inside `[0, n]`, and exactly `[start, stop)` when that is in range |
| Sharding.ShardBounds | tfqa_mc_eval.py:259-261 | all items without parallel mode; ZeroDivisionError for 0 shards; TypeError for a missing shard id; otherwise a range inside the data |
| Sharding.Shard | tfqa_mc_eval.py:259-261 | the shard is exactly the items in that index range, in order |
| Sharding.ChunkFits | tfqa_mc_eval.py:260-261 | for `0 <= k < total_shard` the chunk is `n // total_shard` and shard k's bounds lie in `[0, n]` |
| Sharding.ShardIsChunk | tfqa_mc_eval.py:259-261 | shard k is `[k*chunk, (k+1)*chunk)` and holds exactly `chunk` items |
| Sharding.ShardsDisjoint | tfqa_mc_eval.py:259-261 | two different shards share no index |
| Sharding.RemainderUnassigned | tfqa_mc_eval.py:259-261 | the last `n mod total_shard` items belong to no shard |
| Sharding.IndexHasShard | tfqa_mc_eval.py:259-261 | every index below `total_shard * chunk` belongs to some shard, so the shards partition that range |

## Left out

- MC2 (tfqa_mc_eval.py:193-212) is not modelled. It depends on `np.exp` in floating point, on loops that halve the scores until `exp` no longer underflows, and on a NaN check. None of this has a meaning over exact reals.
- Scores are reals, so the model has no float rounding, NaN or infinity. A NaN score would make every `>` false in Python; the model has no such value.
- The language model wrapper `LLaMA_Analysis`, with its `lm_score` and `set_stop_words`, is not part of this model: it is an external library.
- Not modelled: file and network I/O. This covers `load_csv`, the download half of `download_url` (existence check, `urlopen`, `makedirs`, the write, `os.path.join`), command-line parsing, and the spreadsheet export.
- Not modelled: the per-layer accumulation and averaging of the scores. It consumes the model's outputs and divides in floating point.
- The `--debug` truncation to the first ten rows is not modelled. Neither is anything of factural_eval.py after line 83, which is not part of this model.
- The unused constants `N_SHOT`, `COT_FLAG`, `DEBUG` and `ANSWER_TRIGGER` are left out.
- Python's `assert` disappears under `python -O`. `AnswerExtraction.IsCorrect` models the default interpreter, where the assert is checked.
- Prompts.CreateDemoText: the six `append` calls on the `question` and `answer` lists are modelled by the constant lists `DemoQuestions` and `DemoAnswers` that they produce. The loop over them is modelled as written.
- `split_multi_answer` with a separator longer than one character is not modelled. Both scripts only use one-character separators.
- Regular expressions in general are not modelled. Only the one pattern `#### (\-?[0-9\.\,]+)` is, including its backtracking over the optional `-`.
