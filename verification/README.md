# R2E-Gym to SWE-bench prediction converter, modelled in Dafny

`run_agent/convert_r2egym_to_swebench.py` reads a JSON-lines file of R2E-Gym
agent trajectories. It writes one SWE-bench prediction record per trajectory:
`{model_name_or_path, instance_id, model_patch}`. This project models the
decisions that file makes:

- **Model name from the file name** (`extract_model_name_from_filename`,
  module `ModelName`). The file stem is split on `-`. The leading parts whose
  lower-cased text holds none of `swebench`, `eval`, `test`, `train` are kept
  and joined with `-`. When no part is kept, the first part is used.
- **One trajectory to one record** (module `Converter`). The instance id is
  chosen by a three-way fallback:
  - the `instance_id` entry of the trajectory's `ds` mapping;
  - else the tag after the last `:` of `ds`'s `docker_image`, or that image
    with `/` and `:` replaced by `_` when it has no colon;
  - else the trajectory's own `docker_image`, sanitized the same way.

  The patch is `true_output_patch` when reading it succeeds, otherwise
  `output_patch`.
- **The line loop** (module `Batch`). Each line is stripped. Empty lines are
  skipped. Every other line is either converted or counted as an error, with
  its 1-based line number reported. Records are written in input order.

Support modules:

- `Text` models the Python string operations the file uses:
  - `split` and `join` on one character;
  - ASCII `lower`;
  - substring containment;
  - single-character `replace`;
  - `strip`, with Python's full whitespace set.
- `Wrappers` holds `Option`.

Parsing a line into a trajectory is a parameter of the model
(`parse: string -> Option<Trajectory>`). `None` stands for a line on which
`Trajectory.load_from_model_dump_json` raises.

Each operation is paired with a definition that does not depend on how it
computes:

- The model name is characterised without the scan (`IsNameBefore`), and
  shown unique.
- `strip` is characterised by its slice and non-space ends.
- The sanitized id is characterised character by character.
- The tag is the unique colon-free suffix after a colon.
- The loop's tally is related to independent recursive definitions of the
  records written, the failed line numbers and the number of non-blank lines.

Where the code and its own docstrings or comments differ, the model follows
the code:

- `name.split('-')` always returns at least one part. So the
  `"R2E-Gym-Agent"` fallback on line 42 can never be returned.
- The model name can be empty. This happens exactly for an empty stem, or a
  stem starting with `-` whose next part names a task (`ModelName.EmptyModelName`).
- The comment on line 100 says a docker image has the form
  `namespace/repo:instance_id`. The code takes the text after the *last*
  colon, and sanitizes the whole image only when there is no colon at all.

## Model

| member | source | states |
|---|---|---|
| ModelName.ExtractModelName | run_agent/convert_r2egym_to_swebench.py:16-42 | The name is a prefix of the stem. If the first `-` part names a task, the name is that part. Otherwise no part of the name names a task, and the name ends at the end of the stem or just before a `-` followed by a task-naming part. |
| ModelName.LeadingParts | run_agent/convert_r2egym_to_swebench.py:31-36 | The kept parts are a prefix of the parts. None of them stops the scan. The scan ends at the end or at a stopping part. |
| ModelName.LeadingName | run_agent/convert_r2egym_to_swebench.py:27-42 | For any per-part stop test, the result satisfies the scan-free characterisation `IsNameBefore`. |
| ModelName.LeadingNameCharacterised | run_agent/convert_r2egym_to_swebench.py:27-42 | `IsNameBefore(stem, name)` holds if and only if `name` is what the scan returns. The description determines the result. |
| ModelName.NameBeforeUnique | run_agent/convert_r2egym_to_swebench.py:33-39 | At most one string meets the characterisation, so `IsNameBefore` pins the name down. That the kept parts are the longest run of leading non-task parts is `ModelName.LeadingParts`'s contract. |
| ModelName.ModelNameCharacterised | run_agent/convert_r2egym_to_swebench.py:27-42 | `IsNameBefore` with the task-indicator test holds exactly for `extract_model_name_from_filename`'s result. |
| ModelName.EmptyModelName | run_agent/convert_r2egym_to_swebench.py:27-42 | The name is empty if and only if the stem is empty, or the stem starts with `-` and its next part names a task. Since `Text.Split` returns at least one part, the `"R2E-Gym-Agent"` branch of line 42 is never taken. |
| ModelName.IndicatorPresent | run_agent/convert_r2egym_to_swebench.py:30-34 | A lower-case part starting with one of the four task indicators names a task. |
| ModelName.HasIndicatorMeaning | run_agent/convert_r2egym_to_swebench.py:30-34 | `HasIndicator`, the test on line 34, holds if and only if one of the four indicators occurs at some index of the lower-cased part. |
| ModelName.ModelNameDocExample | run_agent/convert_r2egym_to_swebench.py:20 | The docstring example: stem `r2egym-32b-agent-swebench-eval-20250602_124544` gives `r2egym-32b-agent`. |
| ModelName.ModelNameStopsAtTask | run_agent/convert_r2egym_to_swebench.py:33-39 | `myrun-eval-2024` gives `myrun`: the scan stops at the first task part. |
| ModelName.ModelNameFirstPartFallback | run_agent/convert_r2egym_to_swebench.py:41-42 | `swebench-run` gives `swebench`: when nothing is kept, the first part is used even though it names a task. |
| ModelName.ModelNameEmptyStem | run_agent/convert_r2egym_to_swebench.py:27-42 | The empty stem splits into one empty part, which is returned. |
| ModelName.ModelNameLeadingHyphen | run_agent/convert_r2egym_to_swebench.py:27-42 | `-train` gives the empty name, not the default. |
| Text.Split | run_agent/convert_r2egym_to_swebench.py:27 | `split` on one character returns at least one part. |
| Text.SplitParts | run_agent/convert_r2egym_to_swebench.py:27-39 | No part of `split('-')` holds the separator, and `'-'.join` (`Text.Join`, line 39) of the parts gives back the string. |
| Text.SplitJoin | run_agent/convert_r2egym_to_swebench.py:27-39 | `Text.Join` of separator-free parts, split again, gives back the parts: `'-'.join` on line 39 and `split('-')` on line 27 invert each other. |
| Text.LastPartAfterSep | run_agent/convert_r2egym_to_swebench.py:102 | `split(c)[-1]` is free of `c`. It is the whole string when `c` is absent, and otherwise follows a `c` at the end of the string. |
| Text.LastPartUnique | run_agent/convert_r2egym_to_swebench.py:102 | Any `c`-free string ending the input just after a `c` is `split(c)[-1]`. |
| Text.Lower | run_agent/convert_r2egym_to_swebench.py:34 | ASCII lower-casing keeps the length and maps each character to its lower-case form. |
| Text.Replace | run_agent/convert_r2egym_to_swebench.py:105-108 | `s.replace(a, b)` on single characters keeps the length and turns each `a` into `b`, leaving every other character as it was. |
| Text.ContainsAt | run_agent/convert_r2egym_to_swebench.py:34 | `needle in hay` holds if and only if `needle` occurs in `hay` at some index. |
| Text.ContainsAnyExists | run_agent/convert_r2egym_to_swebench.py:34 | `any(ind in s for ind in inds)` holds if and only if `s` contains at least one of the indicators. With `Text.ContainsAt` this states what `HasIndicator` means. |
| Text.Strip | run_agent/convert_r2egym_to_swebench.py:85 | The result is a slice of the line with only whitespace cut on both sides. It is empty exactly for all-whitespace lines, and otherwise starts and ends with non-whitespace. Whitespace is every character for which Python's `str.isspace` holds. |
| Text.StripCharacterised | run_agent/convert_r2egym_to_swebench.py:85 | Any slice with whitespace-only surroundings and non-whitespace ends is the stripped line. |
| Converter.HasKeyIsMembership | run_agent/convert_r2egym_to_swebench.py:94-96 | `ds and key in ds` is plain membership. An empty `ds` fails it like a missing one. |
| Converter.AfterLastColon | run_agent/convert_r2egym_to_swebench.py:101-102 | The tag has no colon, and the image ends with a colon and the tag. |
| Converter.AfterLastColonUnique | run_agent/convert_r2egym_to_swebench.py:101-102 | The tag is the only colon-free suffix that follows a colon. |
| Converter.Sanitize | run_agent/convert_r2egym_to_swebench.py:105 | Same length. Each `/` and `:` becomes `_`, every other character is kept, and no `/` or `:` is left. |
| Converter.SanitizeCharacterised | run_agent/convert_r2egym_to_swebench.py:105 | The character-wise description holds exactly for the sanitized string. |
| Converter.SanitizeIdempotent | run_agent/convert_r2egym_to_swebench.py:105-108 | Sanitizing a sanitized id changes nothing. |
| Converter.ResolveInstanceId | run_agent/convert_r2egym_to_swebench.py:93-108 | The `ds` `instance_id` verbatim when present; else the tag or the sanitized `ds` image; else the sanitized top-level image. |
| Converter.InstanceIdWins | run_agent/convert_r2egym_to_swebench.py:94-95 | Two trajectories with the same `ds` `instance_id` get the same id, whatever their docker images. |
| Converter.EmptyDsFallsBack | run_agent/convert_r2egym_to_swebench.py:94-108 | A missing or empty `ds` gives the sanitized top-level image. |
| Converter.InstanceIdColonFree | run_agent/convert_r2egym_to_swebench.py:96-108 | An id not taken verbatim from `ds` has no colon. |
| Converter.InstanceIdFromTag | run_agent/convert_r2egym_to_swebench.py:100-102 | `ns/repo:abc123` in `ds` gives `abc123`. |
| Converter.InstanceIdFromUntaggedImage | run_agent/convert_r2egym_to_swebench.py:103-105 | `ns/repo` in `ds` gives `ns_repo`. |
| Converter.InstanceIdFromTopLevelImage | run_agent/convert_r2egym_to_swebench.py:106-108 | Without `ds`, `ns/repo:tag1` gives `ns_repo_tag1`: the tag is kept and sanitized. |
| Converter.SelectPatch | run_agent/convert_r2egym_to_swebench.py:110-114 | `true_output_patch` when it can be read, else `output_patch`. |
| Converter.SelectPatchAvailable | run_agent/convert_r2egym_to_swebench.py:110-114 | A patch is found if and only if one of the two fields can be read, and it is one of them. |
| Converter.ConvertRecord | run_agent/convert_r2egym_to_swebench.py:116-121 | A record exists if and only if a patch can be read. It carries the given model name, the resolved instance id and the selected patch. |
| Converter.ConvertLine | run_agent/convert_r2egym_to_swebench.py:85-91 | A line is skipped if and only if it is all whitespace. It fails if and only if it is non-blank and either parsing fails or no patch can be read. Otherwise it converts to the record of the parsed trajectory. |
| Converter.UnicodeBlankLineSkipped | run_agent/convert_r2egym_to_swebench.py:85-87 | A line of a no-break space and an ideographic space strips to nothing and is skipped, not counted as an error. |
| Batch.Outcomes | run_agent/convert_r2egym_to_swebench.py:84-91 | One outcome per line, in order, each that line's `ConvertLine`. |
| Batch.RunAppends | run_agent/convert_r2egym_to_swebench.py:84-130 | `Batch.Run`, the loop from any intermediate state, appends the records and failed line numbers of the remaining lines and adds their counts to the two counters. |
| Batch.StepThenAppend | run_agent/convert_r2egym_to_swebench.py:85-130 | `Batch.Step`, one pass of the loop body, followed by the rest of the loop, is the same as appending that line's own record or failed line number before the rest. |
| Batch.ConvertLinesTally | run_agent/convert_r2egym_to_swebench.py:80-130 | `Batch.ConvertLines`, the whole loop from zero counters and line 1, ends with the records of the converted lines, their number, the number of failed lines, and the failed line numbers. |
| Batch.FailedLinesExact | run_agent/convert_r2egym_to_swebench.py:127-129 | A line number is reported if and only if that line's outcome is a failure. |
| Batch.RecordsAppend | run_agent/convert_r2egym_to_swebench.py:124 | The records of two consecutive stretches of lines are the records of the first followed by those of the second. |
| Batch.BlankLineIgnored | run_agent/convert_r2egym_to_swebench.py:85-87 | Inserting an all-whitespace line anywhere changes neither the records nor the counters. |
| Batch.ConvertLinesOutputs | run_agent/convert_r2egym_to_swebench.py:117-125 | `Batch.ConvertLines` writes the records of the converted lines in input order. `converted_count` is their number, and each carries the model name. |
| Batch.ConvertLinesCounts | run_agent/convert_r2egym_to_swebench.py:80-130 | In `Batch.ConvertLines`, `error_count` equals the number of reported lines. `converted_count + error_count` is the number of non-blank lines. |
| Batch.ConvertLinesErrors | run_agent/convert_r2egym_to_swebench.py:84-130 | `Batch.ConvertLines` reports an error for exactly the failing non-blank lines, numbered from 1 in strictly increasing order. |
| Batch.FiveLinesThirdMalformed | run_agent/convert_r2egym_to_swebench.py:84-130 | Five non-blank lines, the third unparsable: four records, four converted, one error, reported for line 3. |
| Batch.ChooseModelName | run_agent/convert_r2egym_to_swebench.py:66-69 | A given model name is used as is. Otherwise the name is the one characterised from the file stem. |
| Batch.ConvertFile | run_agent/convert_r2egym_to_swebench.py:66-130 | The model name is the one given, or else the one extracted from the file stem. The loop over the lines writes the records of the converted lines, in order, each with that name. `converted_count` is their number, and the two counters add up to the number of non-blank lines. |

## Left out

- Reading and writing files, the existence check and `FileNotFoundError` (lines 61-64, 83, 124), and every `print` (lines 69, 77-78, 128, 132-135). The written records are the `outputs` sequence, and the reported line numbers are `errorLines`.
- `Path(filename).stem` and the default output name `with_suffix('.predictions.jsonl')` (lines 22-23, 72-75). The model takes the stem as its input, and the output path is not modelled.
- `Trajectory.load_from_model_dump_json` and `json.dumps` (lines 91, 124). Parsing is an abstract parameter, and a failure is `None`. The trajectory class is not part of this model.
- `main` and the command-line handling (lines 140-158).
- Converter.Trajectory: `ds` values, `docker_image` and the patches are modelled as strings only. A non-string value in `ds` would raise, or be used as is; neither is modelled.
- Converter.SelectPatch: a `true_output_patch` that reads as `None` is not told apart from a readable string. Only "reading raises" versus "reading succeeds" is modelled.
- Converter.ConvertLine: failures other than an unparsable line or an unreadable patch (for example a write error) are not modelled.
- Text.Lower: lower-cases ASCII letters only. Python's `str.lower` also maps non-ASCII letters. For `HasIndicator` the result is the same: the only non-ASCII characters that lower-case to ASCII letters are U+212A (to `k`) and U+0130 (to `i` followed by U+0307). Neither can complete one of the four indicators.
