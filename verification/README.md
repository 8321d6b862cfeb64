# Docker build output parser

A Dafny model of `DockerBuildOutputParser` from
`press/press/doctype/deploy_candidate/docker_output_parsers.py`. This is the part of Press
that reads the plain-progress output of `docker build` (BuildKit) one line at a time and
keeps a Deploy Candidate and its build-step documents up to date.

For each raw line the parser:

- deletes terminal escape sequences (`ansi_escape`);
- strips the line and drops it if it is blank;
- appends it to `lines`;
- splits off the `#N` step index (`_get_step_index_split`);
- then does exactly one of three things:
  - records the image id (`_set_docker_image_id`);
  - updates a step it already knows (`_update_dc_build_step`);
  - may start a new step (`_add_step_to_steps_dict` with `get_name_and_slugs`).

Whatever a line raises is swallowed, and the changes it made before raising stay.
`parse` then joins every recorded line, with nothing between them, into the candidate's
build output.

The project has five modules:

- `PyStr` (`py_strings.dfy`): the Python `str` operations the parser relies on, written out
  on `seq<char>`. These are `strip`, `split()`, `split(maxsplit=1)`, `split(sep)`,
  `partition`, `replace`, `"".join`, slicing past the end and `int()`.
- `Ansi` (`ansi_escape.dfy`): `ansi_escape` as a left-to-right scan, proved to delete exactly
  the ESC Fe sequences of section 5.3 and the control sequences of section 5.4 of ECMA-48
  that the source's regular expression matches.
- `BuildLog` (`build_log.dfy`): the per-line rules on values.
  - A `Model` holds `lines`, `steps`, the two lookup maps, one `StepRecord` per build step,
    the image id and the build output.
  - `ApplyLine` gives the new model and how the line ended: `Blank`, `Parsed` or
    `Raised(error)`. A Python exception becomes a `Raised` outcome, and what was changed
    before it stays changed.
  - `ApplyAll` is the loop of `parse`.
- `BuildLogRun` (`build_log_run.dfy`): lemmas about one line and about whole runs of
  lines.
- `DockerOutputParser` (`docker_output_parser.dfy`): the imperative parser.
  - `BuildStep` and `DeployCandidate` are classes whose fields the methods update in place.
  - `DockerBuildOutputParser` holds `lines`, `steps` and the two maps built in `__init__`.
  - Every method is proved to change the objects exactly as the value model says, e.g.
    `(State(), outcome) == ApplyLine(old(State()), raw, env)`. So every lemma in
    `BuildLogRun` holds of the objects.

In these places the model follows the code as written:

- A line gets the one-element tuple `(largest key,)` as its index when `split(maxsplit=1)` does
  not give two words, or when the first word minus its first character is not an `int()`
  literal. The first character itself is never checked, so `x5 foo` gets index 5, and a lone
  `#5` gets the tuple (`SplitIndex`). Such a tuple is never a key of `steps`, so the line never reaches the update rules. The
  `is_unusual` rule of `_update_dc_build_step`, which would append it to the latest step's
  output, cannot fire (`UnindexedLineNeverUpdates`). Such a line can still start a step if
  it begins `[stage-`. The step is then registered under the tuple, and every later
  unindexed line raises `TypeError`, because `sorted` then compares an int with a tuple.
- The image id is `split(":")[1]` of the third word. That is the text between the first and
  second colon, not everything after the first colon (`ImageIdBetweenColons`).
- Updates find their step in `dc_steps_by_index`, which is built once at construction. They
  do not use `steps` (`UpdateTargetsConstructionMap`).
- `` re.search("`#stage-(.*)`", name) `` finds the leftmost `` `#stage- `` that has a closing
  backtick later on its own line, and takes the last such backtick, because `.` does not match a
  newline. A marker with no backtick after it on its line is skipped, and the search moves on
  to the next one (`FindMarker`).

## Model

| member | source | states |
|---|---|---|
| PyStr.Strip | press/press/doctype/deploy_candidate/docker_output_parsers.py:87 | `strip()` leaves a string with no whitespace at either end and is never longer; it is empty exactly when the input is all whitespace, and a string already without whitespace margins comes back unchanged |
| PyStr.StripMargins | press/press/doctype/deploy_candidate/docker_output_parsers.py:87 | what `strip()` keeps is a contiguous slice of the input with only whitespace before and after it |
| PyStr.StripOfPadded | press/press/doctype/deploy_candidate/docker_output_parsers.py:87 | `strip()` of whitespace, a text without whitespace margins and whitespace gives back exactly that text |
| PyStr.WordsAreWords | press/press/doctype/deploy_candidate/docker_output_parsers.py:118 | every part `split()` returns is a non-empty run of non-whitespace characters |
| PyStr.WordsOfSpace | press/press/doctype/deploy_candidate/docker_output_parsers.py:118 | a string of whitespace only splits into no words |
| PyStr.WordsCons | press/press/doctype/deploy_candidate/docker_output_parsers.py:118 | whitespace, then a word that runs up to whitespace or the end of the string: `split()` gives that word first, then the words of the rest; with `WordsOfSpace` this makes the parts the maximal whitespace-free runs, in order |
| PyStr.SplitOnce | press/press/doctype/deploy_candidate/docker_output_parsers.py:172 | `split(maxsplit=1)` gives at most two parts; the first is a non-empty whitespace-free word, the second starts with a non-whitespace character |
| PyStr.SplitOnceRejoin | press/press/doctype/deploy_candidate/docker_output_parsers.py:172-177 | when `split(maxsplit=1)` gives two parts, the line is the first part, a non-empty run of whitespace and the second part, in that order |
| PyStr.SplitOnceOf | press/press/doctype/deploy_candidate/docker_output_parsers.py:172-177 | conversely, a word, a whitespace run and a text starting with non-whitespace split into exactly the word and the text |
| PyStr.SplitOnceWhole | press/press/doctype/deploy_candidate/docker_output_parsers.py:172-173 | a stripped non-empty line gives fewer than two parts exactly when it holds no whitespace, and then the one part is the whole line |
| PyStr.SplitFirst | press/press/doctype/deploy_candidate/docker_output_parsers.py:140 | `partition` on one character: `None` exactly when the character is absent; otherwise the string is the text before, the character and the text after, and the text before does not contain it |
| PyStr.AfterFirst | press/press/doctype/deploy_candidate/docker_output_parsers.py:140 | the third part of `partition(c)` is empty when `c` does not occur; otherwise it is the suffix that follows the first `c`, with no `c` before that one |
| PyStr.JoinSplit | press/press/doctype/deploy_candidate/docker_output_parsers.py:192-197 | joining the pieces of `s.split(sep)` with `sep` gives back `s`; this is the partner of `SplitOn` and `JoinWith` |
| PyStr.ReplaceIsJoinOfSplit | press/press/doctype/deploy_candidate/docker_output_parsers.py:192-197 | `s.replace(pat, rep)` equals `rep.join(s.split(pat))`; this is the partner of `Replace` |
| PyStr.ReplaceAbsent | press/press/doctype/deploy_candidate/docker_output_parsers.py:192-197 | `replace` leaves a string without an occurrence of the pattern as it is |
| PyStr.ReplaceFirst | press/press/doctype/deploy_candidate/docker_output_parsers.py:192-197 | for any non-empty pattern whose first occurrence is at `i`, `replace` keeps `s[..i]`, writes the replacement, and continues after the occurrence: the cuts fall at the leftmost non-overlapping occurrences |
| PyStr.SplitOnFirst | press/press/doctype/deploy_candidate/docker_output_parsers.py:192-197 | for any non-empty separator whose first occurrence is at `i`, the first piece of `split(sep)` is `s[..i]` and the rest are the pieces of the text after that occurrence |
| PyStr.SplitOnAbsent | press/press/doctype/deploy_candidate/docker_output_parsers.py:192-197 | a string without an occurrence of the separator splits into the one piece `[s]` |
| PyStr.JoinNoSeparatorAppend | press/press/doctype/deploy_candidate/docker_output_parsers.py:113 | `"".join(a + b)` is `"".join(a)` followed by `"".join(b)` |
| PyStr.SplitOnCharPieces | press/press/doctype/deploy_candidate/docker_output_parsers.py:118 | no piece of `s.split(c)` contains `c` |
| PyStr.Drop | press/press/doctype/deploy_candidate/docker_output_parsers.py:129 | `s[n:]` has `len(s) - n` characters, or none when `n` is past the end, and `s` is its first `n` characters followed by it |
| PyStr.DropLast | press/press/doctype/deploy_candidate/docker_output_parsers.py:132 | `s[:-1]` is one character shorter (empty stays empty) and a prefix of `s` |
| PyStr.ParseInt | press/press/doctype/deploy_candidate/docker_output_parsers.py:179 | `int()` succeeds only when the stripped text starts with a digit or a sign, gives a negative number only after `-`, and reads a plain digit body (digits with single underscores between them) as its digit value |
| PyStr.ParseIntShape | press/press/doctype/deploy_candidate/docker_output_parsers.py:179 | when `int()` succeeds, the stripped text is an optional `+` or `-` followed by a digit body, and the value is the body's digit value, negated exactly after `-`; with `ParseIntOfLiteral` this is the exact condition for success |
| PyStr.ParseIntOfLiteral | press/press/doctype/deploy_candidate/docker_output_parsers.py:179 | conversely, whitespace, an optional sign, a digit body and whitespace always parse, to the signed value of the body |
| PyStr.ParseIntDecimal | press/press/doctype/deploy_candidate/docker_output_parsers.py:179 | `int()` of the decimal spelling of a natural number gives that number back |
| PyStr.DecimalValue | press/press/doctype/deploy_candidate/docker_output_parsers.py:179 | the digit value of the decimal spelling of `n` is `n` |
| Ansi.MatchLength | press/press/doctype/deploy_candidate/docker_output_parsers.py:10 | the length found at the front of a string is at most its length, and when positive that prefix is a string the escape-sequence pattern matches |
| Ansi.MatchLengthComplete | press/press/doctype/deploy_candidate/docker_output_parsers.py:10 | any prefix that the pattern matches is the one `MatchLength` finds, so the match at a position is unique and none is missed |
| Ansi.SpanUnique | press/press/doctype/deploy_candidate/docker_output_parsers.py:10 | a greedy run over a character class stops exactly at the first character outside it |
| Ansi.AnsiEscape | press/press/doctype/deploy_candidate/docker_output_parsers.py:186-187 | the result is never longer than the input, is obtained from it by deleting characters, and equals it when it contains no ESC |
| Ansi.EscapeSequenceDeleted | press/press/doctype/deploy_candidate/docker_output_parsers.py:186-187 | an escape sequence at the front is deleted whole |
| Ansi.OtherCharacterKept | press/press/doctype/deploy_candidate/docker_output_parsers.py:186-187 | a character other than ESC is kept |
| Ansi.LoneEscapeKept | press/press/doctype/deploy_candidate/docker_output_parsers.py:186-187 | an ESC that begins no escape sequence is kept |
| BuildLog.MaxOf | press/press/doctype/deploy_candidate/docker_output_parsers.py:174 | `sorted(...)[-1]` of a non-empty set of ints is a member no smaller than any other |
| BuildLog.FallbackIndex | press/press/doctype/deploy_candidate/docker_output_parsers.py:174 | the tuple `(largest key,)` exists exactly when `steps` is non-empty and all its keys are ints; it carries the largest key and is itself never a key; with no steps the error is IndexError (`NoStepToAttribute`) |
| BuildLog.SplitIndex | press/press/doctype/deploy_candidate/docker_output_parsers.py:171-183 | a line is unusual exactly when it gets the tuple index; an unusual line keeps its whole text and its index is not in `steps`; otherwise the index is `int()` of the first word without its first character, and the line is the rest; errors come only from the tuple index |
| BuildLog.FindMarker | press/press/doctype/deploy_candidate/docker_output_parsers.py:152 | finds the leftmost `` `#stage- `` match and, for it, the farthest closing backtick on the same line; `None` exactly when there is no match |
| BuildLog.LastBacktick | press/press/doctype/deploy_candidate/docker_output_parsers.py:152 | the last backtick in a range, or `None` when the range has none |
| BuildLog.LineEnd | press/press/doctype/deploy_candidate/docker_output_parsers.py:152 | the first newline at or after a position, or the end of the string |
| BuildLog.Normalize | press/press/doctype/deploy_candidate/docker_output_parsers.py:87 | the escaped and stripped line has no whitespace at either end and is no longer than the raw line; it is empty exactly when the escaped line is all whitespace, and a line without ESC is simply stripped |
| BuildLog.CleanCommandSteps | press/press/doctype/deploy_candidate/docker_output_parsers.py:192-197 | the command clean-up is, step by step: split at the marker and join with nothing, strip, split at three spaces and join with a line continuation, then drop four characters |
| BuildLog.CleanCommandPlain | press/press/doctype/deploy_candidate/docker_output_parsers.py:194-197 | a name holding no copy of the marker and, once stripped, no run of three spaces becomes the stripped name minus its first four characters (`RUN `) |
| BuildLog.NameAndSlugs | press/press/doctype/deploy_candidate/docker_output_parsers.py:190-200 | the captured group is stage slug, `-` and step slug, with no `-` in the stage slug; it fails exactly when the Dockerfile cannot be parsed or the group has no `-`; the command is the clean-up of the name with the first flag removed and with the whole match as the marker |
| BuildLog.RunText | press/press/doctype/deploy_candidate/docker_output_parsers.py:148 | the stripped text after the first `]` has no whitespace at either end and is shorter than the line |
| BuildLog.ParseStartLine | press/press/doctype/deploy_candidate/docker_output_parsers.py:144-155 | a start is found only on a line starting `[stage-` whose text after the first `]`, stripped, starts `RUN`; it raises IndexError exactly when a `[stage-` line has no `]`, and the only other errors are those of `get_name_and_slugs` |
| BuildLog.ParseStartLineSteps | press/press/doctype/deploy_candidate/docker_output_parsers.py:145-155 | a line is ignored exactly when it does not start `[stage-`, or its text after `]` does not start `RUN`, or that text holds no marker match; a started step always had a match; a line that passes all the checks gives exactly what `get_name_and_slugs` gives for the leftmost match, its step or its error |
| BuildLog.StartRecord | press/press/doctype/deploy_candidate/docker_output_parsers.py:160-167 | a started step gets the line's index, status Running and empty output; its command is `bench get-app <slug>` for the `apps` stage and the cleaned name otherwise; cached, hash and duration are kept |
| BuildLog.UpdateRecord | press/press/doctype/deploy_candidate/docker_output_parsers.py:125-141 | the rules in order: an unusual line appends itself and a newline to the output; `sha256:<h>` sets the hash to `h` and nothing else; `DONE` is `DoneRecord`; any other line is `OtherRecord`. Index and command never change, output only grows, and errors come only from `DONE`, after Success is set |
| BuildLog.DoneRecord | press/press/doctype/deploy_candidate/docker_output_parsers.py:130-132 | a `DONE` line always sets Success; it raises IndexError exactly when there is no second word, and otherwise succeeds exactly when the float parse of that word minus its last character succeeds, which then sets the duration; only status and duration change |
| BuildLog.OtherRecord | press/press/doctype/deploy_candidate/docker_output_parsers.py:133-141 | `CACHED` sets Success and cached and nothing else; `ERROR...` sets Failure and appends `line[7:]` and a newline to the output; any other line appends the text after its first space (or nothing) and a newline, with every other field kept |
| BuildLog.ImageId | press/press/doctype/deploy_candidate/docker_output_parsers.py:118 | succeeds exactly when there is a third word and it contains `:`; the id contains no `:`; otherwise IndexError for the missing word or the missing colon |
| BuildLog.ImageIdBetweenColons | press/press/doctype/deploy_candidate/docker_output_parsers.py:118 | the id is the text after the first colon of the third word, cut at the next colon if there is one |
| BuildLog.SplitAtFirst | press/press/doctype/deploy_candidate/docker_output_parsers.py:118 | `s.split(c)` is the text before the first `c` followed by the split of the text after it |
| BuildLog.SplitHead | press/press/doctype/deploy_candidate/docker_output_parsers.py:118 | the first field of `s.split(c)` is the text before the first `c`, or all of `s` |
| BuildLog.ApplyImage | press/press/doctype/deploy_candidate/docker_output_parsers.py:98-99 | an image line leaves `lines`, `steps` and every step record as they were, keeps the invariants and lookup maps, and never raises the index-split errors |
| BuildLog.ApplyUpdate | press/press/doctype/deploy_candidate/docker_output_parsers.py:120-141 | the step found in the construction-time map gets the record the update rules give, and every other record and the image id stay as they were; `steps` is unchanged; every step's output only grows; the only errors are the two duration errors |
| BuildLog.UpdateStep | press/press/doctype/deploy_candidate/docker_output_parsers.py:125-141 | the found step's record becomes what the update rules give; every other record, `steps`, `lines` and the image id are unchanged; every output only grows; the only errors are the two duration errors |
| BuildLog.ApplyStart | press/press/doctype/deploy_candidate/docker_output_parsers.py:143-169 | a possible step start keeps the invariants, the lookup maps and the image id, changes no record but the one its slug names, and never raises the index-split errors |
| BuildLog.StartParsed | press/press/doctype/deploy_candidate/docker_output_parsers.py:145-158 | whatever the checks found, the invariants, lookup maps, `lines` and image id are kept, `steps` only gains keys, only the record of a step the checks named can change, and no index-split error is raised |
| BuildLog.StartStep | press/press/doctype/deploy_candidate/docker_output_parsers.py:156-169 | registering a step keeps the invariants, the lookup maps, `lines` and the image id, changes no other step's record, and `steps` only gains keys |
| BuildLog.RegisterEvolves | press/press/doctype/deploy_candidate/docker_output_parsers.py:169 | storing a step under an int key, or under any key once `steps` is non-empty, keeps every step known and some key of `steps` an int |
| BuildLog.Dispatch | press/press/doctype/deploy_candidate/docker_output_parsers.py:97-107 | the three branches keep the invariants and the lookup maps, never shrink `steps`, and leave `lines` alone |
| BuildLog.ApplyLine | press/press/doctype/deploy_candidate/docker_output_parsers.py:86-107 | a line is blank exactly when its escaped and stripped text is empty, and then nothing changes; otherwise that text is appended to `lines` exactly once, whatever happens next |
| BuildLog.ApplyAll | press/press/doctype/deploy_candidate/docker_output_parsers.py:57-59 | the loop of `parse` keeps the invariants and lookup maps and never shrinks `steps` |
| BuildLog.EndParsing | press/press/doctype/deploy_candidate/docker_output_parsers.py:113 | the build output becomes the lines joined with nothing between them, and nothing else changes |
| BuildLogRun.SplitIndexIndexed | press/press/doctype/deploy_candidate/docker_output_parsers.py:172-180 | an indexed split came from a line made of a token, a whitespace run and the rest, where `int()` of the token minus its first character is the index |
| BuildLogRun.SplitIndexNumbered | press/press/doctype/deploy_candidate/docker_output_parsers.py:172-180 | every such line gets that index and the rest, with `is_unusual` false |
| BuildLogRun.SplitIndexBuildKit | press/press/doctype/deploy_candidate/docker_output_parsers.py:177-180 | a BuildKit line `#N rest` gets index `N` and line `rest`, whatever steps are known |
| BuildLogRun.Kept | press/press/doctype/deploy_candidate/docker_output_parsers.py:87-91 | the kept lines of a run are non-empty, stripped, and no more than the raw lines |
| BuildLogRun.RunRecordsLines | press/press/doctype/deploy_candidate/docker_output_parsers.py:57-59 | a run appends exactly its kept lines to `lines`, in input order, however each line ended |
| BuildLogRun.ParseStoresOutput | press/press/doctype/deploy_candidate/docker_output_parsers.py:109-113 | after `parse`, the build output is the earlier lines and then the run's kept lines, joined with nothing between them |
| BuildLogRun.RunComposes | press/press/doctype/deploy_candidate/docker_output_parsers.py:62-70 | no line stops the rest: a run over `a + b` is the run over `b` from where the run over `a` ended |
| BuildLogRun.UnattributedLine | press/press/doctype/deploy_candidate/docker_output_parsers.py:174-175 | a line raises IndexError exactly when it is non-blank, there are no steps and it has no `#N` index; then it has only been recorded |
| BuildLogRun.StepStart | press/press/doctype/deploy_candidate/docker_output_parsers.py:143-169 | `steps` changes exactly when the start conditions all hold (new index, `[stage-`, `RUN`, marker, known slug), and then the step is registered and restarted and nothing else changes |
| BuildLogRun.UnindexedLineNeverUpdates | press/press/doctype/deploy_candidate/docker_output_parsers.py:126-127 | an unindexed line's tuple index is never in `steps`, so it changes no step record unless it starts a step |
| BuildLogRun.NewIndexOnlyStarts | press/press/doctype/deploy_candidate/docker_output_parsers.py:143-158 | a line whose index is not in `steps` changes no record unless it starts a step |
| BuildLogRun.UpdateTargetsConstructionMap | press/press/doctype/deploy_candidate/docker_output_parsers.py:121-123 | a known index updates the step that had it at construction, and no other; without one nothing changes; `steps` and the image id never change |
| BuildLogRun.DoneSetsSuccess | press/press/doctype/deploy_candidate/docker_output_parsers.py:130-132 | a `DONE` line leaves its step at Success even when the duration is missing or malformed and the line raises |
| BuildLogRun.ImageLineOnlySetsImage | press/press/doctype/deploy_candidate/docker_output_parsers.py:117-118 | an image line sets the image id or raises; no step and no other field changes |
| BuildLogRun.OutputGrowsUnlessStarted | press/press/doctype/deploy_candidate/docker_output_parsers.py:127-141 | every step's output only grows unless the line starts a step |
| BuildLogRun.LineOutputGrows | press/press/doctype/deploy_candidate/docker_output_parsers.py:86-107 | a whole line that starts no step leaves `steps` alone, and every output only grows |
| BuildLogRun.OutputGrowsOverRun | press/press/doctype/deploy_candidate/docker_output_parsers.py:57-59 | over a run that starts no step, `steps` stays the same and every output only grows |
| DockerOutputParser.BuildStep.Update | press/press/doctype/deploy_candidate/docker_output_parsers.py:125-141 | the step's fields become what `UpdateRecord` gives for each rule, and the error it names is returned |
| DockerOutputParser.BuildStep.Done | press/press/doctype/deploy_candidate/docker_output_parsers.py:130-132 | the fields become what `DoneRecord` gives |
| DockerOutputParser.BuildStep.Other | press/press/doctype/deploy_candidate/docker_output_parsers.py:133-141 | the fields become what `OtherRecord` gives: the `CACHED`, `ERROR` and fall-through rules |
| DockerOutputParser.BuildStep.Start | press/press/doctype/deploy_candidate/docker_output_parsers.py:160-167 | the fields become what `StartRecord` gives |
| DockerOutputParser.IndexMap | press/press/doctype/deploy_candidate/docker_output_parsers.py:53 | every entry maps an index to a build step that has it, and every indexed build step's index is a key |
| DockerOutputParser.IndexMapLastWins | press/press/doctype/deploy_candidate/docker_output_parsers.py:53 | an index maps to the last build step that has it |
| DockerOutputParser.SlugMap | press/press/doctype/deploy_candidate/docker_output_parsers.py:54 | every entry maps a slug to a build step with that slug, and every build step's slug is a key |
| DockerOutputParser.SlugMapLastWins | press/press/doctype/deploy_candidate/docker_output_parsers.py:54 | a slug maps to the last build step that has it |
| DockerOutputParser.DockerBuildOutputParser.constructor | press/press/doctype/deploy_candidate/docker_output_parsers.py:43-54 | no lines, no steps, and the two lookup maps built from the candidate's build steps |
| DockerOutputParser.DockerBuildOutputParser.Parse | press/press/doctype/deploy_candidate/docker_output_parsers.py:57-60 | the objects end as `EndParsing(ApplyAll(...))` over every line of the output |
| DockerOutputParser.DockerBuildOutputParser.ParseLineHandleExc | press/press/doctype/deploy_candidate/docker_output_parsers.py:62-70 | the objects end as `ApplyLine` says, whether or not the line raised |
| DockerOutputParser.DockerBuildOutputParser.EndParsingStep | press/press/doctype/deploy_candidate/docker_output_parsers.py:109-115 | the build output is the lines joined with nothing between them |
| DockerOutputParser.DockerBuildOutputParser.ParseLine | press/press/doctype/deploy_candidate/docker_output_parsers.py:86-96 | state and outcome are exactly `ApplyLine` of the old state |
| DockerOutputParser.DockerBuildOutputParser.DispatchLine | press/press/doctype/deploy_candidate/docker_output_parsers.py:97-107 | state and outcome are exactly `Dispatch` of the old state |
| DockerOutputParser.DockerBuildOutputParser.SetDockerImageId | press/press/doctype/deploy_candidate/docker_output_parsers.py:117-118 | state and outcome are exactly `ApplyImage` of the old state |
| DockerOutputParser.DockerBuildOutputParser.UpdateBuildStep | press/press/doctype/deploy_candidate/docker_output_parsers.py:120-123 | state and outcome are exactly `ApplyUpdate` of the old state |
| DockerOutputParser.DockerBuildOutputParser.UpdateFoundStep | press/press/doctype/deploy_candidate/docker_output_parsers.py:125-141 | state and outcome are exactly `UpdateStep` of the old state for the step found |
| DockerOutputParser.DockerBuildOutputParser.AddStepToStepsDict | press/press/doctype/deploy_candidate/docker_output_parsers.py:143-158 | state and outcome are exactly `ApplyStart` of the old state |
| DockerOutputParser.DockerBuildOutputParser.RegisterStep | press/press/doctype/deploy_candidate/docker_output_parsers.py:160-169 | only the step named by the slug is restarted, and it is stored in `steps` under the index |

## Left out

- `_update_dc_build_output` (lines 72-84) is left out. It needs the wall clock and a save and commit. It runs only after `_parse_line` returns normally, and any failure in it is swallowed. It only ever writes the parser's own `build_output` attribute, never the candidate's, and it calls a `save` method the parser does not have. So it has no effect on the state modelled here.
- `is_remote`, `last_updated` and `now_datetime` are left out: they are clock and deployment details.
- The `dc.save()` and `frappe.db.commit()` calls of `_end_parsing` are left out: they are persistence.
- The traceback printing in `_parse_line_handle_exc` is output only and is left out.
- `float()` on the duration text is the parameter `Env.parseFloat`, because floating point is not modelled; `None` stands for its ValueError.
- `dockerfile.parse_string(name)[0].flags` is the parameter `Env.dockerFlags`, because it is a foreign library; `None` stands for a parse that raises.
- The `re` engine is replaced by hand-written scans for the two patterns the file uses (`Ansi.MatchLength`, `BuildLog.FindMarker`).
- PyStr.ParseInt: accepts ASCII digits only; Python's `int()` also accepts other Unicode decimal digits, which build output does not carry.
- DockerOutputParser.IndexMap: leaves out the `None` key that a step without an index gets in `dc_steps_by_index`. No line can carry that key, so no lookup ever reaches it.
- The output source (a list or a generator) is a `seq<string>`; the generator's laziness is not modelled.
- press/agent.py, press/api/app.py and press/hooks.py are not part of this model: they are network plumbing, database queries and configuration.
