# Dialogue sanitiser, modelled and verified in Dafny

This project models `sanitize_dialogue` from the text-to-speech batch script
`process_app1.py`. The function receives the turns of a dialogue, each a
record with a `role` (the speaker) and a `text`. It merges every run of
consecutive turns spoken by the same role into one turn, joining the texts
with single spaces. It then scans the result and raises `ValueError` if two
neighbouring turns still share a role, and returns the merged list.

The model has two modules.

- `Dialogue` (`dialogue.dfy`) is the value-level specification. A turn's
  value is an `Entry(role, text)`. `Absorb` is one iteration of the merge
  loop and `Sanitized` is the whole loop as a left fold. Next to it stand
  independent reference definitions: `Collapse` (the role sequence with
  adjacent duplicates collapsed), `RunStarts`/`Run` (the maximal same-role
  runs) and `Join` (texts joined by single spaces). The lemmas connect the
  fold to these definitions.
- `Sanitizer` (`sanitizer.dfy`) is the program as it runs. Turns are
  objects of class `Turn` whose fields can be rewritten. `MergeRuns` is the
  merge loop over a `seq<Turn>`. Like the Python list, it stores the
  caller's own turn objects and appends to the text of the first turn of
  each run in place. `FindRepeat` is the adjacency scan, and
  `SanitizeDialogue` is the whole function. The error it would raise is the
  result variant `RolesNotAlternating`, which is proved never to be
  returned.

The methods are proved against the specification functions. After
`SanitizeDialogue`, the values of the returned turns are exactly
`Sanitized` of the input's values. Each returned turn is the very object
that began its run in the input. Every input turn keeps its role, and
every input turn that does not begin a run keeps its text. The loop
invariant relates the turn objects to ghost functions (`Progressed`,
`StartsUpTo`, `SanitizedUpTo`) that replay the loop one turn at a time.

The sanitiser changes its argument. `merged.append(turn)` stores the
caller's own record, and `merged[-1]["text"] += ...` then rewrites that
record, so the first turn of each run in the caller's list ends up holding
the merged text. The scan after the loop raises `ValueError`; the model has
one error variant for it, carrying the position and the repeated role that
the message reports.

## Model

| member | source | states |
|---|---|---|
| Dialogue.Absorb | process_app1.py:29-32 | definition of one loop iteration on values: a turn whose role is that of the last accumulated turn is appended to that turn's text after a space, otherwise it is appended as a new turn; AbsorbRoles and AbsorbLength state its effect on roles and length |
| Dialogue.Sanitized | process_app1.py:27-33 | definition of the whole merge on values, Absorb applied to every turn first to last; SanitizedRoles ties it to Collapse, SanitizedJoinsRuns to RunStarts, Run and Join, SanitizedAlternates to Alternating |
| Dialogue.SanitizedAlternates | process_app1.py:27-33 | after the merge no two neighbouring turns share a role |
| Dialogue.SanitizedLength | process_app1.py:27-33 | the merge never creates turns: the output is no longer than the input, and it is empty exactly when the input is empty |
| Dialogue.SanitizedRoles | process_app1.py:28-32 | the output role sequence is the input role sequence with consecutive duplicates collapsed (Collapse), order kept |
| Dialogue.SanitizedJoinsRuns | process_app1.py:28-32 | there is one output turn per maximal same-role run of the input, and output turn j has run j's role and run j's texts joined in order with exactly one space between neighbours |
| Dialogue.RunStartsSpec | process_app1.py:29 | the run starts are exactly the positions whose role differs from the previous one, strictly increasing, the first at 0 |
| Dialogue.RunHasOneRole | process_app1.py:29 | every turn of a run has the role of the run's first turn |
| Dialogue.LastTurnKept | process_app1.py:24-25 | for non-empty input the last output turn has the last input turn's role, and the last input text ends the last output text |
| Dialogue.AlternatingUnchanged | process_app1.py:29-32 | the merge returns its input unchanged exactly when the input roles already alternate |
| Dialogue.NoMergeIffAlternating | process_app1.py:29-32 | the output has as many turns as the input exactly when the input roles already alternate |
| Dialogue.NoMergeAlternates | process_app1.py:29-32 | if no turn was lost in the merge, the input roles alternate |
| Dialogue.SanitizedIdempotent | process_app1.py:27-33 | merging an already merged dialogue changes nothing |
| Dialogue.AbsorbRoles | process_app1.py:29-32 | one iteration keeps the accumulated roles when the role repeats and otherwise appends the new role |
| Dialogue.AbsorbLength | process_app1.py:29-32 | one iteration keeps the number of accumulated turns when the role repeats and otherwise adds one |
| Dialogue.MergedRunGrows | process_app1.py:30 | a turn that joins the last run appends a space and its text to that run's merged text |
| Dialogue.MergedRunSingle | process_app1.py:32 | a turn that starts a new run is that run's merged turn unchanged |
| Sanitizer.FindRepeat | process_app1.py:35-38 | the scan finds a position exactly when the roles do not alternate; the position found is the first whose role equals the next one, and the role returned is that role |
| Sanitizer.ReadDecision | process_app1.py:29 | the loop's test on the turn objects (a last merged turn exists with turn k's role) holds exactly when turn k does not begin a run |
| Sanitizer.ExtendLast | process_app1.py:29-30 | appending turn k's text after a space to the last merged turn rewrites only that turn object, which is the first turn of the current run |
| Sanitizer.Step | process_app1.py:28-32 | one iteration keeps the loop invariant: the turn values are the replayed values and the merged list holds the run starts read so far |
| Sanitizer.ProgressedHolds | process_app1.py:30-32 | after k turns, the value of each merged turn is held by the input turn at its run start |
| Sanitizer.MergeDone | process_app1.py:27-33 | once every turn is read, the merged turns are the run-start turns and their values are the merged dialogue; roles are kept, as is the text of every turn that does not begin a run |
| Sanitizer.MergeRuns | process_app1.py:27-33 | the merge loop returns the turn objects at the run starts, whose values are then Sanitized of the input values; it rewrites only the texts of those objects |
| Sanitizer.SanitizeDialogue | process_app1.py:22-40 | the sanitiser never raises the alternation error; its result values are Sanitized of the input values; each result turn is the input object that began its run; other input turns keep their texts and every input turn keeps its role |

## Left out

- `main` (process_app1.py:42-81) is not part of this model. It does directory creation, globbing, skip-if-exists checks, JSON reading, per-file error handling and file writing, all file-system I/O.
- The text-to-speech call `Model().inference` (process_app1.py:47, 69) is not modelled: it is an external component whose source is not part of this model.
- Base64 decoding (section 4 of RFC 4648) and the pydub audio decoding, padding and export (process_app1.py:70-77) are not modelled; they are standard-library and foreign-codec calls on audio data.
- The `print` of the final role order (process_app1.py:39) is console output only and is not modelled.
- The static `EN_REF_AUDIO` mapping (process_app1.py:11-20) is configuration data with no behaviour.
- The dict-or-list extraction of the dialogue (process_app1.py:65) and the output-name derivation (process_app1.py:54-56) are glue over JSON parsing and path handling.
- Sanitizer.SanitizeDialogue: requires the input turns to be distinct objects (the predicate Distinct; DistinctApart reads it pair by pair for the frame proof of ExtendLast). Turns parsed by `json.load` always are, so no caller of the script can break it. A list holding one record twice would make the in-place rewrite visible at two positions, and the model does not cover that.
- Sanitizer.SanitizeDialogue: models a turn as a record with exactly a `role` and a `text`. The `KeyError` that a turn without these keys would raise is not modelled. Roles are strings compared by equality, where Python compares any JSON values.
- Sanitizer.MergeRuns: takes the input's values as a ghost parameter, to state the result in terms of the values on entry. The Python function has no such parameter.
