# Wordle solver — a Dafny model

`Wordle_Solver.py` is an interactive Wordle helper. Each round the player
types a guess, a greens pattern (`.r..e`: a letter where the guess was
right, `.` or `_` elsewhere) and a yellows line (`a@3 n@5`: a letter in the
word but not at that 1-based position). The helper folds this feedback into
constraints that persist across rounds and filters the dictionary. The
constraints are the letters required at fixed positions, a minimum count per
letter, the banned positions per letter and the excluded letters.

This project models the logic of one round and of a whole session:

- `text.dfy` (module `Text`) writes out the Python string built-ins the
  solver depends on: `str.strip`, `str.split()`, `str.replace(",", " ")`,
  `str.lower`, `str.isalpha` and `int()` on a token.
- `feedback.dfy` (module `Feedback`) holds the two parsers,
  `parse_greens_pattern` and `parse_yellows`. Each is a function stating
  what the parser returns plus a loop method proved equal to it. A
  `ValueError` is an `Err` carrying the offending text.
- `accumulator.dfy` (module `Accumulator`) holds
  `update_constraints_from_feedback`. The three caller-owned structures are
  fields of the class `Constraints`, which the update method changes in
  place. Three loop methods mirror the source's three loops: greens, yellows
  and minimum counts. A round's green and yellow letters are counted before
  its unmarked letters are excluded, so a letter guessed twice and marked
  once is required and not excluded.
- `candidates.dfy` (module `Candidates`) holds `candidate_ok` as a predicate
  and as the early-return loop method that computes it. It also holds
  `filter_candidates` and `filter_by_length`.
- `session.dfy` (module `Session`) holds the body of `interactive_loop`
  without its prompts and printing. The three typed lines are parameters.
  The loop's variables form the state. The message the loop would print
  becomes an `Outcome`. `Step` is the round as a function, and
  `Wordle.Round` is the same round on a class whose constraint structures
  are updated in place. The module proves the loop's invariant and that
  every round narrows the session.
- `soundness.dfy` (module `Soundness`) proves the solver's promise: if every
  round is answered truthfully for a secret word in the dictionary, and the
  first letters-only guess has the secret's length, the secret is never
  filtered out. A first guess of another length filters it out at once.
  "Truthfully" is stated as the game's own marking. Each letter is marked
  (green or yellow) as many times as it occurs in both the guess and the
  secret.
- `scenarios.dfy` (module `Scenarios`) works through two whole rounds:
  - "crane" with greens `..a.e` over a four-word dictionary;
  - "adieu" with the yellow `a@1`.

A rejected round can still change the state in two cases:

- It fixes the word length, and filters the dictionary to it, as soon as the
  first letters-only guess arrives (Wordle_Solver.py:185-187), before the
  pattern is checked.
- It merges a well-formed greens pattern into the accumulated greens
  (Wordle_Solver.py:202) before the yellows line is parsed. A round rejected
  at the yellows therefore keeps its greens.

`Session.Step` reproduces both.

Exclusions are never withdrawn and greens are last-write-wins, as in the
code.

## Model

| member | source | states |
|---|---|---|
| Feedback.ParseGreensPattern | Wordle_Solver.py:32-40 | The loop returns exactly `GreensPattern`. After stripping, every character other than `.` and `_` must be a letter, or the result is an error. Each letter maps its 0-based index to its lower-case form. |
| Feedback.GreensPattern | Wordle_Solver.py:32-40 | The pattern is refused, with `ValueError`'s message, if and only if some stripped character is neither a placeholder nor a letter. Otherwise every letter's index maps to its lower-case form, and every key is such an index and maps to a lower-case letter. |
| Feedback.GreensPatternExample | Wordle_Solver.py:33 | The docstring example `.r..e` gives {1: 'r', 4: 'e'}. |
| Feedback.ParseYellows | Wordle_Solver.py:43-66 | The loop returns exactly `Yellows`. A blank line gives the empty list. Otherwise the comma- or space-separated entries are parsed in order, and the first bad entry decides the error. |
| Feedback.Yellows | Wordle_Solver.py:43-66 | An empty or whitespace-only line gives `[]` and no error. Every parsed yellow is a lower-case letter at a 0-based position below the word length. |
| Feedback.YellowEntriesOk | Wordle_Solver.py:53-65 | The entries parse if and only if each entry does. Then there is one yellow per entry, in entry order. Each yellow is that entry's lower-case letter at a position in 0..wordLen-1. |
| Feedback.YellowEntriesFirstError | Wordle_Solver.py:53-64 | When the line is refused, the error is that of the first entry that does not parse, and every earlier entry parses. |
| Feedback.YellowEntry | Wordle_Solver.py:54-65 | Each refusal comes with exactly its cause and quotes the text it names: no `@` (the entry); a first `@` that does not follow exactly one letter (the text before that `@`); a position text `int()` refuses (that text); a position outside 1..wordLen (the number and the length). An entry parses if and only if none of these applies, and then gives its letter lower-cased and the position minus one. |
| Feedback.YellowEntryOfText | Wordle_Solver.py:54-65 | The entry `c@N` parses to (lower(c), N-1) when 1 <= N <= wordLen. Otherwise it is refused as out of range. |
| Feedback.YellowsRoundTrip | Wordle_Solver.py:43-66 | Any list of lower-case yellows at positions inside the word, written as a yellows line, parses back to the same list. |
| Feedback.YellowsExample | Wordle_Solver.py:45 | The docstring example `a@3 n@5` gives [('a', 2), ('n', 4)]. |
| Text.StripSpec | Wordle_Solver.py:48 | `strip()` gives the contiguous middle of the line that neither starts nor ends with whitespace, and everything cut on either side is whitespace. |
| Text.StripIdempotent | Wordle_Solver.py:48 | Stripping an already stripped line changes nothing, so the caller's strip and the parser's strip agree. |
| Text.StripEmptyIffBlank | Wordle_Solver.py:48-50 | A line strips to nothing if and only if it is all whitespace. |
| Text.FieldsOfJoin | Wordle_Solver.py:51 | `split()` gives back the whitespace-free tokens that were joined by single spaces. |
| Text.FieldsAreTokens | Wordle_Solver.py:51 | Every field of `split()` is non-empty and free of whitespace. |
| Text.FieldsNoComma | Wordle_Solver.py:51 | A line without commas splits into fields without commas. |
| Text.FieldsKeepText | Wordle_Solver.py:51 | `split()` loses only whitespace: its fields glued together are the line with every whitespace character removed, whatever runs of spaces, tabs or turned commas separate them. |
| Text.ParseIntOfDecimal | Wordle_Solver.py:60 | `int()` reads a decimal numeral back as its value, with an optional `+` or `-` sign. |
| Text.ParseIntExamples | Wordle_Solver.py:60 | `int()` reads "12", "+3", "-1" and "1_0", and refuses "", "+", "1__0", "_1", "1_" and "3a". |
| Text.FirstIndex | Wordle_Solver.py:56 | `split("@", 1)` cuts at the first `@`, and no `@` comes before it. |
| Text.Lower | Wordle_Solver.py:39 | `lower()` on one character turns exactly the letters into lower-case letters, maps each upper-case letter to the lower-case letter at the same place in the alphabet, and leaves every other character unchanged. |
| Accumulator.Constraints.constructor | Wordle_Solver.py:170-172 | The constraint structures start empty. |
| Accumulator.Constraints.UpdateFromFeedback | Wordle_Solver.py:69-105 | The new minimums, banned positions and exclusions are the old ones plus this round's count, this round's yellow positions, and this round's uncounted guess letters. |
| Accumulator.CountGreens | Wordle_Solver.py:87-90 | The greens loop counts exactly the positions marked green with the guess's own letter. |
| Accumulator.Constraints.MarkYellows | Wordle_Solver.py:93-96 | The yellows loop counts each yellow the guess holds at its position. It bans every yellow's position, and it leaves the minimums and exclusions alone. |
| Accumulator.Constraints.RaiseMinCounts | Wordle_Solver.py:99-101 | Each counted letter's minimum becomes the larger of the old minimum and its count. No other field changes. |
| Accumulator.RaiseMinsAt | Wordle_Solver.py:99-101 | A letter has a minimum afterwards if and only if it had one or was counted. An uncounted letter keeps its minimum. No minimum decreases. |
| Accumulator.AddBannedAt | Wordle_Solver.py:93-96 | A letter has banned positions afterwards if and only if it had some or is a yellow letter. Its set is the old set plus every position given for it, including positions where the guess holds another letter. |
| Accumulator.AddBannedGrows | Wordle_Solver.py:96 | No banned letter or position is ever removed. |
| Accumulator.GreenCounted | Wordle_Solver.py:87-90 | The greens loop's count of a letter is exactly the number of positions marked green with that letter where the guess holds it. |
| Accumulator.YellowCounted | Wordle_Solver.py:93-95 | The yellows loop's count of a letter is exactly the number of yellows of that letter that the guess holds at their positions. |
| Accumulator.RoundCountAt | Wordle_Solver.py:87-95 | A letter's count for the round is the number of its green positions plus the number of its holding yellows. |
| Accumulator.GreysExactly | Wordle_Solver.py:104-105 | A letter is excluded by the round if and only if it occurs in the guess and is marked at no green position and by no holding yellow. |
| Accumulator.RepeatedLetterCount | Wordle_Solver.py:87-95 | For "speed" with only the second 'e' green, 'e' is counted once. |
| Accumulator.RepeatedLetterGreys | Wordle_Solver.py:104 | For "speed" with 'e' counted, the excluded letters are 's', 'p' and 'd'. |
| Accumulator.RepeatedLetterMins | Wordle_Solver.py:99-101 | For "speed" with 'e' counted, 'e' is required once. |
| Candidates.CheckCandidate | Wordle_Solver.py:108-135 | The early-return loops accept a word if and only if all four conditions of `CandidateOk` hold. Every green index holds its letter. No excluded letter occurs. Every letter with banned positions occurs, but at none of them. Every letter occurs at least its minimum number of times. |
| Candidates.CandidateOkIgnoresCase | Wordle_Solver.py:115 | `candidate_ok` lower-cases the word first, so its verdict is the same for a word and its lower-case form. |
| Candidates.CandidateOkAntitone | Wordle_Solver.py:108-135 | Tightening the constraints can only turn an accepted word into a rejected one, never the reverse. |
| Candidates.FilterCandidates | Wordle_Solver.py:138-148 | Every survivor is an input word that passes. Each passing input word survives exactly as often as it occurs, and each failing word is dropped. |
| Candidates.FilterCandidatesAppend | Wordle_Solver.py:145-148 | Filtering distributes over concatenation, so survivors keep their input order. |
| Candidates.FilterCandidatesIdempotent | Wordle_Solver.py:145-148 | Filtering the survivors again with the same constraints changes nothing. |
| Candidates.FilterByLength | Wordle_Solver.py:28-29 | Every survivor has the given length. Each input word of that length survives exactly as often as it occurs. |
| Candidates.FilterByLengthAppend | Wordle_Solver.py:28-29 | The length filter distributes over concatenation, so survivors keep their input order. |
| Candidates.FilterByLengthIdempotent | Wordle_Solver.py:28-29 | Filtering by length twice is filtering once. |
| Session.Initial | Wordle_Solver.py:169-175 | The session starts with the whole dictionary, no word length and no constraints, and this state satisfies the loop invariant. |
| Session.Step | Wordle_Solver.py:185-224 | A round quits exactly on a quit word. A quit word or a non-letter guess changes nothing. A wrong length, a wrong pattern length or a bad pattern changes at most the fixed length and the list filtered to it. After bad yellows or a narrowing round the greens are the old greens overwritten by this round's pattern. Only a narrowing round touches the other constraints: it applies `Constrain` with this round's pattern and yellows to the length-filtered state, and reports the size of the new list. |
| Session.StepOutcome | Wordle_Solver.py:178-209 | Which outcome a round gets, each as an if-and-only-if. A non-quit line that is not all letters is refused as such. A letters-only guess of another length than the fixed one is `WrongLength`. A pattern of another length is `PatternLength`. A pattern that does not parse is `BadPattern`, yellows that do not parse are `BadYellows`, and a round narrows exactly when every check passes. |
| Session.Constrain | Wordle_Solver.py:212-224 | The minimums are raised to this round's counts, the yellow positions are banned, and the round's unmarked letters are excluded. Counts use this round's pattern only, while the filter uses all greens so far. Length and greens stay; only words of the old list that pass every accumulated constraint remain. |
| Session.StepWellFormed | Wordle_Solver.py:177-224 | Every round keeps the loop invariant. Until a length is fixed, no constraint exists. Once it is fixed, every remaining word has that length and every recorded position lies inside it. |
| Session.RunWellFormed | Wordle_Solver.py:177-224 | Every sequence of rounds keeps the invariant. |
| Session.StepNarrows | Wordle_Solver.py:185-224 | A round never adds a word to the list. It never drops a green position, minimum, banned position or exclusion, and it never lowers a minimum. |
| Session.ConstrainNarrows | Wordle_Solver.py:212-224 | The constraint update and filter only shrink the list and only tighten the constraints. |
| Session.StepSurvivors | Wordle_Solver.py:185-224 | After a round that narrows, every remaining word has the fixed length and passes all the accumulated constraints. Every word of the previous list with that length survives exactly when it passes. |
| Session.Wordle.constructor | Wordle_Solver.py:169-175 | The object starts in the initial session state, with constraint structures of its own that no other session shares. |
| Session.Wordle.Round | Wordle_Solver.py:178-224 | One round on the object changes its state and returns its outcome exactly as `Step` does. Quit words, non-letter guesses, a wrong length, a wrong pattern length, a bad pattern or bad yellows are rejected in that order. Otherwise the round ends in the update in place and the filter. |
| Soundness.MergeGreensKeepsSecret | Wordle_Solver.py:202 | Merging truthful greens keeps the secret a candidate. |
| Soundness.GreysNotInSecret | Wordle_Solver.py:104-105 | No letter that a truthful round excludes occurs in the secret. |
| Soundness.YellowInSecret | Wordle_Solver.py:93-96 | A truthful yellow's letter occurs in the secret. |
| Soundness.BannedKeepsSecret | Wordle_Solver.py:93-96 | After a truthful round, every banned letter occurs in the secret, but at none of its banned positions. |
| Soundness.MinsKeepSecret | Wordle_Solver.py:99-101 | The raised minimums never exceed the secret's letter counts. |
| Soundness.UpdateKeepsSecret | Wordle_Solver.py:69-105 | A truthful update keeps the secret passing `candidate_ok` under the merged greens. |
| Soundness.StepKeepsSecret | Wordle_Solver.py:185-224 | A round never removes the secret from the list and never makes it fail the constraints, provided its feedback is truthful whenever the round gets as far as parsing it. Quit words, non-letter lines, wrong lengths, bad patterns and bad yellows are all allowed; only the guess that fixes the length must have the secret's length. |
| Soundness.RunKeepsSecret | Wordle_Solver.py:177-224 | The same holds over any sequence of such rounds. |
| Soundness.SessionKeepsSecret | Wordle_Solver.py:168-224 | A secret in the dictionary is still in the word list at the end of a session whose parsed feedback is truthful and whose first letters-only guess has the secret's length. |
| Soundness.WrongFirstLengthLosesSecret | Wordle_Solver.py:185-187 | A first letters-only guess of another length filters the secret out, so the length condition above cannot be dropped. |
| Soundness.StepLength | Wordle_Solver.py:178-187 | A line that is a quit word or not all letters leaves the state as it was; a letters-only guess always leaves a fixed length. |
| Scenarios.CraneScenario | Wordle_Solver.py:185-224 | Guess "crane" with greens `..a.e` and no yellows over crane, crate, slate, plate. It leaves slate and plate, requires 'a' and 'e' once, and excludes 'c', 'r', 'n'. |
| Scenarios.AdieuScenario | Wordle_Solver.py:185-224 | Guess "adieu" with greens `.....` and yellow `a@1` as a first round. It bans 'a' at index 0, requires 'a' once, and excludes 'd', 'i', 'e', 'u'. |

## Left out

- `load_words` (Wordle_Solver.py:23-25): it reads a file. The session takes the dictionary as a parameter.
- `parse_args` and `main`: command-line plumbing.
- The prompts, `input()` and every `print()` of `interactive_loop`, including the candidate listing and the constraint summary. The typed lines are parameters, and a printed message is an `Outcome`.
- `score_by_letter_coverage` (Wordle_Solver.py:151-165): floating-point scores and a float-keyed sort.
- The unused `gy_marks` list (Wordle_Solver.py:84): dead code.
- Characters, letters and case:
  - `str.isalpha`, `str.lower` and the digits `int()` accepts are ASCII here. Python also accepts non-ASCII letters and digits.
  - Whitespace is the full set `str.isspace` accepts.
  - `int()` takes an optional sign and digits with single underscores between them.
- Candidates.CandidateOk: Python's negative indices are not modelled. Its precondition asks that every green and banned position index the word. `Session.StepWellFormed` shows this always holds inside a session.
- Candidates.FilterCandidates: a word too short for a recorded position is dropped. The source raises `IndexError` only when its loops reach that position before any check fails, and returns False when a check fails first; the model drops the word in both cases. Within a session every word has the fixed length and every position lies inside it (`Session.StepWellFormed`), so this case never arises there.
- Text.ParseInt: Python 3.11 and later refuse numerals longer than 4300 digits, so the source reports such a position as a bad position. The model reads numerals of any length, so such a position is refused as out of range instead.
- Candidates.CheckCandidate: green and banned positions are visited in word order rather than dictionary order. The first failing check may differ, but the verdict does not.
- Accumulator.Constraints.RaiseMinCounts: letters are visited in an arbitrary order rather than `Counter` insertion order. The resulting map is the same.
- Conflicting greens across rounds (last write wins) and letters excluded earlier but marked later stay as the code has them. Neither is reconciled.
