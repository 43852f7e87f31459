# Piano note recognition game: the round bookkeeping, verified

The game plays a short sequence of piano notes, C up to B of one octave. The
player picks the notes they heard on an on-screen keyboard and submits the
answer. The repository holds two independent variants of this round logic,
one per script. Each has its own module-level state. This project models both
as Dafny state machines and proves what their handlers do.

- `script_game.dfy`, module `ScriptGame`, models script.js:
  - `class GameState` is the mutable `gameState` object. Its handlers draw a
    target from the 12-note table, capture key presses into `selectedNotes`
    (never more than the target length), and grade an answer.
  - Grading is index-wise in 'single' mode. In 'multi' mode it compares the
    sets of note keys, so duplicates collapse.
  - The handlers also keep the `consecutiveCorrect` streak and the
    `lastAnswer` flag, which blocks a new target after a wrong answer.
  - The mode and note-count selectors reset parts of this state.
- `main_game.dfy`, module `MainGame`, models main.js:
  - `class Game` holds the module-level `let` variables. The text of the
    locked-notes label serves as the store of the selection.
  - A clicked key becomes the one-note `playerSequence`. "Select" appends
    that note's display name (its id without the first `'4'`) to the label.
  - The label is split again on the full-width colon and on spaces, both to
    count the selection and to grade the answer.
  - The play button starts a new round or replays the open one, and counts
    the replays.
  - A ghost field `selection` records the notes the label shows. The class
    invariant ties the label text to it and keeps the selection no longer
    than the target, so the parse is proved to give back
    what the appends wrote.
- `js_text.dfy`, module `JsText`: the JavaScript string operations main.js
  relies on, and one closed form:
  - `split` on one character; it never returns an empty list, and the empty
    string splits into `[""]`.
  - `Join`: the closed form of the text that the appends at main.js:199
    build; main.js never calls `join`.
  - `filter(n => n)`.
  - `replace` with a one-character string pattern, which removes only the
    first occurrence.

Randomness is an input. `Math.floor(Math.random() * notes.length)` becomes a
caller-supplied sequence `draws` of table indices in 0..11. A method that
draws notes requires at least as many draws as notes it takes.

Audio playback is asynchronous in the source. The model makes each playback
two explicit events. The beginning happens inside the handler that starts it
(`isPlaying` is set when there is something to play). The end is
`Game.PlaybackEnded`; when it ends the playback that opened a round, selection
is allowed.

Points of the code that the model keeps as written:
- main.js keeps its selection only in the label text and parses the text
  again whenever it needs the selection; it has no separate list.
- A replay past the limit is not refused by the round state. main.js only
  disables a button, so `playCount` goes on counting and `limitReached`
  reports when it has reached 3.
- main.js replaces `playerSequence` on every click instead of appending.
- A submit with the wrong number of notes is handled differently by the two
  scripts. script.js ignores it silently, both in the submit handler and in
  `checkAnswer`. main.js writes an error message in red and changes nothing
  else; `Game.CheckAnswer` returns the verdict `CountMismatch` for it.

## Model

| member | source | states |
|---|---|---|
| JsText.Split | main.js:221 | `split` on one character: at least one piece, no piece holds the separator, joining the pieces gives back the input |
| JsText.SplitJoin | main.js:199-203 | joining separator-free pieces and splitting again returns exactly those pieces |
| JsText.NonEmpty | main.js:180 | `filter(n => n)` keeps only non-empty entries of the input: one where all are non-empty stays whole, one where all are empty becomes empty |
| JsText.NonEmptyCounts | main.js:180 | `filter(n => n)` keeps every non-empty entry exactly as often as it occurs and no empty one (equal multisets once `""` is removed) |
| JsText.NonEmptyAppend | main.js:180 | filtering a concatenation is the concatenation of the filtered parts, so the kept entries stay in order |
| JsText.SplitFirstPieces | main.js:179 | `split` has a second piece exactly when the text holds the separator; the first piece is the text before the first separator, the second the text after it up to the next separator or the end |
| JsText.RemoveFirst | main.js:171 | `replace('4', '')` removes only the first '4', and a string without one is unchanged |
| ScriptGame.Keys | script.js:231-232 | `map(note => note.key)`: same length, entry i is the key of note i |
| ScriptGame.KeySet | script.js:231-232 | `new Set(notes.map(note => note.key))`: a key is in the set exactly when it occurs in the key list |
| ScriptGame.IsCorrect | script.js:229-239 | the verdict: in 'multi' mode right exactly when the two key sets are equal, in 'single' mode right exactly when the two key lists are equal |
| ScriptGame.SameKeySets | script.js:230-234 | the 'multi' test as written (equal set sizes and every target key selected) holds exactly when the two key sets are equal |
| ScriptGame.SameKeysInOrder | script.js:235-238 | the 'single' test (`every` index has an equal key) holds exactly when the two key lists are equal |
| ScriptGame.OrderedAnswerIsUnorderedAnswer | script.js:229-238 | an answer judged right in 'single' mode is also right in 'multi' mode |
| ScriptGame.RearrangementIsUnorderedAnswer | script.js:230-234 | any rearrangement (same multiset) of the target is right in 'multi' mode |
| ScriptGame.DuplicatesCollapse | script.js:230-238 | target [C, C, D] answered by [C, D, D] is right in 'multi' mode and wrong in 'single' mode |
| ScriptGame.HintedKeys | script.js:290-297 | the hint highlights a piano key exactly when its key occurs in the target; for a target drawn from the table, that is exactly the target's key set |
| ScriptGame.GameState.constructor | script.js:18-27 | the initial `gameState` (empty selection, not selecting, streak 0, 'single', `lastAnswer` true), followed by the first draw of `count` table notes |
| ScriptGame.GameState.GenerateRandomNotes | script.js:85-96 | with `lastAnswer` true, a target of exactly `noteCount` table notes (entry i is table entry `draws[i]`) and an empty selection; with `lastAnswer` false nothing changes |
| ScriptGame.GameState.HandleKeyClick | script.js:193-204 | the note is appended exactly when selecting and the selection is shorter than the target, otherwise the selection is unchanged; selection length never exceeds target length |
| ScriptGame.GameState.ClearSelection | script.js:213-222 | an empty selection, and selecting off |
| ScriptGame.GameState.SelectClicked | script.js:263-266 | selecting on |
| ScriptGame.GameState.CheckAnswer | script.js:225-255 | no effect unless the selection is as long as the target; otherwise `lastAnswer` is the verdict; a right answer adds exactly 1 to the streak and draws a new target; a wrong one zeroes the streak and keeps the target; the selection ends empty and selecting off |
| ScriptGame.GameState.SubmitClicked | script.js:329-333 | the same completeness guard in front of `checkAnswer`, with the same outcome |
| ScriptGame.GameState.ModeChanged | script.js:307-324 | mode set, selection cleared, `lastAnswer` forced true, a new target of the OLD count drawn, streak 0; then 'multi' raises a count of 1 to 2 |
| ScriptGame.GameState.NoteCountChanged | script.js:335-340 | new count, selection cleared, streak 0; a new target only when `lastAnswer` is true, otherwise the target is kept |
| ScriptGame.OrderedRoundScenario | script.js:241-248 | D, G#, A answered in order: right, streak 1, a new target drawn |
| ScriptGame.WrongOrderScenario | script.js:249-254 | the same target answered A, D, G#: wrong, streak 0, selection cleared, target kept |
| ScriptGame.CappedSelectionScenario | script.js:198-204 | a fourth key press on a three-note target is not captured |
| ScriptGame.MultiSwitchScenario | script.js:307-320 | switching to 'multi' at count 1 draws a one-note target and only then shows count 2 |
| MainGame.DisplayNameRestoresId | main.js:171 | `note.replace('4', '')`: putting the '4' back at the position of the id's first '4' gives the id again, and an id without a '4' is shown unchanged |
| MainGame.DisplayNames | main.js:229-231 | the display names of a note list, one per note, in order |
| MainGame.DisplayNameOfOctaveFour | main.js:171 | an id that is a name followed by its only '4' is shown as that name |
| MainGame.TableDisplayNames | main.js:2-15 | the table is shown as C, C#, ..., B: plain names, pairwise different |
| MainGame.Find | main.js:156 | `find`: none exactly when no entry matches; otherwise a matching entry of the list, namely the first |
| MainGame.NoteByIdFound | main.js:156 | the lookup of a clicked key's `data-note`: found exactly when some table entry has that id, and what is found is a table entry with that id |
| MainGame.NoteByIdOfTable | main.js:156 | looking up a table id finds that table entry |
| MainGame.FindByDistinctName | main.js:335 | in a list with pairwise different display names, looking up an entry's name finds that entry |
| MainGame.NoteByNameInvertsDisplayName | main.js:335-336 | the preview lookup `NoteByName`: found exactly when some table entry is shown by that name, what is found is shown by it, and it inverts the display name on the table |
| MainGame.AfterColonPiece | main.js:179 | `split('：')[1]` (`AfterColon`) is undefined exactly when the label has no colon; otherwise it, and `LockedText` (the same text with the empty string as fallback), is the text after the first colon up to the next colon or the end; `LockedText` is empty without a colon |
| MainGame.LockedNames | main.js:179-180 | the names `selectCurrentNote` counts (and the preview, main.js:327-330, plays): non-empty, space-free, none for an empty text, and exactly the non-empty space-separated words of the text after the colon, each as often as it occurs |
| MainGame.SubmittedNames | main.js:221 | the names `checkAnswer` splits: undefined exactly when the label has no colon; otherwise at least one space-free piece, which joined with spaces give back the text after the colon |
| MainGame.Appended | main.js:199 | appending a space-free name makes it exactly one more word at the end of the space-split text (the only word if the text was empty) |
| MainGame.Grade | main.js:221-231 | the verdict: a throw exactly when the label has no colon; otherwise a refusal exactly when the piece count differs from the target's length, and right exactly when the pieces are the target's display names |
| MainGame.LabelRoundTrip | main.js:179-180 | parsing the label of plain names gives back exactly those names to `selectCurrentNote`, and to `checkAnswer` too except that no names come back as one empty name |
| MainGame.AppendRenders | main.js:199-203 | what "select" writes is the label of the old names with the new one at the end |
| MainGame.Compare | main.js:223-231 | count mismatch exactly when the lengths differ; right exactly when the names are the target's display names in order |
| MainGame.GradeRendered | main.js:221-231 | grading a label of plain names never throws; with at least one name it agrees with `Compare` on those names |
| MainGame.GradeEmptyLabel | main.js:221-227 | an empty label is graded as one empty name: wrong against a one-note target, refused against any other |
| MainGame.RightAnswerNamesTarget | main.js:229-231 | a right answer's names are the target's display names, and the preview plays back the target itself |
| MainGame.PlayableNotes | main.js:334-340 | the notes the preview plays: at most one per name, all from the table |
| MainGame.PlayableSkipsUnknown | main.js:335-336 | a name the table does not know plays nothing |
| MainGame.PlayableAppend | main.js:334-340 | the names are played in order: a concatenation plays the two parts one after the other |
| MainGame.PlayableMembers | main.js:334-340 | a note is played exactly when some name of the list looks up to it |
| MainGame.TableNote | main.js:335-336 | a table note has a plain display name that looks up to that note |
| MainGame.PlayableDisplayNames | main.js:334-340 | the display names of table notes play back exactly those notes, in order |
| MainGame.DisplayNamesDetermineNotes | main.js:229-231 | two lists of table notes have the same display names exactly when they are equal |
| MainGame.SelectionLabel | main.js:179-180 | the label of a selection parses to one name per selected note and previews as the selection itself |
| MainGame.SelectedCountOfLabel | main.js:179-180 | the count `selectCurrentNote` takes from the label is the number of selected notes |
| MainGame.AppendToSelection | main.js:198-203 | appending a table note's name to a selection's label gives the label of the extended selection |
| MainGame.GradeSelection | main.js:220-231 | on the label of a non-empty selection: refused exactly when the counts differ, right exactly when the selection is the target; an empty one is wrong against one note, else refused |
| MainGame.Game.constructor | main.js:21-28 | the initial values of the state variables, with the label showing the bare caption |
| MainGame.Game.NoteCountChanged | main.js:64-69 | a count of 1..8 and a zero streak; the current sequence is untouched |
| MainGame.Game.GenerateSequence | main.js:129-134 | exactly `selectedNoteCount` notes, entry i being table entry `draws[i]` |
| MainGame.Game.HandleKeyClick | main.js:152-173 | ignored while playing or for an unknown id; otherwise `playerSequence` is replaced by exactly the clicked note |
| MainGame.Game.SelectCurrentNote | main.js:176-217 | nothing without `canSelect`; a selection as long as the target is reset to empty; nothing without a clicked note; otherwise exactly the clicked note is appended and `playerSequence` emptied |
| MainGame.Game.CheckAnswer | main.js:220-265 | the verdict is the grade of the label; with a selection, refused exactly when counts differ and right exactly when the selection is the target; a refusal changes nothing; the effects are those of `ApplyVerdict`; the throw of `[1]` never happens |
| MainGame.Game.ApplyVerdict | main.js:233-262 | right: streak plus 1 and `canPlay`; wrong: streak 0, `canSelect`, empty label; both empty `playerSequence`; any other verdict changes nothing |
| MainGame.Game.PlayClicked | main.js:285-316 | in an open round: same sequence, `playCount` plus 1, limit flag exactly when the count is at least 3; otherwise a new round with count 0, `selectedNoteCount` drawn notes, empty label, selection closed, round open, and its first playback pending |
| MainGame.Game.PlaybackEnded | main.js:313-315 | playing stops; only the pending first playback of a round may be the one that opens selection, and when it ends selection opens and nothing is pending any more |
| MainGame.Game.PreviewClicked | main.js:325-344 | ignored while playing; otherwise plays the notes named in the label, which are exactly the selected notes |
| MainGame.OrderedRoundScenario | main.js:229-245 | D, A selected in order: right, streak 1, a new round allowed |
| MainGame.WrongOrderScenario | main.js:246-259 | the same target selected A, D: wrong, streak 0, bare caption, selection open |
| MainGame.EmptyLabelScenario | main.js:221-231 | submitting nothing against a one-note target is judged wrong, not refused |
| MainGame.ReplayScenario | main.js:286-297 | three replays report the limit false, false, true; the count is 3 and the sequence unchanged |
| MainGame.FullSelectionScenario | main.js:183-189 | "select" on a full selection shows the bare caption again |

## Left out

- Tone synthesis: both `playNote` functions. They drive Web Audio oscillators with floating-point gains and a random noise buffer, and have no effect on the round state.
- Playback timing: `playCurrentNotes`, `playSequence` and `playSelectedNotes` wait on timers. Each playback is modelled as a begin event and an end event (`Game.PlaybackEnded`). In script.js it is not modelled at all, because there it touches only a button.
- The script.js play button handler: it only plays audio.
- `MainGame.Game.PlayClicked`: the replay limit is only reported, never enforced. main.js enforces it through the button's `disabled` flag, which is view state, and re-enables that button after every playback.
- Randomness: the drawn indices are an input (`draws`).
- DOM and view: key creation and positions, CSS classes, message, result and streak texts, button texts, the selected-notes line, the hint's colours and its delay.
- `pressedKeys` and the mouseup handler of script.js: view state only.
- Note frequencies and script.js's `label` field. They matter only to audio and the view; every `label` equals its `key`.
- index.html is not part of this model, which leaves two things open:
  - `ScriptGame.GameState.constructor` takes the note-count selector's initial value and options as a parameter of any size;
  - `MainGame.Game.constructor` shows the bare caption as the initial label, the text every reset in main.js writes.
- Audio-context initialisation: it has no effect on the round state.
