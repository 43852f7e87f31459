/** The round machine of script.js: a target list drawn from the 12-note table,
    key presses captured into a capped selection, an ordered ('single') or
    set-based ('multi') judgement, the streak of correct answers, and the
    `lastAnswer` flag that keeps the target after a wrong answer. */
module ScriptGame {

  /** One entry of the note table. Its frequency matters only to the audio
      and its label (equal to the key in every entry) only to the view. */
  datatype Note = Note(key: string)

  /** The table, C up to B, in the order script.js lists it. */
  const Notes: seq<Note> := [
    Note("C"), Note("C#"), Note("D"), Note("D#"),
    Note("E"), Note("F"), Note("F#"), Note("G"),
    Note("G#"), Note("A"), Note("A#"), Note("B")
  ]

  /** What `Math.floor(Math.random() * notes.length)` can yield. */
  type NoteIndex = i: int | 0 <= i < 12

  datatype Mode = Single | Multi

  /** `notes.map(note => note.key)`. */
  function Keys(ns: seq<Note>): (ks: seq<string>)
    ensures |ks| == |ns| && forall i :: 0 <= i < |ns| ==> ks[i] == ns[i].key
  {
    if |ns| == 0 then [] else [ns[0].key] + Keys(ns[1..])
  }

  /** `new Set(notes.map(note => note.key))`. */
  function KeySet(ns: seq<Note>): (ks: set<string>)
    ensures forall k :: k in ks <==> k in Keys(ns)
  {
    set n | n in ns :: n.key
  }

  /** A subset as large as its superset is the superset. */
  lemma {:induction false} SubsetOfSameSize<T>(a: set<T>, b: set<T>)
    requires a <= b && |a| == |b|
    ensures a == b
  {
    if a != b {
      var x :| x in b && x !in a;
      assert a <= b - {x};
      SubsetSize(a, b - {x});
    }
  }

  /** A subset is no larger than its superset. */
  lemma {:induction false} SubsetSize<T>(a: set<T>, b: set<T>)
    requires a <= b
    ensures |a| <= |b|
  {
    if a != {} {
      var x :| x in a;
      SubsetSize(a - {x}, b - {x});
    }
  }

  /** The 'multi' test as script.js writes it: both key sets have the same
      size and every target key is among the selected keys. It holds exactly
      when the two key sets are equal. */
  function SameKeySets(current: seq<Note>, selected: seq<Note>): (r: bool)
    ensures r <==> KeySet(current) == KeySet(selected)
  {
    var targetKeys, chosenKeys := KeySet(current), KeySet(selected);
    var r := |targetKeys| == |chosenKeys| && forall k :: k in targetKeys ==> k in chosenKeys;
    assert r ==> targetKeys == chosenKeys by {
      if r {
        SubsetOfSameSize(targetKeys, chosenKeys);
      }
    }
    r
  }

  /** The 'single' test: the selection visited index by index (`every`), each
      key equal to the target's key at that index. With lists of equal length
      it holds exactly when the two key lists are equal. */
  function SameKeysInOrder(current: seq<Note>, selected: seq<Note>): (r: bool)
    requires |selected| == |current|
    ensures r <==> Keys(selected) == Keys(current)
  {
    var r := forall i :: 0 <= i < |selected| ==> selected[i].key == current[i].key;
    assert r <== Keys(selected) == Keys(current) by {
      if Keys(selected) == Keys(current) {
        forall i | 0 <= i < |selected| ensures selected[i].key == current[i].key {
          assert Keys(selected)[i] == Keys(current)[i];
        }
      }
    }
    r
  }

  /** The verdict of `checkAnswer`, which runs only once the selection is as
      long as the target. */
  function IsCorrect(mode: Mode, current: seq<Note>, selected: seq<Note>): (r: bool)
    requires |selected| == |current|
    ensures mode == Multi ==> (r <==> KeySet(current) == KeySet(selected))
    ensures mode == Single ==> (r <==> Keys(selected) == Keys(current))
  {
    match mode
    case Multi => SameKeySets(current, selected)
    case Single => SameKeysInOrder(current, selected)
  }

  /** An answer right in 'single' mode is right in 'multi' mode too. */
  lemma OrderedAnswerIsUnorderedAnswer(current: seq<Note>, selected: seq<Note>)
    requires |selected| == |current|
    ensures IsCorrect(Single, current, selected) ==> IsCorrect(Multi, current, selected)
  {
    if IsCorrect(Single, current, selected) {
      forall k | k in KeySet(current) ensures k in KeySet(selected) {
        var i :| 0 <= i < |current| && current[i].key == k;
        assert Keys(current)[i] == Keys(selected)[i];
      }
      forall k | k in KeySet(selected) ensures k in KeySet(current) {
        var i :| 0 <= i < |selected| && selected[i].key == k;
        assert Keys(current)[i] == Keys(selected)[i];
      }
    }
  }

  /** Any rearrangement of the target is right in 'multi' mode. */
  lemma RearrangementIsUnorderedAnswer(current: seq<Note>, selected: seq<Note>)
    requires multiset(selected) == multiset(current)
    ensures |selected| == |current|
    ensures IsCorrect(Multi, current, selected)
  {
    assert |selected| == |multiset(selected)| == |multiset(current)| == |current|;
    forall k | k in KeySet(current) ensures k in KeySet(selected) {
      var n :| n in current && n.key == k;
      assert n in multiset(current);
      assert n in selected;
    }
    forall k | k in KeySet(selected) ensures k in KeySet(current) {
      var n :| n in selected && n.key == k;
      assert n in multiset(selected);
      assert n in current;
    }
  }

  /** Duplicates collapse in 'multi' mode: [C, C, D] is answered by [C, D, D],
      which 'single' mode rejects. */
  lemma DuplicatesCollapse()
    ensures IsCorrect(Multi, [Notes[0], Notes[0], Notes[2]], [Notes[0], Notes[2], Notes[2]])
    ensures !IsCorrect(Single, [Notes[0], Notes[0], Notes[2]], [Notes[0], Notes[2], Notes[2]])
  {
    var current, selected := [Notes[0], Notes[0], Notes[2]], [Notes[0], Notes[2], Notes[2]];
    assert KeySet(current) == {"C", "D"} by {
      assert current[0].key == "C" && current[2].key == "D";
    }
    assert KeySet(selected) == {"C", "D"} by {
      assert selected[0].key == "C" && selected[1].key == "D";
    }
    assert Keys(selected)[1] != Keys(current)[1];
  }

  /** The keys of the piano (one per table entry) that the hint highlights:
      those whose key occurs somewhere in the target (`some`). */
  function HintedKeys(current: seq<Note>): (r: set<string>)
    ensures forall k :: k in r <==> k in KeySet(Notes) && k in KeySet(current)
    ensures (forall n :: n in current ==> n in Notes) ==> r == KeySet(current)
  {
    set n | n in Notes && (exists m :: m in current && m.key == n.key) :: n.key
  }

  /** The mutable `gameState` object, with the note-count selector's value
      (`noteCount`) that `generateRandomNotes` reads. */
  class GameState {
    var currentNotes: seq<Note>
    var selectedNotes: seq<Note>
    var isSelecting: bool
    var consecutiveCorrect: nat
    var gameMode: Mode
    var lastAnswer: bool
    var noteCount: nat

    /** The selection never outgrows the target, and the target is drawn from
        the table. */
    ghost predicate Valid()
      reads this
    {
      |selectedNotes| <= |currentNotes| && forall n :: n in currentNotes ==> n in Notes
    }

    /** The start of a game: the initial `gameState` and the first
        `generateRandomNotes()`, with `count` the selector's initial value. */
    constructor (count: nat, draws: seq<NoteIndex>)
      requires count <= |draws|
      ensures Valid()
      ensures |currentNotes| == count && forall i :: 0 <= i < count ==> currentNotes[i] == Notes[draws[i]]
      ensures selectedNotes == [] && !isSelecting && consecutiveCorrect == 0
      ensures gameMode == Single && lastAnswer && noteCount == count
    {
      currentNotes, selectedNotes := [], [];
      isSelecting, consecutiveCorrect := false, 0;
      gameMode, lastAnswer, noteCount := Single, true, count;
      new;
      GenerateRandomNotes(draws);
    }

    /** `generateRandomNotes`: after a right answer (or a reset) a fresh target
        of `noteCount` table entries and an empty selection; after a wrong
        answer nothing changes. */
    method GenerateRandomNotes(draws: seq<NoteIndex>)
      requires noteCount <= |draws|
      modifies this`currentNotes, this`selectedNotes
      ensures lastAnswer ==> selectedNotes == [] && |currentNotes| == noteCount
      ensures lastAnswer ==> forall i :: 0 <= i < noteCount ==> currentNotes[i] == Notes[draws[i]]
      ensures lastAnswer ==> Valid()
      ensures !lastAnswer ==> currentNotes == old(currentNotes) && selectedNotes == old(selectedNotes)
    {
      if !lastAnswer {
        return;
      }
      currentNotes := [];
      selectedNotes := [];
      for i := 0 to noteCount
        invariant |currentNotes| == i && selectedNotes == []
        invariant forall j :: 0 <= j < i ==> currentNotes[j] == Notes[draws[j]]
      {
        currentNotes := currentNotes + [Notes[draws[i]]];
      }
    }

    /** The selection part of `handleKeyClick`: the note is appended only in
        selecting mode and only while the selection is shorter than the
        target; otherwise the selection is left as it is. */
    method HandleKeyClick(note: Note)
      requires Valid()
      modifies this`selectedNotes
      ensures Valid()
      ensures if old(isSelecting) && |old(selectedNotes)| < |currentNotes|
              then selectedNotes == old(selectedNotes) + [note]
              else selectedNotes == old(selectedNotes)
    {
      if !isSelecting {
        return;
      }
      if |selectedNotes| < |currentNotes| {
        selectedNotes := selectedNotes + [note];
      }
    }

    /** `clearSelection`, also the clear button's handler. */
    method ClearSelection()
      requires Valid()
      modifies this`selectedNotes, this`isSelecting
      ensures Valid() && selectedNotes == [] && !isSelecting
    {
      selectedNotes := [];
      isSelecting := false;
    }

    /** The select button's handler. */
    method SelectClicked()
      requires Valid()
      modifies this`isSelecting
      ensures Valid() && isSelecting
    {
      isSelecting := true;
    }

    /** `checkAnswer`: nothing unless the selection is complete; then the
        verdict goes to `lastAnswer`, a right answer adds one to the streak
        and draws a new target, a wrong one zeroes the streak and keeps the
        target, and the selection is cleared either way. */
    method CheckAnswer(draws: seq<NoteIndex>)
      requires Valid() && noteCount <= |draws|
      modifies this`currentNotes, this`selectedNotes, this`isSelecting, this`lastAnswer, this`consecutiveCorrect
      ensures Valid()
      ensures |old(selectedNotes)| != |old(currentNotes)| ==>
        currentNotes == old(currentNotes) && selectedNotes == old(selectedNotes) &&
        isSelecting == old(isSelecting) && lastAnswer == old(lastAnswer) &&
        consecutiveCorrect == old(consecutiveCorrect)
      ensures |old(selectedNotes)| == |old(currentNotes)| ==>
        var correct := IsCorrect(gameMode, old(currentNotes), old(selectedNotes));
        && lastAnswer == correct
        && selectedNotes == [] && !isSelecting
        && (correct ==> consecutiveCorrect == old(consecutiveCorrect) + 1 &&
                        |currentNotes| == noteCount &&
                        forall i :: 0 <= i < noteCount ==> currentNotes[i] == Notes[draws[i]])
        && (!correct ==> consecutiveCorrect == 0 && currentNotes == old(currentNotes))
    {
      if |selectedNotes| != |currentNotes| {
        return;
      }
      var isCorrect := IsCorrect(gameMode, currentNotes, selectedNotes);
      lastAnswer := isCorrect;
      if isCorrect {
        consecutiveCorrect := consecutiveCorrect + 1;
        GenerateRandomNotes(draws);
      } else {
        consecutiveCorrect := 0;
      }
      ClearSelection();
    }

    /** The submit button's handler: the same completeness guard, then
        `checkAnswer`. */
    method SubmitClicked(draws: seq<NoteIndex>)
      requires Valid() && noteCount <= |draws|
      modifies this`currentNotes, this`selectedNotes, this`isSelecting, this`lastAnswer, this`consecutiveCorrect
      ensures Valid()
      ensures |old(selectedNotes)| != |old(currentNotes)| ==>
        currentNotes == old(currentNotes) && selectedNotes == old(selectedNotes) &&
        isSelecting == old(isSelecting) && lastAnswer == old(lastAnswer) &&
        consecutiveCorrect == old(consecutiveCorrect)
      ensures |old(selectedNotes)| == |old(currentNotes)| ==>
        var correct := IsCorrect(gameMode, old(currentNotes), old(selectedNotes));
        && lastAnswer == correct
        && selectedNotes == [] && !isSelecting
        && (correct ==> consecutiveCorrect == old(consecutiveCorrect) + 1 &&
                        |currentNotes| == noteCount &&
                        forall i :: 0 <= i < noteCount ==> currentNotes[i] == Notes[draws[i]])
        && (!correct ==> consecutiveCorrect == 0 && currentNotes == old(currentNotes))
    {
      if |selectedNotes| == |currentNotes| {
        CheckAnswer(draws);
      }
    }

    /** The game-mode selector's handler: the selection is cleared, the
        regeneration block lifted, a new target of the OLD count drawn and the
        streak zeroed; only then does 'multi' raise a count of 1 to 2. */
    method ModeChanged(mode: Mode, draws: seq<NoteIndex>)
      requires Valid() && noteCount <= |draws|
      modifies this
      ensures Valid()
      ensures gameMode == mode && lastAnswer && consecutiveCorrect == 0
      ensures selectedNotes == [] && !isSelecting
      ensures |currentNotes| == old(noteCount) && forall i :: 0 <= i < old(noteCount) ==> currentNotes[i] == Notes[draws[i]]
      ensures noteCount == if mode == Multi && old(noteCount) == 1 then 2 else old(noteCount)
    {
      gameMode := mode;
      ClearSelection();
      lastAnswer := true;
      GenerateRandomNotes(draws);
      consecutiveCorrect := 0;
      if gameMode == Multi && noteCount == 1 {
        noteCount := 2;
      }
    }

    /** The note-count selector's handler, `count` being the new value: the
        selection is cleared and the streak zeroed, but a new target is drawn
        only when the last answer was right. */
    method NoteCountChanged(count: nat, draws: seq<NoteIndex>)
      requires Valid() && count <= |draws|
      modifies this
      ensures Valid()
      ensures noteCount == count && consecutiveCorrect == 0 && selectedNotes == [] && !isSelecting
      ensures gameMode == old(gameMode) && lastAnswer == old(lastAnswer)
      ensures lastAnswer ==> |currentNotes| == count && forall i :: 0 <= i < count ==> currentNotes[i] == Notes[draws[i]]
      ensures !lastAnswer ==> currentNotes == old(currentNotes)
    {
      noteCount := count;
      ClearSelection();
      GenerateRandomNotes(draws);
      consecutiveCorrect := 0;
    }
  }

  /** Three notes in 'single' mode: the target D, G#, A played back in order
      is right and starts a streak of one with a new target. */
  method OrderedRoundScenario() returns (correct: bool, streak: nat, target: seq<Note>)
    ensures correct && streak == 1
    ensures target == [Notes[0], Notes[0], Notes[0]]
  {
    var g := new GameState(1, [0]);
    g.NoteCountChanged(3, [2, 8, 9]);
    g.SelectClicked();
    g.HandleKeyClick(Notes[2]);
    g.HandleKeyClick(Notes[8]);
    assert |g.selectedNotes| == 2;
    g.HandleKeyClick(Notes[9]);
    assert g.selectedNotes == g.currentNotes;
    g.SubmitClicked([0, 0, 0]);
    correct, streak, target := g.lastAnswer, g.consecutiveCorrect, g.currentNotes;
  }

  /** The same target answered A, D, G# is wrong in 'single' mode: the streak
      drops to zero, the selection is cleared and the target is kept. */
  method WrongOrderScenario() returns (correct: bool, streak: nat, selection: seq<Note>, target: seq<Note>)
    ensures !correct && streak == 0 && selection == []
    ensures target == [Notes[2], Notes[8], Notes[9]]
  {
    var g := new GameState(3, [2, 8, 9]);
    g.SelectClicked();
    g.HandleKeyClick(Notes[9]);
    g.HandleKeyClick(Notes[2]);
    g.HandleKeyClick(Notes[8]);
    g.SubmitClicked([0, 0, 0]);
    correct, streak, selection, target := g.lastAnswer, g.consecutiveCorrect, g.selectedNotes, g.currentNotes;
  }

  /** A fourth key press on a three-note target is not captured. */
  method CappedSelectionScenario() returns (selection: seq<Note>)
    ensures selection == [Notes[2], Notes[8], Notes[9]]
  {
    var g := new GameState(3, [2, 8, 9]);
    g.SelectClicked();
    g.HandleKeyClick(Notes[2]);
    g.HandleKeyClick(Notes[8]);
    g.HandleKeyClick(Notes[9]);
    g.HandleKeyClick(Notes[11]);
    selection := g.selectedNotes;
  }

  /** Switching to 'multi' with a count of 1 draws a ONE-note target and only
      afterwards shows 2 in the selector. */
  method MultiSwitchScenario() returns (targetLength: nat, count: nat)
    ensures targetLength == 1 && count == 2
  {
    var g := new GameState(1, [4]);
    g.ModeChanged(Multi, [7]);
    targetLength, count := |g.currentNotes|, g.noteCount;
  }
}
