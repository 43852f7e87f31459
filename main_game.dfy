/** The round machine of main.js. A clicked key becomes the one-note
    `playerSequence`; "select" appends that note's display name to the text
    of the locked-notes label, and that text is split again to count the
    selections and to grade the answer. The play button starts a new round or,
    while a round is open, replays it and counts the replays. */
module MainGame {
  import opened JsText

  /** One entry of the note table; the frequency matters only to the audio. */
  datatype Note = Note(id: string)

  /** The table, C4 up to B4, in the order main.js lists it. */
  const Notes: seq<Note> := [
    Note("C4"), Note("C#4"), Note("D4"), Note("D#4"),
    Note("E4"), Note("F4"), Note("F#4"), Note("G4"),
    Note("G#4"), Note("A4"), Note("A#4"), Note("B4")
  ]

  /** What `Math.floor(Math.random() * notes.length)` can yield. */
  type NoteIndex = i: int | 0 <= i < 12

  /** The full-width colon that ends the label's caption. */
  const Colon: char := '\U{FF1A}'

  /** The caption of the locked-notes label, colon included. */
  const Caption: string := "已选择的音符："

  /** The name a note is shown by: `note.note.replace('4', '')`, the id without
      its first '4'. */
  function DisplayName(n: Note): string
  {
    RemoveFirst(n.id, '4')
  }

  /** Putting the '4' back where `replace` took it out gives the id again;
      an id without a '4' is shown as it is. */
  lemma DisplayNameRestoresId(n: Note)
    ensures '4' !in n.id ==> DisplayName(n) == n.id
    ensures '4' in n.id ==>
              var k := FirstIndex(n.id, '4');
              && k <= |DisplayName(n)| && '4' !in DisplayName(n)[..k]
              && n.id == DisplayName(n)[..k] + "4" + DisplayName(n)[k..]
  {
    if '4' in n.id {
      RemoveFirstRestores(n.id, '4');
    }
  }

  /** The display names of a note list, in order: the names `checkAnswer`
      compares against, index by index inside its `every`. */
  function DisplayNames(ns: seq<Note>): (names: seq<string>)
    ensures |names| == |ns| && forall i :: 0 <= i < |ns| ==> names[i] == DisplayName(ns[i])
  {
    if |ns| == 0 then [] else [DisplayName(ns[0])] + DisplayNames(ns[1..])
  }

  /** A name that survives the label's round trip: not empty, and holding
      neither of the two separators the label is split on. */
  predicate IsPlainName(s: string)
  {
    s != "" && ' ' !in s && Colon !in s
  }

  /** An id that ends in its only '4' is shown without that '4'. */
  lemma DisplayNameOfOctaveFour(base: string)
    requires '4' !in base
    ensures DisplayName(Note(base + "4")) == base
  {
    var id := base + "4";
    assert id[|base|] == '4' && id[..|base|] == base;
    assert FirstIndex(id, '4') == |base|;
    assert id[|base| + 1..] == "";
  }

  /** The names the table is shown by, in table order. */
  const TableNames: seq<string> := ["C", "C#", "D", "D#", "E", "F", "F#", "G", "G#", "A", "A#", "B"]

  /** Each table id is its shown name followed by '4', and the shown names are
      plain, free of '4' and pairwise different. */
  lemma TableShape()
    ensures |TableNames| == |Notes|
    ensures forall i :: 0 <= i < |Notes| ==> Notes[i] == Note(TableNames[i] + "4")
    ensures forall i :: 0 <= i < |TableNames| ==> IsPlainName(TableNames[i]) && '4' !in TableNames[i]
    ensures forall i, j :: 0 <= i < j < |TableNames| ==> TableNames[i] != TableNames[j]
  {
  }

  /** No two table entries share an id. */
  lemma TableIdsDistinct()
    ensures forall i, j :: 0 <= i < j < |Notes| ==> Notes[i].id != Notes[j].id
  {
  }

  /** The display names of the table are C, C#, ..., B: plain names, and no
      two table entries share one. */
  lemma TableDisplayNames()
    ensures forall i :: 0 <= i < |Notes| ==> DisplayName(Notes[i]) == TableNames[i]
    ensures forall i :: 0 <= i < |Notes| ==> IsPlainName(DisplayName(Notes[i]))
    ensures forall i, j :: 0 <= i < j < |Notes| ==> DisplayName(Notes[i]) != DisplayName(Notes[j])
  {
    TableShape();
    forall i | 0 <= i < |Notes| ensures DisplayName(Notes[i]) == TableNames[i] {
      DisplayNameOfOctaveFour(TableNames[i]);
    }
  }

  /** `notes.find(matches)`: the first entry that matches, if any. */
  function Find(ns: seq<Note>, matches: Note -> bool): (r: Option<Note>)
    ensures r.None? <==> forall i :: 0 <= i < |ns| ==> !matches(ns[i])
    ensures r.Some? ==> r.value in ns && matches(r.value)
    ensures forall i :: 0 <= i < |ns| && matches(ns[i]) && (forall j :: 0 <= j < i ==> !matches(ns[j])) ==>
              r == Some(ns[i])
  {
    if |ns| == 0 then None
    else if matches(ns[0]) then Some(ns[0])
    else
      var r := Find(ns[1..], matches);
      assert forall i :: 1 <= i < |ns| ==> ns[1..][i - 1] == ns[i];
      r
  }

  /** The test `n => n.note === key.dataset.note` of a clicked key. */
  function HasId(id: string): Note -> bool
  {
    (n: Note) => n.id == id
  }

  /** The test `n => n.note.replace('4', '') === noteName` of the preview. */
  function HasName(name: string): Note -> bool
  {
    (n: Note) => DisplayName(n) == name
  }

  /** The lookup of a clicked key's `data-note` in the table. */
  function NoteById(id: string): Option<Note>
  {
    Find(Notes, HasId(id))
  }

  /** The lookup of a display name in the table, as the preview does it. */
  function NoteByName(name: string): Option<Note>
  {
    Find(Notes, HasName(name))
  }

  /** In a list whose display names are pairwise different, looking up the
      display name of an entry finds that entry. */
  lemma FindByDistinctName(ns: seq<Note>, i: nat)
    requires i < |ns|
    requires forall j, k :: 0 <= j < k < |ns| ==> DisplayName(ns[j]) != DisplayName(ns[k])
    ensures Find(ns, HasName(DisplayName(ns[i]))) == Some(ns[i])
  {
    var m := HasName(DisplayName(ns[i]));
    assert forall j :: 0 <= j < i ==> !m(ns[j]);
  }

  /** A clicked id is found exactly when some table entry has it, and what is
      found is a table entry with that id. */
  lemma NoteByIdFound(id: string)
    ensures NoteById(id).None? <==> forall i :: 0 <= i < |Notes| ==> Notes[i].id != id
    ensures NoteById(id).Some? ==> NoteById(id).value in Notes && NoteById(id).value.id == id
  {
  }

  /** Looking up the id of table entry `i` gives back that entry. */
  lemma NoteByIdOfTable(i: nat)
    requires i < |Notes|
    ensures NoteById(Notes[i].id) == Some(Notes[i])
  {
    TableIdsDistinct();
    var m := HasId(Notes[i].id);
    assert forall j :: 0 <= j < i ==> !m(Notes[j]);
  }

  /** Looking up a table entry's display name gives back that entry; a name
      that is no entry's display name is not found. */
  lemma NoteByNameInvertsDisplayName(name: string)
    ensures forall i :: 0 <= i < |Notes| ==> NoteByName(DisplayName(Notes[i])) == Some(Notes[i])
    ensures NoteByName(name).None? <==> forall i :: 0 <= i < |Notes| ==> DisplayName(Notes[i]) != name
    ensures NoteByName(name).Some? ==> NoteByName(name).value in Notes && DisplayName(NoteByName(name).value) == name
  {
    TableDisplayNames();
    forall i | 0 <= i < |Notes| ensures NoteByName(DisplayName(Notes[i])) == Some(Notes[i]) {
      FindByDistinctName(Notes, i);
    }
  }

  /** The label text for a list of selected names: the caption, then the
      names joined by single spaces. */
  function Render(names: seq<string>): string
  {
    Caption + Join(names, ' ')
  }

  /** `label.split('：')[1]`, which is undefined when the label has no colon. */
  function AfterColon(shown: string): Option<string>
  {
    var parts := Split(shown, Colon);
    if |parts| >= 2 then Some(parts[1]) else None
  }

  /** `label.split('：')[1] || ''`, the selection text `selectCurrentNote` reads. */
  function LockedText(shown: string): string
  {
    match AfterColon(shown)
    case Some(text) => text
    case None => ""
  }

  /** The label is split on the colon: `[1]` is undefined exactly when the
      label has no colon, and otherwise it is the text after the first colon
      (the one ending the colon-free text `w`) up to the next colon or the
      end. */
  lemma AfterColonPiece(shown: string)
    ensures AfterColon(shown).None? <==> Colon !in shown
    ensures Colon !in LockedText(shown)
    ensures Colon !in shown ==> LockedText(shown) == ""
    ensures Colon in shown ==>
              var w, t := Split(shown, Colon)[0], LockedText(shown);
              && AfterColon(shown) == Some(t) && Colon !in w
              && |w| + 1 + |t| <= |shown| && shown[..|w|] == w && shown[|w|] == Colon
              && shown[|w| + 1..|w| + 1 + |t|] == t
              && (|w| + 1 + |t| == |shown| || shown[|w| + 1 + |t|] == Colon)
  {
    SplitFirstPieces(shown, Colon);
  }

  /** The names `selectCurrentNote` counts and the preview plays: empty
      pieces filtered out, and nothing at all for empty or missing text. */
  function LockedNames(shown: string): (names: seq<string>)
    ensures forall i :: 0 <= i < |names| ==> names[i] != "" && ' ' !in names[i]
    ensures LockedText(shown) == "" ==> names == []
    ensures multiset(names) == multiset(Split(LockedText(shown), ' '))["" := 0]
  {
    var text := LockedText(shown);
    var names := if text == "" then [] else NonEmpty(Split(text, ' '));
    NonEmptyCounts(Split(text, ' '));
    assert forall i :: 0 <= i < |names| ==> ' ' !in names[i] by {
      forall i | 0 <= i < |names| ensures ' ' !in names[i] {
        var parts := Split(text, ' ');
        var j :| 0 <= j < |parts| && parts[j] == names[i];
      }
    }
    names
  }

  /** The names `checkAnswer` grades: the text after the colon split on
      spaces WITHOUT the filter, or nothing when `[1]` is undefined (a throw). */
  function SubmittedNames(shown: string): (r: Option<seq<string>>)
    ensures r.None? <==> Colon !in shown
    ensures r.Some? ==> |r.value| >= 1 && Join(r.value, ' ') == LockedText(shown)
    ensures r.Some? ==> forall i :: 0 <= i < |r.value| ==> ' ' !in r.value[i]
  {
    AfterColonPiece(shown);
    match AfterColon(shown)
    case Some(text) => Some(Split(text, ' '))
    case None => None
  }

  /** `currentNotes ? currentNotes + ' ' + name : name`. */
  function Appended(text: string, name: string): (r: string)
    ensures ' ' !in name ==> Split(r, ' ') == (if text == "" then [] else Split(text, ' ')) + [name]
  {
    if text == "" then
      AppendedWord(text, name);
      name
    else
      AppendedWord(text, name);
      text + " " + name
  }

  /** A word without a space, appended after a space, becomes one more piece
      of the split. */
  lemma AppendedWord(text: string, name: string)
    ensures ' ' !in name ==> Split(name, ' ') == [name]
    ensures ' ' !in name ==> Split(text + " " + name, ' ') == Split(text, ' ') + [name]
  {
    if ' ' !in name {
      SplitWithoutSeparator(name, ' ');
      var parts := Split(text, ' ') + [name];
      JoinSnoc(Split(text, ' '), name, ' ');
      assert text + " " + name == Join(parts, ' ');
      SplitJoin(parts, ' ');
    }
  }

  /** The caption holds exactly one colon, at its end. */
  lemma CaptionShape()
    ensures Caption == Caption[..|Caption| - 1] + [Colon]
    ensures Colon !in Caption[..|Caption| - 1]
  {
  }

  /** Label round trip: rendering plain names and parsing the label back gives
      exactly those names to `selectCurrentNote`, and to `checkAnswer` too
      except that an empty list comes back as one empty name. */
  lemma {:induction false} LabelRoundTrip(names: seq<string>)
    requires forall i :: 0 <= i < |names| ==> IsPlainName(names[i])
    ensures AfterColon(Render(names)) == Some(Join(names, ' '))
    ensures LockedText(Render(names)) == Join(names, ' ')
    ensures LockedNames(Render(names)) == names
    ensures SubmittedNames(Render(names)) == Some(if names == [] then [""] else names)
  {
    var joined := Join(names, ' ');
    JoinHasNoColon(names);
    CaptionShape();
    var head := Caption[..|Caption| - 1];
    assert Render(names) == head + [Colon] + joined;
    SplitAfterPiece(head, joined, Colon);
    SplitWithoutSeparator(joined, Colon);
    assert AfterColon(Render(names)) == Some(joined);
    if names == [] {
      assert joined == "";
    } else {
      SplitJoin(names, ' ');
      JoinOfNamesNotEmpty(names);
      assert NonEmpty(Split(joined, ' ')) == names;
    }
  }

  /** Names without a colon join into text without a colon. */
  lemma {:induction false} JoinHasNoColon(names: seq<string>)
    requires forall i :: 0 <= i < |names| ==> IsPlainName(names[i])
    ensures Colon !in Join(names, ' ')
  {
    if |names| > 1 {
      JoinHasNoColon(names[1..]);
    }
  }

  /** Joining at least one non-empty name gives non-empty text. */
  lemma JoinOfNamesNotEmpty(names: seq<string>)
    requires |names| >= 1 && names[0] != ""
    ensures Join(names, ' ') != ""
  {
  }

  /** What "select" writes after a selection that renders as `names` is the
      rendering of `names` with `name` at the end. */
  lemma {:induction false} AppendRenders(names: seq<string>, name: string)
    requires forall i :: 0 <= i < |names| ==> IsPlainName(names[i])
    ensures Caption + Appended(LockedText(Render(names)), name) == Render(names + [name])
  {
    LabelRoundTrip(names);
    if names == [] {
      assert names + [name] == [name];
    } else {
      JoinSnoc(names, name, ' ');
      JoinOfNamesNotEmpty(names);
    }
  }

  /** The outcome of `checkAnswer`: a throw when the label has no colon, a
      refusal when the count differs from the target's, else the verdict. */
  datatype Verdict = NoColon | CountMismatch | Correct | Wrong

  /** The comparison of `checkAnswer` on the names it parsed: a refusal when
      the counts differ, else index-wise equality with the target's display
      names. */
  function Compare(names: seq<string>, target: seq<Note>): (v: Verdict)
    ensures v != NoColon
    ensures v == CountMismatch <==> |names| != |target|
    ensures v == Correct <==> names == DisplayNames(target)
  {
    if |names| != |target| then CountMismatch
    else
      var matching := forall i :: 0 <= i < |names| ==> names[i] == DisplayName(target[i]);
      assert matching <== names == DisplayNames(target) by {
        if names == DisplayNames(target) {
          forall i | 0 <= i < |names| ensures names[i] == DisplayName(target[i]) {
            assert names[i] == DisplayNames(target)[i];
          }
        }
      }
      if matching then Correct else Wrong
  }

  /** `checkAnswer`'s verdict on the label's text. */
  function Grade(shown: string, target: seq<Note>): (v: Verdict)
    ensures v == NoColon <==> Colon !in shown
    ensures v != NoColon ==> (v == CountMismatch <==> |SubmittedNames(shown).value| != |target|)
    ensures v != NoColon ==> (v == Correct <==> SubmittedNames(shown).value == DisplayNames(target))
  {
    match SubmittedNames(shown)
    case None => NoColon
    case Some(names) => Compare(names, target)
  }

  /** Grading a rendered label never throws. With at least one name it is
      refused exactly when the counts differ and right exactly when the names
      are the target's display names in order. */
  lemma GradeRendered(names: seq<string>, target: seq<Note>)
    requires forall i :: 0 <= i < |names| ==> IsPlainName(names[i])
    ensures Grade(Render(names), target) != NoColon
    ensures names != [] ==> Grade(Render(names), target) == Compare(names, target)
    ensures names != [] ==> (Grade(Render(names), target) == CountMismatch <==> |names| != |target|)
    ensures names != [] ==> (Grade(Render(names), target) == Correct <==> names == DisplayNames(target))
  {
    LabelRoundTrip(names);
  }

  /** An empty label is graded as ONE empty name: against a one-note target
      it reaches the comparison and is wrong, against any other it is
      refused. */
  lemma GradeEmptyLabel(target: seq<Note>)
    requires forall n :: n in target ==> n in Notes
    ensures Grade(Render([]), target) == if |target| == 1 then Wrong else CountMismatch
  {
    LabelRoundTrip([]);
    if |target| == 1 {
      TableNote(target[0]);
    }
  }

  /** A right answer names the target: its names look up to the target
      notes themselves. */
  lemma RightAnswerNamesTarget(names: seq<string>, target: seq<Note>)
    requires forall i :: 0 <= i < |names| ==> IsPlainName(names[i])
    requires forall n :: n in target ==> n in Notes
    requires Grade(Render(names), target) == Correct
    ensures names == DisplayNames(target) && PlayableNotes(names) == target
  {
    LabelRoundTrip(names);
    if names == [] {
      GradeEmptyLabel(target);
    }
    PlayableDisplayNames(target);
  }

  /** A found note as a one-note list, nothing as the empty list. */
  function AsSeq(r: Option<Note>): seq<Note>
  {
    match r
    case Some(n) => [n]
    case None => []
  }

  /** `names.map(look)` with the names `look` does not find left out. */
  function Found(names: seq<string>, look: string -> Option<Note>): (r: seq<Note>)
    ensures |r| <= |names|
  {
    if names == [] then [] else AsSeq(look(names[0])) + Found(names[1..], look)
  }

  /** Looking names up distributes over concatenation. */
  lemma {:induction false} FoundAppend(a: seq<string>, b: seq<string>, look: string -> Option<Note>)
    ensures Found(a + b, look) == Found(a, look) + Found(b, look)
  {
    if a != [] {
      assert (a + b)[0] == a[0] && (a + b)[1..] == a[1..] + b;
      FoundAppend(a[1..], b, look);
      var x := AsSeq(look(a[0]));
      assert x + (Found(a[1..], look) + Found(b, look)) == (x + Found(a[1..], look)) + Found(b, look);
    } else {
      assert a + b == b;
    }
  }

  /** A note is found exactly when some name looks up to it. */
  lemma {:induction false} FoundMembers(names: seq<string>, look: string -> Option<Note>)
    ensures forall n :: n in Found(names, look) <==> exists i :: 0 <= i < |names| && look(names[i]) == Some(n)
  {
    if names != [] {
      FoundMembers(names[1..], look);
      assert forall i :: 1 <= i < |names| ==> names[1..][i - 1] == names[i];
      forall n | exists i :: 0 <= i < |names| && look(names[i]) == Some(n)
        ensures n in Found(names, look)
      {
        var i :| 0 <= i < |names| && look(names[i]) == Some(n);
        if i > 0 {
          assert look(names[1..][i - 1]) == Some(n);
        }
      }
    }
  }

  /** The notes the preview plays for a list of names: each name looked up in
      the table, and a name not found silently skipped. */
  function PlayableNotes(names: seq<string>): (r: seq<Note>)
    ensures |r| <= |names|
    ensures forall n :: n in r ==> n in Notes
  {
    var r := Found(names, NoteByName);
    FoundMembers(names, NoteByName);
    r
  }

  /** A table note has a plain display name, which looks up to that note. */
  lemma TableNote(n: Note)
    requires n in Notes
    ensures IsPlainName(DisplayName(n)) && NoteByName(DisplayName(n)) == Some(n)
  {
    TableDisplayNames();
    NoteByNameInvertsDisplayName("");
    var k :| 0 <= k < |Notes| && Notes[k] == n;
  }

  /** The preview inverts the display names: the names of table notes play
      back exactly those notes. */
  lemma {:induction false} PlayableDisplayNames(ns: seq<Note>)
    requires forall n :: n in ns ==> n in Notes
    ensures PlayableNotes(DisplayNames(ns)) == ns
  {
    if ns != [] {
      var names := DisplayNames(ns);
      assert names[1..] == DisplayNames(ns[1..]);
      TableNote(ns[0]);
      PlayableCons(names);
      PlayableDisplayNames(ns[1..]);
      assert [ns[0]] + ns[1..] == ns;
    }
  }

  /** The first name contributes what it plays, in front. */
  lemma PlayableCons(names: seq<string>)
    requires names != []
    ensures PlayableNotes(names) == AsSeq(NoteByName(names[0])) + PlayableNotes(names[1..])
  {
  }

  /** A name the table does not know plays nothing. */
  lemma PlayableSkipsUnknown(name: string, rest: seq<string>)
    ensures NoteByName(name).None? ==> PlayableNotes([name] + rest) == PlayableNotes(rest)
  {
    PlayableCons([name] + rest);
    assert ([name] + rest)[1..] == rest;
  }

  /** The preview plays the names in order: playing a concatenation plays
      the two parts one after the other. */
  lemma PlayableAppend(a: seq<string>, b: seq<string>)
    ensures PlayableNotes(a + b) == PlayableNotes(a) + PlayableNotes(b)
  {
    FoundAppend(a, b, NoteByName);
  }

  /** A note is played exactly when some name in the list looks up to it. */
  lemma PlayableMembers(names: seq<string>)
    ensures forall n :: n in PlayableNotes(names) <==> exists i :: 0 <= i < |names| && NoteByName(names[i]) == Some(n)
  {
    FoundMembers(names, NoteByName);
  }

  /** Different table notes are shown differently, so a list of table notes
      is determined by its display names. */
  lemma {:induction false} DisplayNamesDetermineNotes(a: seq<Note>, b: seq<Note>)
    requires forall n :: n in a ==> n in Notes
    requires forall n :: n in b ==> n in Notes
    ensures DisplayNames(a) == DisplayNames(b) <==> a == b
  {
    if DisplayNames(a) == DisplayNames(b) {
      PlayableDisplayNames(a);
      PlayableDisplayNames(b);
    }
  }

  /** The display names of table notes are plain names. */
  lemma {:induction false} TableNamesArePlain(ns: seq<Note>)
    requires forall n :: n in ns ==> n in Notes
    ensures forall i :: 0 <= i < |ns| ==> IsPlainName(DisplayNames(ns)[i])
  {
    forall i | 0 <= i < |ns| ensures IsPlainName(DisplayNames(ns)[i]) {
      TableNote(ns[i]);
    }
  }

  /** The label of a selection of table notes parses back to their names:
      `selectCurrentNote` counts one name per note, `checkAnswer` gets the
      same names (one empty name for no notes), and the preview plays the
      notes themselves. */
  lemma SelectionLabel(selection: seq<Note>)
    requires forall n :: n in selection ==> n in Notes
    ensures LockedNames(Render(DisplayNames(selection))) == DisplayNames(selection)
    ensures |LockedNames(Render(DisplayNames(selection)))| == |selection|
    ensures SubmittedNames(Render(DisplayNames(selection))) ==
              Some(if selection == [] then [""] else DisplayNames(selection))
    ensures PlayableNotes(LockedNames(Render(DisplayNames(selection)))) == selection
  {
    TableNamesArePlain(selection);
    LabelRoundTrip(DisplayNames(selection));
    PlayableDisplayNames(selection);
  }

  /** The count `selectCurrentNote` takes from the label of a selection is
      the length of the selection. */
  lemma SelectedCountOfLabel(selection: seq<Note>)
    requires forall n :: n in selection ==> n in Notes
    ensures var text := LockedText(Render(DisplayNames(selection)));
            (if text != "" then |NonEmpty(Split(text, ' '))| else 0) == |selection|
  {
    SelectionLabel(selection);
  }

  /** Appending a table note's display name to the label of a selection gives
      the label of the selection with that note at the end. */
  lemma AppendToSelection(selection: seq<Note>, note: Note)
    requires forall n :: n in selection ==> n in Notes
    requires note in Notes
    ensures Caption + Appended(LockedText(Render(DisplayNames(selection))), DisplayName(note))
            == Render(DisplayNames(selection + [note]))
  {
    TableNamesArePlain(selection);
    AppendRenders(DisplayNames(selection), DisplayName(note));
    assert DisplayNames(selection + [note]) == DisplayNames(selection) + [DisplayName(note)];
  }

  /** `checkAnswer`'s verdict on the label of a selection of table notes:
      never a throw; for a non-empty selection a refusal exactly when the
      counts differ and right exactly when the selection is the target; for
      an empty one wrong against a one-note target, else refused. */
  lemma GradeSelection(selection: seq<Note>, target: seq<Note>)
    requires forall n :: n in selection ==> n in Notes
    requires forall n :: n in target ==> n in Notes
    ensures Grade(Render(DisplayNames(selection)), target) != NoColon
    ensures selection != [] ==>
              (Grade(Render(DisplayNames(selection)), target) == CountMismatch <==> |selection| != |target|)
    ensures selection != [] ==>
              (Grade(Render(DisplayNames(selection)), target) == Correct <==> selection == target)
    ensures selection == [] ==>
              Grade(Render(DisplayNames(selection)), target) == if |target| == 1 then Wrong else CountMismatch
  {
    TableNamesArePlain(selection);
    GradeRendered(DisplayNames(selection), target);
    DisplayNamesDetermineNotes(selection, target);
    if selection == [] {
      GradeEmptyLabel(target);
    }
  }

  /** The module-level state of main.js. `lockedNotes` is the text of the
      locked-notes label, which serves as the store of the selection; the
      ghost `selection` is the list of notes that text shows. */
  class Game {
    var currentSequence: seq<Note>
    var playerSequence: seq<Note>
    var isPlaying: bool
    var canSelect: bool
    var canPlay: bool
    var selectedNoteCount: nat
    var playCount: nat
    var correctStreak: nat
    var lockedNotes: string
    ghost var selection: seq<Note>
    /** A round's first playback has started and its continuation, which
        opens selection, has not run yet. */
    ghost var roundPending: bool

    /** The count is one of the selector's options, all notes come from the
        table, the player's note is at most one, the selection is never longer
        than the target, and the label shows the display names of the
        selection. */
    ghost predicate Valid()
      reads this`selectedNoteCount, this`currentSequence, this`playerSequence, this`selection, this`lockedNotes
    {
      && 1 <= selectedNoteCount <= 8
      && (forall n :: n in currentSequence ==> n in Notes)
      && (forall n :: n in playerSequence ==> n in Notes)
      && |playerSequence| <= 1
      && (forall n :: n in selection ==> n in Notes)
      && |selection| <= |currentSequence|
      && lockedNotes == Render(DisplayNames(selection))
    }

    /** The initial values of the state variables, with the label showing the
        bare caption. */
    constructor ()
      ensures Valid()
      ensures currentSequence == [] && playerSequence == [] && !isPlaying && !canSelect && canPlay
      ensures selectedNoteCount == 1 && playCount == 0 && correctStreak == 0
      ensures selection == [] && lockedNotes == Caption && !roundPending
    {
      currentSequence, playerSequence := [], [];
      isPlaying, canSelect, canPlay := false, false, true;
      selectedNoteCount, playCount, correctStreak := 1, 0, 0;
      lockedNotes := Caption;
      selection := [];
      roundPending := false;
    }

    /** The note-count selector's handler: a new count (one of the options
        1..8) and a zero streak; the current sequence is untouched. */
    method NoteCountChanged(count: nat)
      requires Valid() && 1 <= count <= 8
      modifies this`selectedNoteCount, this`correctStreak
      ensures Valid() && selectedNoteCount == count && correctStreak == 0
    {
      selectedNoteCount := count;
      correctStreak := 0;
    }

    /** `generateSequence`: `selectedNoteCount` table entries, drawn by index. */
    method GenerateSequence(draws: seq<NoteIndex>)
      requires selectedNoteCount <= |draws|
      modifies this`currentSequence
      ensures |currentSequence| == selectedNoteCount
      ensures forall i :: 0 <= i < selectedNoteCount ==> currentSequence[i] == Notes[draws[i]]
    {
      currentSequence := [];
      for i := 0 to selectedNoteCount
        invariant |currentSequence| == i
        invariant forall j :: 0 <= j < i ==> currentSequence[j] == Notes[draws[j]]
      {
        currentSequence := currentSequence + [Notes[draws[i]]];
      }
    }

    /** The state part of `handleKeyClick`: ignored while a playback runs or
        when the key's `data-note` is no table id; otherwise the player's
        sequence is REPLACED by the one clicked note. */
    method HandleKeyClick(dataNote: string)
      requires Valid()
      modifies this`playerSequence
      ensures Valid()
      ensures if !isPlaying && NoteById(dataNote).Some?
              then playerSequence == [NoteById(dataNote).value] && playerSequence[0].id == dataNote
              else playerSequence == old(playerSequence)
    {
      if isPlaying {
        return;
      }
      var note := NoteById(dataNote);
      if note.Some? {
        playerSequence := [];
        playerSequence := playerSequence + [note.value];
      }
    }

    /** `selectCurrentNote`, also the select button's handler (which checks
        the same `canSelect`): nothing unless `canSelect`; a selection as long
        as the target is reset to the empty list; with no clicked note nothing
        changes; otherwise exactly the clicked note is appended (its display
        name to the label) and the clicked note is consumed. */
    method SelectCurrentNote()
      requires Valid()
      modifies this`lockedNotes, this`playerSequence, this`selection
      ensures Valid()
      ensures !old(canSelect) ==>
                selection == old(selection) && lockedNotes == old(lockedNotes) && playerSequence == old(playerSequence)
      ensures old(canSelect) && |old(selection)| == |currentSequence| ==>
                selection == [] && lockedNotes == Caption && playerSequence == old(playerSequence)
      ensures old(canSelect) && |old(selection)| != |currentSequence| && old(playerSequence) == [] ==>
                selection == old(selection) && lockedNotes == old(lockedNotes) && playerSequence == []
      ensures old(canSelect) && |old(selection)| != |currentSequence| && old(playerSequence) != [] ==>
                selection == old(selection) + [old(playerSequence)[0]] && playerSequence == []
    {
      if !canSelect {
        return;
      }
      var currentNotes := LockedText(lockedNotes);
      var selectedCount := if currentNotes != "" then |NonEmpty(Split(currentNotes, ' '))| else 0;
      assert selectedCount == |selection| by {
        SelectedCountOfLabel(selection);
      }
      if selectedCount == |currentSequence| {
        lockedNotes := Caption;
        selection := [];
        return;
      }
      if |playerSequence| == 0 {
        return;
      }
      var selectedNote := playerSequence[0];
      var updatedNotes := Appended(currentNotes, DisplayName(selectedNote));
      assert Caption + updatedNotes == Render(DisplayNames(selection + [selectedNote])) by {
        AppendToSelection(selection, selectedNote);
      }
      lockedNotes := Caption + updatedNotes;
      playerSequence := [];
      selection := selection + [selectedNote];
    }

    /** `checkAnswer`, the submit button's handler: the verdict is `Grade` of
        the label against the target; with a non-empty selection it is
        refused exactly when the counts differ and right exactly when the
        selection IS the target. A refused count changes nothing. A right
        answer adds one to the streak and lets the play button start a new
        round; a wrong one zeroes the streak, re-opens selection and empties
        the label. Both consume the clicked note. The label always has its
        colon, so the throw of `[1]` being undefined never happens. */
    method CheckAnswer() returns (v: Verdict)
      requires Valid()
      modifies this`correctStreak, this`canPlay, this`canSelect, this`lockedNotes, this`playerSequence, this`selection
      ensures Valid()
      ensures v == Grade(old(lockedNotes), currentSequence) && v != NoColon
      ensures old(selection) != [] ==> (v == CountMismatch <==> |old(selection)| != |currentSequence|)
      ensures old(selection) != [] ==> (v == Correct <==> old(selection) == currentSequence)
      ensures old(selection) == [] ==> v == if |currentSequence| == 1 then Wrong else CountMismatch
      ensures v == CountMismatch ==>
                && correctStreak == old(correctStreak) && canPlay == old(canPlay) && canSelect == old(canSelect)
                && selection == old(selection) && lockedNotes == old(lockedNotes) && playerSequence == old(playerSequence)
      ensures v == Correct ==>
                && correctStreak == old(correctStreak) + 1 && canPlay && canSelect == old(canSelect)
                && selection == old(selection) && lockedNotes == old(lockedNotes) && playerSequence == []
      ensures v == Wrong ==>
                && correctStreak == 0 && canPlay == old(canPlay) && canSelect
                && selection == [] && lockedNotes == Caption && playerSequence == []
    {
      GradeSelection(selection, currentSequence);
      v := Grade(lockedNotes, currentSequence);
      ApplyVerdict(v);
    }

    /** The effect of a verdict on the state, the branches of `checkAnswer`
        after the comparison. */
    method ApplyVerdict(v: Verdict)
      requires Valid()
      modifies this`correctStreak, this`canPlay, this`canSelect, this`lockedNotes, this`playerSequence, this`selection
      ensures Valid()
      ensures !(v == Correct || v == Wrong) ==>
                && correctStreak == old(correctStreak) && canPlay == old(canPlay) && canSelect == old(canSelect)
                && selection == old(selection) && lockedNotes == old(lockedNotes) && playerSequence == old(playerSequence)
      ensures v == Correct ==>
                && correctStreak == old(correctStreak) + 1 && canPlay && canSelect == old(canSelect)
                && selection == old(selection) && lockedNotes == old(lockedNotes) && playerSequence == []
      ensures v == Wrong ==>
                && correctStreak == 0 && canPlay == old(canPlay) && canSelect
                && selection == [] && lockedNotes == Caption && playerSequence == []
    {
      if v == Correct {
        correctStreak := correctStreak + 1;
        canPlay := true;
        playerSequence := [];
      } else if v == Wrong {
        correctStreak := 0;
        canSelect := true;
        lockedNotes := Caption;
        selection := [];
        playerSequence := [];
      }
    }

    /** The play button's handler. While a round is open (`canPlay` false) it
        replays the same sequence, adds one to `playCount` and reports the
        limit once the count reaches 3. Otherwise it starts a new round: a zero
        count, a fresh sequence of `selectedNoteCount` notes, no clicked note,
        an empty label, selection closed until the playback ends, and the
        round open. Either way a non-empty sequence starts playing. */
    method PlayClicked(draws: seq<NoteIndex>) returns (limitReached: bool)
      requires Valid() && selectedNoteCount <= |draws|
      modifies this
      ensures Valid()
      ensures !canPlay && selectedNoteCount == old(selectedNoteCount) && correctStreak == old(correctStreak)
      ensures !old(canPlay) ==>
                && playCount == old(playCount) + 1 && limitReached == (playCount >= 3)
                && currentSequence == old(currentSequence) && playerSequence == old(playerSequence)
                && canSelect == old(canSelect) && selection == old(selection) && lockedNotes == old(lockedNotes)
                && isPlaying == (|currentSequence| > 0) && roundPending == old(roundPending)
      ensures old(canPlay) ==>
                && playCount == 0 && !limitReached
                && |currentSequence| == selectedNoteCount
                && (forall i :: 0 <= i < selectedNoteCount ==> currentSequence[i] == Notes[draws[i]])
                && playerSequence == [] && !canSelect && selection == [] && lockedNotes == Caption && isPlaying
                && roundPending
    {
      if !canPlay {
        playCount := playCount + 1;
        isPlaying := |currentSequence| > 0;
        limitReached := playCount >= 3;
        if playCount >= 3 {
          canPlay := false;
        }
        return;
      }
      playCount := 0;
      GenerateSequence(draws);
      playerSequence := [];
      canSelect := false;
      lockedNotes := Caption;
      selection := [];
      canPlay := false;
      isPlaying := |currentSequence| > 0;
      roundPending := true;
      limitReached := false;
    }

    /** The end of a sequence playback: `isPlaying` drops, and when it is the
        playback that started the pending round its continuation opens
        selection. Only a round's first playback can be that one. */
    method PlaybackEnded(startedRound: bool)
      requires Valid() && (startedRound ==> roundPending)
      modifies this`isPlaying, this`canSelect, this`roundPending
      ensures Valid() && !isPlaying
      ensures canSelect == (old(canSelect) || startedRound)
      ensures roundPending == (old(roundPending) && !startedRound)
    {
      isPlaying := false;
      if startedRound {
        canSelect := true;
        roundPending := false;
      }
    }

    /** The preview button's handler (`playSelectedNotes`): ignored while a
        playback runs; otherwise it plays the notes whose display names the
        label holds (an unknown name would be skipped), which are exactly the
        selected notes, and is playing afterwards exactly when there are any. */
    method PreviewClicked() returns (played: seq<Note>)
      requires Valid()
      modifies this`isPlaying
      ensures Valid()
      ensures old(isPlaying) ==> played == [] && isPlaying
      ensures !old(isPlaying) ==> played == PlayableNotes(LockedNames(lockedNotes)) && isPlaying == (played != [])
      ensures !old(isPlaying) ==> played == selection
    {
      played := [];
      if isPlaying {
        return;
      }
      var noteArray := LockedNames(lockedNotes);
      played := PlayableNotes(noteArray);
      assert played == selection by {
        SelectionLabel(selection);
      }
      isPlaying := played != [];
    }
  }

  /** Scenario step: a new round on a fresh `draws` once the play button may
      start one, with its playback run to the end. */
  method StartRound(g: Game, draws: seq<NoteIndex>)
    requires g.Valid() && g.canPlay && 1 <= g.selectedNoteCount <= |draws|
    modifies g
    ensures g.Valid() && !g.isPlaying && g.canSelect && !g.canPlay
    ensures g.selection == [] && g.playerSequence == [] && g.playCount == 0
    ensures g.selectedNoteCount == old(g.selectedNoteCount) && g.correctStreak == old(g.correctStreak)
    ensures |g.currentSequence| == g.selectedNoteCount
    ensures forall i :: 0 <= i < g.selectedNoteCount ==> g.currentSequence[i] == Notes[draws[i]]
  {
    var limit := g.PlayClicked(draws);
    g.PlaybackEnded(true);
  }

  /** Scenario step: a click on table key `k` while nothing plays, then
      "select" on a selection shorter than the target, which appends note `k`. */
  method ClickAndSelect(g: Game, k: NoteIndex)
    requires g.Valid() && !g.isPlaying && g.canSelect && |g.selection| < |g.currentSequence|
    modifies g`playerSequence, g`lockedNotes, g`selection
    ensures g.Valid() && g.selection == old(g.selection) + [Notes[k]] && g.playerSequence == []
  {
    NoteByIdOfTable(k);
    g.HandleKeyClick(Notes[k].id);
    assert g.playerSequence == [Notes[k]] && g.selection == old(g.selection);
    assert g.canSelect && |g.selection| != |g.currentSequence|;
    ghost var clicked := g.playerSequence;
    g.SelectCurrentNote();
    assert g.selection == old(g.selection) + [clicked[0]];
  }

  /** Scenario step: "submit" on a selection as long as the target, which is
      right exactly when the selection is the target. */
  method SubmitFull(g: Game) returns (v: Verdict)
    requires g.Valid() && |g.selection| == |g.currentSequence| > 0
    modifies g`correctStreak, g`canPlay, g`canSelect, g`lockedNotes, g`playerSequence, g`selection
    ensures g.Valid()
    ensures v == if old(g.selection) == g.currentSequence then Correct else Wrong
    ensures v == Correct ==> g.correctStreak == old(g.correctStreak) + 1 && g.canPlay
    ensures v == Wrong ==> g.correctStreak == 0 && g.canSelect && g.lockedNotes == Caption
  {
    v := g.CheckAnswer();
  }

  /** Two notes: the target D, A selected in that order is right, the streak
      becomes one and the play button may start a new round. */
  method OrderedRoundScenario() returns (v: Verdict, streak: nat, newRoundAllowed: bool)
    ensures v == Correct && streak == 1 && newRoundAllowed
  {
    var g := new Game();
    g.NoteCountChanged(2);
    StartRound(g, [2, 9]);
    ClickAndSelect(g, 2);
    ClickAndSelect(g, 9);
    assert g.selection == g.currentSequence;
    v := SubmitFull(g);
    streak, newRoundAllowed := g.correctStreak, g.canPlay;
  }

  /** The same target selected as A, D is wrong: the streak drops to zero,
      the label is emptied and selection stays open for a retry. */
  method WrongOrderScenario() returns (v: Verdict, streak: nat, shown: string, selecting: bool)
    ensures v == Wrong && streak == 0 && shown == Caption && selecting
  {
    var g := new Game();
    g.NoteCountChanged(2);
    StartRound(g, [2, 9]);
    ClickAndSelect(g, 9);
    ClickAndSelect(g, 2);
    assert g.selection[1] == Notes[2] && g.currentSequence[1] == Notes[9];
    assert Notes[2] != Notes[9] by {
      TableIdsDistinct();
    }
    v := SubmitFull(g);
    streak, shown, selecting := g.correctStreak, g.lockedNotes, g.canSelect;
  }

  /** Submitting an empty label against a one-note target is graded as one
      empty name: wrong, and the streak is lost. */
  method EmptyLabelScenario() returns (v: Verdict, streak: nat)
    ensures v == Wrong && streak == 0
  {
    var g := new Game();
    var limit := g.PlayClicked([5]);
    g.PlaybackEnded(true);
    v := g.CheckAnswer();
    streak := g.correctStreak;
  }

  /** Replays of an open round count up and report the limit from the third
      one on; the sequence stays the same. */
  method ReplayScenario() returns (first: bool, second: bool, third: bool, count: nat, same: bool)
    ensures !first && !second && third && count == 3 && same
  {
    var g := new Game();
    var start := g.PlayClicked([7]);
    var target := g.currentSequence;
    g.PlaybackEnded(true);
    first := g.PlayClicked([0]);
    g.PlaybackEnded(false);
    second := g.PlayClicked([0]);
    g.PlaybackEnded(false);
    third := g.PlayClicked([0]);
    count, same := g.playCount, g.currentSequence == target;
  }

  /** "Select" on a selection as long as the target empties it: after E is
      selected for a one-note target, the next "select" shows the bare
      caption again. */
  method FullSelectionScenario() returns (before: string, after: string)
    ensures before == Caption + "E" && after == Caption
  {
    var g := new Game();
    StartRound(g, [9]);
    assert |g.currentSequence| == 1;
    ClickAndSelect(g, 4);
    before := g.lockedNotes;
    ghost var selected := g.selection;
    assert |selected| == |g.currentSequence| && g.canSelect;
    g.SelectCurrentNote();
    after := g.lockedNotes;
    assert before == Caption + "E" by {
      assert selected == [Notes[4]] && before == Render(DisplayNames(selected));
      assert DisplayName(Notes[4]) == "E" by {
        DisplayNameOfOctaveFour("E");
        assert Notes[4] == Note("E" + "4");
      }
      assert DisplayNames(selected) == ["E"];
      assert Join(["E"], ' ') == "E";
    }
  }
}
