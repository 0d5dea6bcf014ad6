/**
 * The state update of `annotate` (src/annotator.ts): the mirror is split into lines and
 * separators, the state digit of every line of every selection is replaced by the new state,
 * and the pieces are joined again. The editor (its selections, the cursor move, rendering) and
 * the write of the new mirror are left out: the selections are a parameter, and the method
 * returns the text it would write and whether it would move the cursor.
 */
module SelectionUpdate {
  import opened Wrappers
  import opened MirrorText
  import opened Mirror

  /** A selection as its first and last line, both inclusive. */
  datatype Selection = Selection(startLine: nat, endLine: nat)

  /** Every line the selection covers is one of the `lineCount` lines of the file. */
  predicate Within(sel: Selection, lineCount: nat) {
    sel.startLine <= sel.endLine ==> sel.endLine < lineCount
  }

  predicate Selected(selections: seq<Selection>, line: nat) {
    exists j :: 0 <= j < |selections| && selections[j].startLine <= line <= selections[j].endLine
  }

  /** `isSingleLineSelected`: after a command on exactly one single-line selection the editor
      moves the cursor one line down. */
  function IsSingleLineSelected(selections: seq<Selection>): (r: bool)
    ensures r ==> |selections| == 1 && forall line: nat :: Selected(selections, line) <==> line == selections[0].startLine
  {
    |selections| == 1 && selections[0].startLine == selections[0].endLine
  }

  /** The cursor moves exactly when there is one selection and it covers exactly one line. */
  lemma SingleLineExactly(selections: seq<Selection>)
    ensures IsSingleLineSelected(selections) <==>
      |selections| == 1 && forall line: nat :: Selected(selections, line) <==> line == selections[0].startLine
  {
    if |selections| == 1 && forall line: nat :: Selected(selections, line) <==> line == selections[0].startLine {
      var sel := selections[0];
      assert Selected(selections, sel.startLine);
      assert sel.startLine <= sel.endLine;
      assert Selected(selections, sel.endLine);
    }
  }

  /** `line.replace(/\d?$/, String(state))`: the line's trailing digit, if any, is replaced by
      the state's digit, and one is appended otherwise. Todo (0) is written as `0`. */
  function SetLineState(line: string, state: Digit): (r: string)
    ensures StripLine(r) == StripLine(line) && LastDigit(r) == [state]
    ensures StripText(r) == StripText(line)
  {
    StripAppendedDigit(StripLine(line), state);
    StripSetLine(line, state);
    StripLine(line) + [DigitChar(state)]
  }

  /** Setting the digit of a line changes nothing that `replace(/\d$/gm, '')` keeps: the old
      digit and the new one are both dropped, and they are the only characters that change. */
  lemma StripSetLine(line: string, state: Digit)
    ensures StripText(StripLine(line) + [DigitChar(state)]) == StripText(line)
  {
    if EndsWithDigit(line) {
      assert line == StripLine(line) + [line[|line| - 1]];
      StripLastDigitSwap(StripLine(line), DigitChar(state), line[|line| - 1]);
    } else {
      StripAppendDigit(line, DigitChar(state));
    }
  }

  /** The pieces after the update: the content of every selected line gets the new state. */
  function UpdatePieces(p: seq<string>, selections: seq<Selection>, state: Digit): (u: seq<string>)
    ensures |u| == |p|
  {
    seq(|p|, k requires 0 <= k < |p| =>
      if k % 2 == 0 && Selected(selections, k / 2) then SetLineState(p[k], state) else p[k])
  }

  /** The new mirror text: split, update, join. */
  function Update(file: string, selections: seq<Selection>, state: Digit): (r: string)
    ensures Split(r) == UpdatePieces(Split(file), selections, state)
  {
    SplitWellFormed(file);
    UpdatePiecesWellFormed(Split(file), selections, state);
    SplitJoin(UpdatePieces(Split(file), selections, state));
    Join(UpdatePieces(Split(file), selections, state))
  }

  /** The same update on a dense state sequence: every selected line gets the new state. */
  function SetStates(states: seq<Digit>, selections: seq<Selection>, state: Digit): (r: seq<Digit>)
    ensures |r| == |states|
  {
    seq(|states|, i requires 0 <= i < |states| => if Selected(selections, i) then state else states[i])
  }

  // ---------------------------------------------------------------------------------------
  // One line
  // ---------------------------------------------------------------------------------------

  /** Setting a state keeps the line's content (what the staleness check compares) and makes
      the line end in the new state's digit; a second setting overrides the first. */
  lemma SetLineStateFacts(line: string, first: Digit, second: Digit)
    ensures StripLine(SetLineState(line, first)) == StripLine(line)
    ensures LastDigit(SetLineState(line, first)) == [first]
    ensures SetLineState(SetLineState(line, first), second) == SetLineState(line, second)
  {
    StripAppendedDigit(StripLine(line), first);
  }

  lemma SetLineStateShape(line: string, state: Digit)
    requires '\n' !in line
    ensures '\n' !in SetLineState(line, state)
    ensures HasNoTerminator(line) ==> HasNoTerminator(SetLineState(line, state))
    ensures !EndsWithCR(SetLineState(line, state))
  {
    var r := SetLineState(line, state);
    assert forall i :: 0 <= i < |r| ==> r[i] == if i < |StripLine(line)| then line[i] else DigitChar(state);
  }

  // ---------------------------------------------------------------------------------------
  // Whole texts
  // ---------------------------------------------------------------------------------------

  lemma UpdatePiecesWellFormed(p: seq<string>, selections: seq<Selection>, state: Digit)
    requires WellFormed(p)
    ensures WellFormed(UpdatePieces(p, selections, state))
    ensures Clean(p) ==> Clean(UpdatePieces(p, selections, state))
  {
    var u := UpdatePieces(p, selections, state);
    forall k | 0 <= k < |p| && k % 2 == 0
      ensures '\n' !in u[k] && (HasNoTerminator(p[k]) ==> HasNoTerminator(u[k]))
      ensures u[k] == p[k] || !EndsWithCR(u[k])
    {
      assert PieceOk(p, k);
      SetLineStateShape(p[k], state);
    }
    ContentsReplaced(p, u);
  }

  /** The update rewrites only the selected lines: the new text splits into as many pieces as
      the old one, every separator and every unselected line is unchanged, and every selected
      line is its old content with the trailing digit set to the new state. */
  lemma UpdateLines(file: string, selections: seq<Selection>, state: Digit)
    ensures Split(Update(file, selections, state)) == UpdatePieces(Split(file), selections, state)
    ensures |Split(Update(file, selections, state))| == |Split(file)|
    ensures forall k :: 0 <= k < |Split(file)| && (k % 2 == 1 || !Selected(selections, k / 2)) ==>
      Split(Update(file, selections, state))[k] == Split(file)[k]
    ensures forall k :: 0 <= k < |Split(file)| && k % 2 == 0 && Selected(selections, k / 2) ==>
      StripLine(Split(Update(file, selections, state))[k]) == StripLine(Split(file)[k]) &&
      LastDigit(Split(Update(file, selections, state))[k]) == [state]
  {
    var p := Split(file);
    SplitWellFormed(file);
    UpdatePiecesWellFormed(p, selections, state);
    SplitJoin(UpdatePieces(p, selections, state));
    forall k | 0 <= k < |p| && k % 2 == 0 && Selected(selections, k / 2)
      ensures StripLine(SetLineState(p[k], state)) == StripLine(p[k])
      ensures LastDigit(SetLineState(p[k], state)) == [state]
    {
      SetLineStateFacts(p[k], state, state);
    }
  }

  /** Two updates in a row: a line selected by the second takes the second state whatever the
      first did, a line selected only by the first keeps the first state, and every other piece
      is unchanged. */
  lemma {:induction false} UpdateOverride(file: string, first: seq<Selection>, s1: Digit, second: seq<Selection>, s2: Digit)
    ensures Split(Update(Update(file, first, s1), second, s2)) ==
      seq(|Split(file)|, k requires 0 <= k < |Split(file)| =>
        if k % 2 == 1 then Split(file)[k]
        else if Selected(second, k / 2) then SetLineState(Split(file)[k], s2)
        else if Selected(first, k / 2) then SetLineState(Split(file)[k], s1)
        else Split(file)[k])
  {
    var p := Split(file);
    assert Split(Update(file, first, s1)) == UpdatePieces(p, first, s1);
    UpdatePiecesOverride(p, first, s1, second, s2);
  }

  lemma UpdatePiecesOverride(p: seq<string>, first: seq<Selection>, s1: Digit, second: seq<Selection>, s2: Digit)
    ensures UpdatePieces(UpdatePieces(p, first, s1), second, s2) ==
      seq(|p|, k requires 0 <= k < |p| =>
        if k % 2 == 1 then p[k]
        else if Selected(second, k / 2) then SetLineState(p[k], s2)
        else if Selected(first, k / 2) then SetLineState(p[k], s1)
        else p[k])
  {
    var u2 := UpdatePieces(UpdatePieces(p, first, s1), second, s2);
    var e := seq(|p|, k requires 0 <= k < |p| =>
      if k % 2 == 1 then p[k]
      else if Selected(second, k / 2) then SetLineState(p[k], s2)
      else if Selected(first, k / 2) then SetLineState(p[k], s1)
      else p[k]);
    forall k | 0 <= k < |p| ensures u2[k] == e[k] {
      if k % 2 == 0 && Selected(second, k / 2) && Selected(first, k / 2) {
        SetLineStateFacts(p[k], s1, s2);
      }
    }
    assert u2 == e;
  }

  /** Applying the same update twice gives the same text as applying it once. */
  lemma UpdateIdempotent(file: string, selections: seq<Selection>, state: Digit)
    ensures Update(Update(file, selections, state), selections, state) == Update(file, selections, state)
  {
    var once := Update(file, selections, state);
    UpdateOverride(file, selections, state, selections, state);
    UpdateLines(file, selections, state);
    JoinSplit(once);
    JoinSplit(Update(once, selections, state));
    assert Split(Update(once, selections, state)) == Split(once);
  }

  /** The update never changes what the staleness check compares, on any text: a mirror
      accepted against a source is still accepted after any update. */
  lemma UpdateKeepsContent(file: string, selections: seq<Selection>, state: Digit, source: string)
    ensures StripText(Update(file, selections, state)) == StripText(file)
    ensures LoadFile(Some(file), source).Some? ==>
      LoadFile(Some(Update(file, selections, state)), source) == Some(Update(file, selections, state))
  {
    var p := Split(file);
    var u := UpdatePieces(p, selections, state);
    SplitWellFormed(file);
    forall k | 0 <= k < |p| ensures SameStripAt(p, u, k) {
    }
    StripJoinContents(p, u);
    JoinSplit(file);
  }

  /** On a mirror written for `source`, the text update is the state update: the new mirror is
      the one written with the selected lines set to the new state, and it reads back as that
      state sequence. */
  lemma UpdateEncoded(source: string, states: seq<Digit>, selections: seq<Selection>, state: Digit)
    requires NoStray(source) && |states| == LineCount(Split(source))
    ensures Update(Encode(source, states), selections, state) == Encode(source, SetStates(states, selections, state))
    ensures LoadAnnotations(Some(Update(Encode(source, states), selections, state)), source)
      == Some(SetStates(states, selections, state))
  {
    var p := Split(source);
    var updated := SetStates(states, selections, state);
    EncodeSplit(source, states);
    SplitWellFormed(source);
    forall k | 0 <= k < |p| && k % 2 == 0 && Selected(selections, k / 2)
      ensures SetLineState(p[k] + [DigitChar(states[k / 2])], state) == p[k] + [DigitChar(state)]
    {
      StripAppendedDigit(p[k], states[k / 2]);
    }
    assert UpdatePieces(EncodePieces(p, states), selections, state) == EncodePieces(p, updated);
    RoundTrip(source, updated);
  }

  // ---------------------------------------------------------------------------------------
  // The command
  // ---------------------------------------------------------------------------------------

  /** Applying one more selection after the others is the update with all of them. */
  lemma UpdateAppend(p: seq<string>, selections: seq<Selection>, sel: Selection, state: Digit)
    ensures UpdatePieces(UpdatePieces(p, selections, state), [sel], state) == UpdatePieces(p, selections + [sel], state)
  {
    var once := UpdatePieces(p, selections, state);
    forall k | 0 <= k < |p|
      ensures UpdatePieces(once, [sel], state)[k] == UpdatePieces(p, selections + [sel], state)[k]
    {
      if k % 2 == 0 {
        SetLineStateFacts(p[k], state, state);
        SelectedAppend(selections, sel, k / 2);
      }
    }
  }

  /** With no selection nothing changes. */
  lemma UpdateNothing(p: seq<string>, state: Digit)
    ensures UpdatePieces(p, [], state) == p
  {
  }

  /** A line is selected by the selections and one more exactly when either selects it. */
  lemma SelectedAppend(selections: seq<Selection>, sel: Selection, line: nat)
    ensures Selected(selections + [sel], line) <==> Selected(selections, line) || Selected([sel], line)
  {
    var all := selections + [sel];
    if Selected(all, line) {
      var j :| 0 <= j < |all| && all[j].startLine <= line <= all[j].endLine;
      if j < |selections| {
        assert selections[j] == all[j];
      } else {
        assert [sel][0] == all[j];
      }
    }
    if Selected(selections, line) {
      var j :| 0 <= j < |selections| && selections[j].startLine <= line <= selections[j].endLine;
      assert all[j] == selections[j];
    }
    if Selected([sel], line) {
      assert all[|selections|] == sel;
    }
  }

  /** The inner loop of `annotate`: the state digit of every line of one selection is replaced
      in place; line `i` of the mirror is the piece at index `2 * i`. */
  method SetSelection(lines: array<string>, sel: Selection, state: Digit)
    requires Within(sel, LineCount(lines[..]))
    modifies lines
    ensures lines[..] == UpdatePieces(old(lines[..]), [sel], state)
  {
    var i := sel.startLine;
    while i <= sel.endLine
      invariant sel.startLine <= i && (i <= sel.endLine + 1 || i == sel.startLine)
      invariant forall k :: 0 <= k < lines.Length ==>
        lines[k] == if k % 2 == 0 && sel.startLine <= k / 2 < i then SetLineState(old(lines[k]), state) else old(lines[k])
    {
      var lineNumber := i * 2;
      lines[lineNumber] := SetLineState(lines[lineNumber], state);
      i := i + 1;
    }
    forall k | 0 <= k < lines.Length
      ensures lines[..][k] == UpdatePieces(old(lines[..]), [sel], state)[k]
    {
      assert Selected([sel], k / 2) <==> sel.startLine <= k / 2 <= sel.endLine by {
        assert [sel][0] == sel;
      }
    }
  }

  /** `annotate(state)` for an open editor. Returns the text written to the mirror (`None` when
      the command stops early: missing, stale or empty mirror), the states handed to the
      display (read back from the new text) and whether the cursor is moved one line down. */
  method Annotate(mirror: Option<string>, source: string, selections: seq<Selection>, state: Digit)
    returns (written: Option<string>, shown: Option<seq<Digit>>, moveCursor: bool)
    requires forall j :: 0 <= j < |selections| ==> Within(selections[j], LineCount(Split(source)))
    ensures written.Some? <==> LoadFile(mirror, source).Some? && mirror.value != ""
    ensures written.Some? ==> written.value == Update(mirror.value, selections, state)
    ensures shown == if written.Some? then Annotations(written) else None
    ensures moveCursor <==> written.Some? && IsSingleLineSelected(selections)
  {
    var file := LoadFile(mirror, source);
    if file.None? || file.value == "" {
      return None, None, false;
    }
    var pieces := Split(file.value);
    SameLineCount(file.value, source);
    var lines := new string[|pieces|](k requires 0 <= k < |pieces| => pieces[k]);
    assert lines[..] == pieces;
    UpdateNothing(pieces, state);
    var single := IsSingleLineSelected(selections);

    for j := 0 to |selections|
      invariant lines[..] == UpdatePieces(pieces, selections[..j], state)
    {
      SetSelection(lines, selections[j], state);
      UpdateAppend(pieces, selections[..j], selections[j], state);
      assert selections[..j + 1] == selections[..j] + [selections[j]];
    }
    assert selections[..|selections|] == selections;
    var newFile := Join(lines[..]);
    written := Some(newFile);
    shown := Annotations(written);
    moveCursor := single;
  }
}
