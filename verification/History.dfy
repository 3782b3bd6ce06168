/** Runs of editing operations, and the history that undo and redo walk along. */
module History {
  import opened Utf8
  import opened Columns
  import opened Documents
  import opened Positions
  import opened Editing
  import opened Records
  import opened ExactEdits
  import opened Pasting
  import opened Indenting

  datatype Operation =
    | CutOp
    | DeleteOp
    | BackspaceOp
    | PasteOp(clip: seq<byte>)
    | EnterOp(c: wchar, shift: bool, overwrite: bool, autoIndent: bool)
    | UndoOp(steps: nat)
    | RedoOp(steps: nat)
    | MoveOp(state: EditorState)

  /** The characters that reach EnterCharacter from the keyboard. */
  predicate Typed(c: wchar) {
    c == NEWLINE || c == TAB || c >= SPACE
  }

  predicate IndentsLines(k: Snapshot, c: wchar) {
    && c == TAB
    && HasSelection(k.state)
    && k.state.selectionStart.line != k.state.selectionEnd.line
  }

  /** What the editor needs for an operation: existing lines under the selection, no character read
      past a line end, and records that can be applied. */
  ghost predicate Usable(tab: TabSize, k: Snapshot, op: Operation) {
    match op
    case CutOp => Placed(k)
    case DeleteOp => Placed(k) && !ReadsPastEnd(tab, k)
    case BackspaceOp => Placed(k)
    case PasteOp(clip) => Placed(k) && CString(clip)
    case EnterOp(c, _, _, _) => Typed(c) && Placed(k)
    case UndoOp(n) => Undo(tab, k, n).Some?
    case RedoOp(n) => Redo(tab, k, n).Some?
    case MoveOp(_) => true
  }

  ghost function EnterCharacter(tab: TabSize, k: Snapshot, c: wchar, shift: bool, overwrite: bool,
                                autoIndent: bool): Snapshot
    requires Typed(c) && Placed(k)
  {
    if IndentsLines(k, c) then IndentSelection(tab, k, shift)
    else if c == NEWLINE then EnterNewline(tab, k, autoIndent)
    else EnterPrintable(tab, k, c, overwrite)
  }

  ghost function Step(tab: TabSize, k: Snapshot, op: Operation): Snapshot
    requires Usable(tab, k, op)
  {
    match op
    case CutOp => Cut(tab, k)
    case DeleteOp => Delete(tab, k)
    case BackspaceOp => Backspace(tab, k)
    case PasteOp(clip) => Paste(tab, k, clip)
    case EnterOp(c, shift, overwrite, autoIndent) => EnterCharacter(tab, k, c, shift, overwrite, autoIndent)
    case UndoOp(n) => Undo(tab, k, n).value
    case RedoOp(n) => Redo(tab, k, n).value
    case MoveOp(state) => k.(state := state)
  }

  /** Cursor and selection are aligned, where the operation looks at their columns. */
  ghost predicate AlignedFor(tab: TabSize, k: Snapshot, op: Operation) {
    IsEdit(op) && !(op.EnterOp? && IndentsLines(k, op.c)) ==> Ready(tab, k)
  }

  /** The operation leaves a full record; for each edit this is what a caller can check before it. */
  ghost predicate Exact(tab: TabSize, k: Snapshot, op: Operation)
    requires Usable(tab, k, op) && AlignedFor(tab, k, op)
  {
    match op
    case BackspaceOp => !WideTabBefore(tab, k)
    case PasteOp(clip) => PasteRecorded(tab, k, clip)
    case EnterOp(c, _, overwrite, autoIndent) =>
      IndentsLines(k, c)
      || (if c == NEWLINE then CopiedIndentation(tab, k, autoIndent) == []
          else CharacterRecorded(tab, k, c, overwrite))
    case _ => true
  }

  predicate IsEdit(op: Operation) {
    !op.UndoOp? && !op.RedoOp? && !op.MoveOp?
  }

  /** An edit is exact if and only if its guard says so. */
  lemma ExactIff(tab: TabSize, k: Snapshot, op: Operation)
    requires Usable(tab, k, op) && IsEdit(op) && AlignedFor(tab, k, op)
    ensures Exact(tab, k, op) <==> ExactStep(tab, k, Step(tab, k, op))
  {
    match op
    case CutOp => CutRestores(tab, k);
    case DeleteOp => DeleteRestores(tab, k);
    case BackspaceOp => BackspaceExact(tab, k);
    case PasteOp(clip) => PasteExact(tab, k, clip);
    case EnterOp(c, shift, overwrite, autoIndent) =>
      if IndentsLines(k, c) {
        IndentRestores(tab, k, shift);
      } else if c == NEWLINE {
        EnterNewlineExact(tab, k, autoIndent);
      } else {
        EnterPrintableExact(tab, k, c, overwrite);
      }
  }

  // ---------- The history ----------

  /** Undoing and redoing record `u` lead from `after` to `before` and back. */
  ghost predicate Leads(undo: Replay, redo: Replay, before: seq<byte>, after: seq<byte>, u: UndoRecord) {
    undo(after, u) == Some(before) && redo(before, u) == Some(after)
  }

  /** Every record leads from one text of `D` to the next and back. */
  ghost predicate Chained(undo: Replay, redo: Replay, records: seq<UndoRecord>, D: seq<seq<byte>>) {
    && |D| == |records| + 1
    && forall i {:trigger Leads(undo, redo, D[i], D[i + 1], records[i])} :: 0 <= i < |records| ==>
         Leads(undo, redo, D[i], D[i + 1], records[i])
  }

  ghost predicate OnChain(undo: Replay, redo: Replay, k: Snapshot, D: seq<seq<byte>>) {
    && Chained(undo, redo, k.undoBuffer, D)
    && k.undoIndex <= |k.undoBuffer|
    && D[k.undoIndex] == k.text
  }

  /** `D` lists the texts between the recorded edits, and the current text is the one at the undo
      index. */
  ghost predicate IsHistory(tab: TabSize, k: Snapshot, D: seq<seq<byte>>) {
    OnChain(UndoRecordOn(tab), RedoRecordOn(tab), k, D)
  }

  /** A recorded edit drops exactly the redo tail and appends its text; nothing else changes it. */
  ghost function NextHistory(k: Snapshot, r: Snapshot, D: seq<seq<byte>>, op: Operation): seq<seq<byte>>
    requires k.undoIndex < |D|
  {
    if IsEdit(op) && r.undoIndex == k.undoIndex + 1 then D[..k.undoIndex + 1] + [r.text] else D
  }

  function Back(index: nat, n: nat): nat {
    if n <= index then index - n else 0
  }

  function Forward(index: nat, n: nat, size: nat): nat
    requires index <= size
  {
    if index + n <= size then index + n else size
  }

  lemma {:induction false} ChainBack(undo: Replay, redo: Replay, k: Snapshot, n: nat, D: seq<seq<byte>>)
    requires OnChain(undo, redo, k, D)
    ensures var i := Back(k.undoIndex, n);
            WalkBack(undo, k, n) ==
            Some(k.(text := D[i], undoIndex := i,
                    state := if i < k.undoIndex then k.undoBuffer[i].before else k.state))
    decreases n
  {
    if n > 0 && k.undoIndex > 0 {
      var i := k.undoIndex - 1;
      assert Leads(undo, redo, D[i], D[i + 1], k.undoBuffer[i]);
      ChainBack(undo, redo, k.(text := D[i], undoIndex := i, state := k.undoBuffer[i].before), n - 1, D);
    }
  }

  lemma {:induction false} ChainForward(undo: Replay, redo: Replay, k: Snapshot, n: nat, D: seq<seq<byte>>)
    requires OnChain(undo, redo, k, D)
    ensures var i := Forward(k.undoIndex, n, |k.undoBuffer|);
            WalkForward(redo, k, n) ==
            Some(k.(text := D[i], undoIndex := i,
                    state := if i > k.undoIndex then k.undoBuffer[i - 1].after else k.state))
    decreases n
  {
    if n > 0 && k.undoIndex < |k.undoBuffer| {
      var i := k.undoIndex;
      assert Leads(undo, redo, D[i], D[i + 1], k.undoBuffer[i]);
      ChainForward(undo, redo, k.(text := D[i + 1], undoIndex := i + 1, state := k.undoBuffer[i].after), n - 1, D);
    }
  }

  lemma ExtendChain(undo: Replay, redo: Replay, k: Snapshot, r: Snapshot, D: seq<seq<byte>>, u: UndoRecord)
    requires OnChain(undo, redo, k, D) && Recorded(k, r, u) && Leads(undo, redo, k.text, r.text, u)
    ensures OnChain(undo, redo, r, D[..k.undoIndex + 1] + [r.text])
  {
    var E := D[..k.undoIndex + 1] + [r.text];
    forall i | 0 <= i < |r.undoBuffer|
      ensures Leads(undo, redo, E[i], E[i + 1], r.undoBuffer[i])
    {
      if i < k.undoIndex {
        assert Leads(undo, redo, D[i], D[i + 1], k.undoBuffer[i]);
      }
    }
  }

  /** Undo(n) walks `n` texts back along the history, stopping at its start, and takes the state
      from before the last edit undone. */
  lemma UndoWalksBack(tab: TabSize, k: Snapshot, n: nat, D: seq<seq<byte>>)
    requires IsHistory(tab, k, D)
    ensures var i := Back(k.undoIndex, n);
            Undo(tab, k, n) ==
            Some(k.(text := D[i], undoIndex := i,
                    state := if i < k.undoIndex then k.undoBuffer[i].before else k.state))
    ensures IsHistory(tab, Undo(tab, k, n).value, D)
  {
    ChainBack(UndoRecordOn(tab), RedoRecordOn(tab), k, n, D);
  }

  /** Redo(n) walks `n` texts forward, stopping at the end of the undo buffer. */
  lemma RedoWalksForward(tab: TabSize, k: Snapshot, n: nat, D: seq<seq<byte>>)
    requires IsHistory(tab, k, D)
    ensures var i := Forward(k.undoIndex, n, |k.undoBuffer|);
            Redo(tab, k, n) ==
            Some(k.(text := D[i], undoIndex := i,
                    state := if i > k.undoIndex then k.undoBuffer[i - 1].after else k.state))
    ensures IsHistory(tab, Redo(tab, k, n).value, D)
  {
    ChainForward(UndoRecordOn(tab), RedoRecordOn(tab), k, n, D);
  }

  /** Undo(n) and then Redo(n) restores text and undo index, for every n up to the undo index. */
  lemma UndoThenRedo(tab: TabSize, k: Snapshot, n: nat, D: seq<seq<byte>>)
    requires IsHistory(tab, k, D) && n <= k.undoIndex
    ensures var b := Undo(tab, k, n);
            && b.Some?
            && var r := Redo(tab, b.value, n);
               r.Some? && r.value.text == k.text && r.value.undoIndex == k.undoIndex
               && r.value.undoBuffer == k.undoBuffer
  {
    UndoWalksBack(tab, k, n, D);
    RedoWalksForward(tab, Undo(tab, k, n).value, n, D);
  }

  /** With a history, Undo and Redo can always be carried out. */
  lemma HistoryUsable(tab: TabSize, k: Snapshot, n: nat, D: seq<seq<byte>>)
    requires IsHistory(tab, k, D)
    ensures Usable(tab, k, UndoOp(n)) && Usable(tab, k, RedoOp(n))
  {
    UndoWalksBack(tab, k, n, D);
    RedoWalksForward(tab, k, n, D);
  }

  lemma RestoringLeads(tab: TabSize, before: seq<byte>, after: seq<byte>, u: UndoRecord)
    requires Restores(tab, before, after, u)
    ensures Leads(UndoRecordOn(tab), RedoRecordOn(tab), before, after, u)
  {
  }

  /** AddUndo with the record of an edit that led to `t`: the history up to the edit stays, its redo tail
      is replaced by `t`, Redo has nothing left to do, and Undo leads back. */
  lemma AddUndoKeepsHistory(tab: TabSize, k: Snapshot, t: seq<byte>, u: UndoRecord, D: seq<seq<byte>>, n: nat)
    requires IsHistory(tab, k, D) && Restores(tab, k.text, t, u)
    ensures var r := AddUndo(k.(text := t), u);
            && IsHistory(tab, r, D[..k.undoIndex + 1] + [t])
            && Redo(tab, r, n) == Some(r)
            && Undo(tab, r, 1).Some? && Undo(tab, r, 1).value.text == k.text
  {
    var r := AddUndo(k.(text := t), u);
    RestoringLeads(tab, k.text, t, u);
    ExtendChain(UndoRecordOn(tab), RedoRecordOn(tab), k, r, D, u);
    UndoWalksBack(tab, r, 1, D[..k.undoIndex + 1] + [t]);
  }

  /** One operation of a run keeps the history. */
  lemma HistoryStep(tab: TabSize, k: Snapshot, D: seq<seq<byte>>, op: Operation)
    requires IsHistory(tab, k, D) && Usable(tab, k, op) && AlignedFor(tab, k, op) && Exact(tab, k, op)
    ensures var r := Step(tab, k, op);
            IsHistory(tab, r, NextHistory(k, r, D, op))
    ensures op.UndoOp? ==> Step(tab, k, op).text == D[Back(k.undoIndex, op.steps)]
    ensures op.RedoOp? ==> Step(tab, k, op).text == D[Forward(k.undoIndex, op.steps, |k.undoBuffer|)]
  {
    if op.UndoOp? {
      UndoWalksBack(tab, k, op.steps, D);
    } else if op.RedoOp? {
      RedoWalksForward(tab, k, op.steps, D);
    } else if IsEdit(op) {
      ExactIff(tab, k, op);
      EditHistory(tab, k, Step(tab, k, op), D, op);
    }
  }

  lemma EditHistory(tab: TabSize, k: Snapshot, r: Snapshot, D: seq<seq<byte>>, op: Operation)
    requires IsHistory(tab, k, D) && ExactStep(tab, k, r) && IsEdit(op)
    ensures IsHistory(tab, r, NextHistory(k, r, D, op))
  {
    if r.undoIndex != k.undoIndex {
      var u :| Recorded(k, r, u) && Restores(tab, k.text, r.text, u);
      RestoringLeads(tab, k.text, r.text, u);
      ExtendChain(UndoRecordOn(tab), RedoRecordOn(tab), k, r, D, u);
    }
  }

  // ---------- The states in the history ----------

  /** The state that Redo brings back: the one the edit left, but for a multi-line Tab the one before it. */
  function Redone(k: Snapshot, r: Snapshot, op: Operation): EditorState {
    if op.EnterOp? && IndentsLines(k, op.c) then k.state else r.state
  }

  /** `r` has the history of `k`, or one record more, with the states `before` and `after`. */
  ghost predicate RecordsBetween(k: Snapshot, r: Snapshot, before: EditorState, after: EditorState) {
    || (r.undoBuffer == k.undoBuffer && r.undoIndex == k.undoIndex)
    || (exists u :: Recorded(k, r, u) && u.before == before && u.after == after)
  }

  lemma TypingRecords(tab: TabSize, k: Snapshot, c: wchar, overwrite: bool, autoIndent: bool)
    requires Placed(k)
    ensures var r := if c == NEWLINE then EnterNewline(tab, k, autoIndent) else EnterPrintable(tab, k, c, overwrite);
            RecordsBetween(k, r, k.state, r.state)
  {
    hide Lines, Flat, Framed, Sanitize, EndOf, ImTextCharToUtf8, UTF8CharLength, LeadingBlanks, At, InRange;
    var r := if c == NEWLINE then EnterNewline(tab, k, autoIndent) else EnterPrintable(tab, k, c, overwrite);
    if r.undoIndex != k.undoIndex {
      assert Recorded(k, r, r.undoBuffer[k.undoIndex]);
    }
  }

  /** An edit leaves the undo buffer alone, or appends one record with the states on both sides of it. */
  lemma RecordsStates(tab: TabSize, k: Snapshot, op: Operation)
    requires Usable(tab, k, op) && IsEdit(op)
    ensures var r := Step(tab, k, op);
            RecordsBetween(k, r, k.state, Redone(k, r, op))
  {
    hide Lines, Flat, Framed, Sanitize, EndOf, IndentLines, DeletedText, BackspaceStart, InsertTextAt, CountedEnd,
         MaxColumn, EnterNewline, EnterPrintable, At;
    if op.EnterOp? && !IndentsLines(k, op.c) {
      TypingRecords(tab, k, op.c, op.overwrite, op.autoIndent);
    } else {
      var r := Step(tab, k, op);
      if r.undoIndex != k.undoIndex {
        assert Recorded(k, r, r.undoBuffer[k.undoIndex]);
      }
    }
  }

  /** One step back and one forward over a record whose undoing and redoing lead to the texts around it. */
  lemma StepsOver(tab: TabSize, k: Snapshot, r: Snapshot, u: UndoRecord)
    requires Recorded(k, r, u) && u.before == k.state
    requires CanUndoRecord(tab, r.text, u) && UndoText(tab, r.text, u) == k.text
    ensures Undo(tab, r, 1) == Some(k.(undoBuffer := r.undoBuffer))
    ensures CanRedoRecord(tab, k.text, u) && RedoText(tab, k.text, u) == r.text ==>
              Redo(tab, k.(undoBuffer := r.undoBuffer), 1) == Some(r.(state := u.after))
  {
    hide CanSwap, Swap;
    assert WalkBack(UndoRecordOn(tab), k.(undoBuffer := r.undoBuffer), 0).Some?;
    assert WalkForward(RedoRecordOn(tab), r.(state := u.after), 0).Some?;
  }

  /** Undo right after a recorded edit gives back the text, the undo index, the cursor and the selection from
      before it, and Redo what the edit made of them. */
  lemma UndoGivesBack(tab: TabSize, k: Snapshot, op: Operation)
    requires Usable(tab, k, op) && IsEdit(op) && AlignedFor(tab, k, op) && Exact(tab, k, op)
    ensures var r := Step(tab, k, op);
            r.undoBuffer != k.undoBuffer || r.undoIndex != k.undoIndex ==>
              var b := k.(undoBuffer := r.undoBuffer);
              && Undo(tab, r, 1) == Some(b)
              && Redo(tab, b, 1) == Some(r.(state := Redone(k, r, op)))
  {
    hide Step, Usable, AlignedFor, Exact, Redone, Undo, Redo;
    ExactIff(tab, k, op);
    RecordsStates(tab, k, op);
    var r := Step(tab, k, op);
    if u :| Recorded(k, r, u) && u.before == k.state && u.after == Redone(k, r, op) {
      RecordedOnce(tab, k, r, u);
      StepsOver(tab, k, r, u);
    }
  }

  /** Undo also gives back everything after a typed character or line break, exact or not. */
  lemma UndoGivesBackTyping(tab: TabSize, k: Snapshot, c: wchar, shift: bool, overwrite: bool, autoIndent: bool)
    requires Typed(c) && Ready(tab, k) && !IndentsLines(k, c) && ImTextCharToUtf8(c) != []
    ensures var r := EnterCharacter(tab, k, c, shift, overwrite, autoIndent);
            && r.undoIndex == k.undoIndex + 1
            && Undo(tab, r, 1) == Some(k.(undoBuffer := r.undoBuffer))
  {
    hide Ready, Undo, CanUndoRecord, UndoText, EnterNewline, EnterPrintable, ImTextCharToUtf8;
    var op := EnterOp(c, shift, overwrite, autoIndent);
    var r := Step(tab, k, op);
    RecordsStates(tab, k, op);
    if c == NEWLINE {
      EnterNewlineExact(tab, k, autoIndent);
      StepsOver(tab, k, r, r.undoBuffer[k.undoIndex]);
    } else {
      EnterPrintableExact(tab, k, c, overwrite);
      var u :| Recorded(k, r, u) && CanUndoRecord(tab, r.text, u) && UndoText(tab, r.text, u) == k.text;
      assert r.undoBuffer[k.undoIndex] == u;
      StepsOver(tab, k, r, u);
    }
  }

  /** Every operation of the run is usable when its turn comes. */
  ghost predicate UsableRun(tab: TabSize, k: Snapshot, ops: seq<Operation>)
    decreases |ops|
  {
    ops != [] ==> Usable(tab, k, ops[0]) && UsableRun(tab, Step(tab, k, ops[0]), ops[1..])
  }

  /** And every edit among them is exact. */
  ghost predicate ExactRun(tab: TabSize, k: Snapshot, ops: seq<Operation>): (r: bool)
    ensures r ==> UsableRun(tab, k, ops)
    decreases |ops|
  {
    ops != [] ==>
      && Usable(tab, k, ops[0])
      && AlignedFor(tab, k, ops[0])
      && Exact(tab, k, ops[0])
      && ExactRun(tab, Step(tab, k, ops[0]), ops[1..])
  }

  ghost function Run(tab: TabSize, k: Snapshot, ops: seq<Operation>): Snapshot
    requires UsableRun(tab, k, ops)
    decreases |ops|
  {
    if ops == [] then k else Run(tab, Step(tab, k, ops[0]), ops[1..])
  }

  /** For every run of exact edits mixed with Undo, Redo and moves of cursor and selection there is
      a history with the current text at the undo index; its first text never changes. */
  lemma {:induction false} RunHistory(tab: TabSize, k: Snapshot, ops: seq<Operation>, D: seq<seq<byte>>)
    returns (E: seq<seq<byte>>)
    requires IsHistory(tab, k, D) && ExactRun(tab, k, ops)
    ensures IsHistory(tab, Run(tab, k, ops), E) && E[0] == D[0]
    decreases |ops|
  {
    if ops == [] {
      E := D;
    } else {
      HistoryStep(tab, k, D, ops[0]);
      var r := Step(tab, k, ops[0]);
      E := RunHistory(tab, r, ops[1..], NextHistory(k, r, D, ops[0]));
    }
  }

  /** After any such run from a freshly set text, undoing every recorded edit brings that text
      back, and redoing as many brings back the text of the end of the run. */
  lemma UndoEverything(tab: TabSize, k: Snapshot, ops: seq<Operation>)
    requires CleanText(k.text) && k.undoBuffer == [] && k.undoIndex == 0 && ExactRun(tab, k, ops)
    ensures var r := Run(tab, k, ops);
            var b := Undo(tab, r, r.undoIndex);
            && b.Some? && b.value.text == k.text
            && var f := Redo(tab, b.value, r.undoIndex);
               f.Some? && f.value.text == r.text
  {
    assert IsHistory(tab, k, [k.text]);
    var E := RunHistory(tab, k, ops, [k.text]);
    var r := Run(tab, k, ops);
    UndoWalksBack(tab, r, r.undoIndex, E);
    UndoThenRedo(tab, r, r.undoIndex, E);
  }

  // ---------- What a run leaves in the history ----------

  datatype States = States(before: EditorState, after: EditorState)

  /** The texts between the recorded edits, and the states on both sides of each. */
  datatype Log = Log(texts: seq<seq<byte>>, states: seq<States>)

  ghost predicate IsLog(tab: TabSize, k: Snapshot, l: Log) {
    && IsHistory(tab, k, l.texts)
    && |l.states| == |k.undoBuffer|
    && forall i {:trigger l.states[i]} :: 0 <= i < |l.states| ==>
         k.undoBuffer[i].before == l.states[i].before && k.undoBuffer[i].after == l.states[i].after
  }

  /** The log after one operation, told by the texts and states on both sides of it. */
  ghost function NextLog(k: Snapshot, r: Snapshot, l: Log, op: Operation): Log
    requires k.undoIndex < |l.texts| && k.undoIndex <= |l.states|
  {
    Log(NextHistory(k, r, l.texts, op),
        if IsEdit(op) && r.undoIndex == k.undoIndex + 1
        then l.states[..k.undoIndex] + [States(k.state, Redone(k, r, op))]
        else l.states)
  }

  lemma EditLogged(tab: TabSize, k: Snapshot, r: Snapshot, l: Log, op: Operation)
    requires IsLog(tab, k, l) && IsEdit(op) && IsHistory(tab, r, NextHistory(k, r, l.texts, op))
    requires k.undoIndex <= |k.undoBuffer| && RecordsBetween(k, r, k.state, Redone(k, r, op))
    ensures IsLog(tab, r, NextLog(k, r, l, op))
  {
    hide IsHistory, Redone, NextHistory;
  }

  lemma LogStep(tab: TabSize, k: Snapshot, l: Log, op: Operation)
    requires IsLog(tab, k, l) && Usable(tab, k, op) && AlignedFor(tab, k, op) && Exact(tab, k, op)
    ensures IsLog(tab, Step(tab, k, op), NextLog(k, Step(tab, k, op), l, op))
  {
    HistoryStep(tab, k, l.texts, op);
    hide IsHistory, Usable, AlignedFor, Exact, Redone, NextHistory, RecordsBetween;
    if IsEdit(op) {
      hide Step;
      RecordsStates(tab, k, op);
      EditLogged(tab, k, Step(tab, k, op), l, op);
    } else if op.UndoOp? {
      UndoWalksBack(tab, k, op.steps, l.texts);
    } else if op.RedoOp? {
      RedoWalksForward(tab, k, op.steps, l.texts);
    }
  }

  /** The log of a run. */
  ghost function RunLog(tab: TabSize, k: Snapshot, ops: seq<Operation>, l: Log): (m: Log)
    requires IsLog(tab, k, l) && ExactRun(tab, k, ops)
    ensures IsLog(tab, Run(tab, k, ops), m)
    decreases |ops|
  {
    if ops == [] then l
    else
      LogStep(tab, k, l, ops[0]);
      var r := Step(tab, k, ops[0]);
      RunLog(tab, r, ops[1..], NextLog(k, r, l, ops[0]))
  }

  lemma FreshLog(tab: TabSize, k: Snapshot)
    requires CleanText(k.text) && k.undoBuffer == [] && k.undoIndex == 0
    ensures IsLog(tab, k, Log([k.text], []))
  {
  }

  lemma UndoByLog(tab: TabSize, k: Snapshot, l: Log, n: nat)
    requires IsLog(tab, k, l)
    ensures var i, j := Back(k.undoIndex, n), Forward(k.undoIndex, n, |k.undoBuffer|);
            && Undo(tab, k, n) == Some(k.(text := l.texts[i], undoIndex := i,
                                          state := if i < k.undoIndex then l.states[i].before else k.state))
            && Redo(tab, k, n) == Some(k.(text := l.texts[j], undoIndex := j,
                                          state := if j > k.undoIndex then l.states[j - 1].after else k.state))
  {
    UndoWalksBack(tab, k, n, l.texts);
    RedoWalksForward(tab, k, n, l.texts);
  }

  /** After a run of exact edits mixed with Undo, Redo and moves, Undo(n) gives back the text, the cursor and the
      selection that were there before the n-th last recorded edit, and Redo(n) those that the n-th next one
      made. */
  lemma UndoAfterRun(tab: TabSize, k: Snapshot, ops: seq<Operation>, n: nat)
    requires CleanText(k.text) && k.undoBuffer == [] && k.undoIndex == 0 && ExactRun(tab, k, ops)
    ensures IsLog(tab, k, Log([k.text], []))
    ensures var r, m := Run(tab, k, ops), RunLog(tab, k, ops, Log([k.text], []));
            var i, j := Back(r.undoIndex, n), Forward(r.undoIndex, n, |r.undoBuffer|);
            && Undo(tab, r, n) == Some(r.(text := m.texts[i], undoIndex := i,
                                          state := if i < r.undoIndex then m.states[i].before else r.state))
            && Redo(tab, r, n) == Some(r.(text := m.texts[j], undoIndex := j,
                                          state := if j > r.undoIndex then m.states[j - 1].after else r.state))
  {
    hide Run, ExactRun, RunLog, Undo, Redo, CleanText;
    FreshLog(tab, k);
    UndoByLog(tab, Run(tab, k, ops), RunLog(tab, k, ops, Log([k.text], [])), n);
  }
}
