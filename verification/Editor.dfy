// The text editor's line buffer as a flat text with a cursor, and its history
// (kernel/src/editor_app.rs).
module Editor {

  const MAX_UNDO_STEPS: nat := 50
  const NEWLINE: char := '\n'

  // -------------------------------------------------------------- flat text

  // Every line followed by a newline.
  function Before(lines: seq<string>): string {
    if lines == [] then "" else Before(lines[..|lines| - 1]) + lines[|lines| - 1] + [NEWLINE]
  }

  // A newline before every line.
  function After(lines: seq<string>): string {
    if lines == [] then "" else [NEWLINE] + lines[0] + After(lines[1..])
  }

  // The lines joined by newlines.
  function Flat(lines: seq<string>): string
    requires lines != []
  {
    lines[0] + After(lines[1..])
  }

  // The text seen from one of its lines.
  lemma {:induction false} FlatAt(lines: seq<string>, row: nat)
    requires row < |lines|
    ensures Flat(lines) == Before(lines[..row]) + lines[row] + After(lines[row + 1..])
  {
    if row == 0 {
      assert lines[..0] == [];
    } else {
      FlatAt(lines, row - 1);
      assert lines[row..][0] == lines[row] && lines[row..][1..] == lines[row + 1..];
      assert lines[..row][..row - 1] == lines[..row - 1];
      var (a, b, c, d) := (Before(lines[..row - 1]), lines[row - 1], lines[row], After(lines[row + 1..]));
      assert a + b + ([NEWLINE] + c + d) == (a + b + [NEWLINE]) + c + d;
    }
  }

  // Where the cursor stands in the flat text.
  function Offset(lines: seq<string>, row: nat, col: nat): nat
    requires row < |lines|
  {
    |Before(lines[..row])| + col
  }

  function Inserted(text: string, at: nat, c: char): string
    requires at <= |text|
  {
    text[..at] + [c] + text[at..]
  }

  function Deleted(text: string, at: nat): string
    requires at < |text|
  {
    text[..at] + text[at + 1..]
  }

  // Cutting the text at a column of a line.
  lemma CutAt(lines: seq<string>, row: nat, col: nat)
    requires row < |lines| && col <= |lines[row]|
    ensures Offset(lines, row, col) <= |Flat(lines)|
    ensures Flat(lines)[..Offset(lines, row, col)] == Before(lines[..row]) + lines[row][..col]
    ensures Flat(lines)[Offset(lines, row, col)..] == lines[row][col..] + After(lines[row + 1..])
  {
    FlatAt(lines, row);
    assert lines[row] == lines[row][..col] + lines[row][col..];
  }

  lemma InsertInLine(lines: seq<string>, row: nat, col: nat, c: char)
    requires row < |lines| && col <= |lines[row]|
    ensures Offset(lines, row, col) <= |Flat(lines)|
    ensures var after := lines[row := lines[row][..col] + [c] + lines[row][col..]];
            && Flat(after) == Inserted(Flat(lines), Offset(lines, row, col), c)
            && Offset(after, row, col + 1) == Offset(lines, row, col) + 1
  {
    CutAt(lines, row, col);
    var after := lines[row := lines[row][..col] + [c] + lines[row][col..]];
    FlatAt(after, row);
    assert after[..row] == lines[..row] && after[row + 1..] == lines[row + 1..];
    var (a, l, r, z) := (Before(lines[..row]), lines[row][..col], lines[row][col..], After(lines[row + 1..]));
    assert a + (l + [c] + r) + z == (a + l) + [c] + (r + z);
  }

  lemma SplitLine(lines: seq<string>, row: nat, col: nat)
    requires row < |lines| && col <= |lines[row]|
    ensures Offset(lines, row, col) <= |Flat(lines)|
    ensures var after := lines[..row] + [lines[row][..col], lines[row][col..]] + lines[row + 1..];
            && Flat(after) == Inserted(Flat(lines), Offset(lines, row, col), NEWLINE)
            && Offset(after, row + 1, 0) == Offset(lines, row, col) + 1
  {
    CutAt(lines, row, col);
    var after := lines[..row] + [lines[row][..col], lines[row][col..]] + lines[row + 1..];
    FlatAt(after, row + 1);
    assert after[..row + 1] == lines[..row] + [lines[row][..col]];
    assert after[..row + 1][..row] == lines[..row];
    assert after[row + 2..] == lines[row + 1..];
    var (a, l, r, z) := (Before(lines[..row]), lines[row][..col], lines[row][col..], After(lines[row + 1..]));
    assert (a + l + [NEWLINE]) + r + z == (a + l) + [NEWLINE] + (r + z);
  }

  lemma DeleteInLine(lines: seq<string>, row: nat, col: nat)
    requires row < |lines| && col < |lines[row]|
    ensures Offset(lines, row, col) < |Flat(lines)|
    ensures var after := lines[row := lines[row][..col] + lines[row][col + 1..]];
            && Flat(after) == Deleted(Flat(lines), Offset(lines, row, col))
            && Offset(after, row, col) == Offset(lines, row, col)
  {
    CutAt(lines, row, col);
    CutAt(lines, row, col + 1);
    var after := lines[row := lines[row][..col] + lines[row][col + 1..]];
    FlatAt(after, row);
    assert after[..row] == lines[..row] && after[row + 1..] == lines[row + 1..];
    var (a, l, r, z) := (Before(lines[..row]), lines[row][..col], lines[row][col + 1..], After(lines[row + 1..]));
    assert a + (l + r) + z == (a + l) + (r + z);
  }

  lemma JoinLines(lines: seq<string>, row: nat)
    requires row + 1 < |lines|
    ensures Offset(lines, row, |lines[row]|) < |Flat(lines)|
    ensures Offset(lines, row + 1, 0) == Offset(lines, row, |lines[row]|) + 1
    ensures var after := lines[..row] + [lines[row] + lines[row + 1]] + lines[row + 2..];
            && Flat(after) == Deleted(Flat(lines), Offset(lines, row, |lines[row]|))
            && Offset(after, row, |lines[row]|) == Offset(lines, row, |lines[row]|)
  {
    hide After;
    CutAt(lines, row, |lines[row]|);
    CutAt(lines, row + 1, 0);
    JoinedOffsets(lines, row);
    var after := lines[..row] + [lines[row] + lines[row + 1]] + lines[row + 2..];
    FlatAt(after, row);
    assert after[..row] == lines[..row] && after[row + 1..] == lines[row + 2..];
    hide Before, Flat, Offset;
    var (a, l, r, z) := (Before(lines[..row]), lines[row], lines[row + 1], After(lines[row + 2..]));
    assert a + (l + r) + z == (a + l) + (r + z);
  }

  lemma JoinedOffsets(lines: seq<string>, row: nat)
    requires row + 1 < |lines|
    ensures Offset(lines, row + 1, 0) == Offset(lines, row, |lines[row]|) + 1
    ensures After(lines[row + 1..]) == [NEWLINE] + (lines[row + 1] + After(lines[row + 2..]))
  {
    assert lines[..row + 1][..row] == lines[..row];
    assert lines[row + 1..][0] == lines[row + 1] && lines[row + 1..][1..] == lines[row + 2..];
  }

  lemma StepLeft(lines: seq<string>, row: nat, col: nat)
    requires row < |lines| && 0 < col <= |lines[row]|
    ensures Offset(lines, row, col) == Offset(lines, row, col - 1) + 1
  {
  }

  // At the very start there is nothing before, at the very end nothing after.
  lemma Ends(lines: seq<string>, row: nat, col: nat)
    requires row < |lines| && col <= |lines[row]|
    ensures Offset(lines, row, col) == 0 <==> row == 0 && col == 0
    ensures Offset(lines, row, col) == |Flat(lines)| <==> row == |lines| - 1 && col == |lines[row]|
  {
    CutAt(lines, row, col);
    if row + 1 < |lines| { assert lines[row + 1..] != []; }
    if row > 0 { assert lines[..row] != []; }
  }

  // ---------------------------------------------------------------- history

  datatype Snapshot = Snapshot(lines: seq<string>, row: nat, col: nat, dirty: bool)

  datatype History = History(undo: seq<Snapshot>, current: Snapshot, redo: seq<Snapshot>)

  // The current state goes onto the undo stack, which keeps the last fifty.
  function Edited(h: History, next: Snapshot): History {
    var kept := if |h.undo| >= MAX_UNDO_STEPS then h.undo[1..] else h.undo;
    History(kept + [h.current], next, [])
  }

  function Undone(h: History): History {
    if h.undo == [] then h
    else History(h.undo[..|h.undo| - 1], h.undo[|h.undo| - 1], h.redo + [h.current])
  }

  function Redone(h: History): History {
    if h.redo == [] then h
    else History(h.undo + [h.current], h.redo[|h.redo| - 1], h.redo[..|h.redo| - 1])
  }

  function Undos(h: History, k: nat): History {
    if k == 0 then h else Undone(Undos(h, k - 1))
  }

  function Redos(h: History, k: nat): History
    decreases k
  {
    if k == 0 then h else Redos(Redone(h), k - 1)
  }

  function Edits(h: History, next: seq<Snapshot>): History {
    if next == [] then h else Edited(Edits(h, next[..|next| - 1]), next[|next| - 1])
  }

  predicate Bounded(h: History) {
    |h.undo| + |h.redo| <= 50
  }

  // Every step keeps the two stacks within fifty snapshots.
  lemma StepsStayBounded(h: History, next: Snapshot)
    requires Bounded(h)
    ensures Bounded(Edited(h, next)) && Bounded(Undone(h)) && Bounded(Redone(h))
    ensures Undone(Edited(h, next)).current == h.current
    ensures h.undo != [] ==> Redone(Undone(h)) == h
  {
    if h.undo != [] { RedoUndoesUndo(h); }
  }

  lemma RedoUndoesUndo(h: History)
    requires h.undo != []
    ensures Redone(Undone(h)) == h
  {
    assert Redone(Undone(h)).undo == h.undo;
    assert Redone(Undone(h)).redo == h.redo;
  }

  lemma {:induction false} UndosLeave(h: History, k: nat)
    requires k <= |h.undo|
    ensures |Undos(h, k).undo| == |h.undo| - k
  {
    if k > 0 { UndosLeave(h, k - 1); }
  }

  // k undos and k redos are the identity.
  lemma {:induction false} UndosThenRedos(h: History, k: nat)
    requires k <= |h.undo|
    ensures Redos(Undos(h, k), k) == h
  {
    if k > 0 {
      UndosThenRedos(h, k - 1);
      var g := Undos(h, k - 1);
      UndosLeave(h, k - 1);
      RedoUndoesUndo(g);
      hide Undone, Redone;
    }
  }

  // The undo stack after edits: the states before each of the last fifty.
  function Trail(h: History, next: seq<Snapshot>): seq<Snapshot> {
    h.undo + [h.current] + next
  }

  function LastOf(s: seq<Snapshot>, n: nat): (r: seq<Snapshot>)
    ensures |r| <= n
  {
    if |s| <= n then s else s[|s| - n..]
  }

  // Pushing onto the last n drops the oldest of n.
  lemma PushLast(v: seq<Snapshot>, c: Snapshot, n: nat)
    requires 0 < n
    ensures LastOf(v + [c], n) == (if |LastOf(v, n)| >= n then LastOf(v, n)[1..] else LastOf(v, n)) + [c]
  {
    if |v| > n {
      assert v[|v| - n..][1..] == v[|v| - n + 1..];
    }
    if |v| >= n {
      assert (v + [c])[|v| + 1 - n..] == v[|v| + 1 - n..] + [c];
    }
  }

  // The last edit pushes the state before it, which ends the trail so far.
  lemma TrailMore(h: History, next: seq<Snapshot>)
    requires next != []
    ensures var t, u := Trail(h, next), Trail(h, next[..|next| - 1]);
            t == u + [next[|next| - 1]] && t[..|t| - 1] == u && u == u[..|u| - 1] + [u[|u| - 1]]
  {
  }

  lemma {:induction false} EditsKeepLast(h: History, next: seq<Snapshot>)
    requires Bounded(h)
    ensures var g := Edits(h, next); var t := Trail(h, next);
            && t != [] && g.current == t[|t| - 1]
            && g.undo == LastOf(t[..|t| - 1], MAX_UNDO_STEPS)
  {
    if next == [] {
      var t := Trail(h, next);
      assert t[..|t| - 1] == h.undo;
    } else {
      var less := next[..|next| - 1];
      var g, u := Edits(h, less), Trail(h, less);
      EditsKeepLast(h, less);
      TrailMore(h, next);
      assert Edits(h, next) == Edited(g, next[|next| - 1]);
      hide Trail, LastOf, Edits, Bounded;
      PushLast(u[..|u| - 1], u[|u| - 1], MAX_UNDO_STEPS);
    }
  }

  lemma {:induction false} UndosReach(h: History, k: nat)
    requires k <= |h.undo|
    ensures Undos(h, k).current == if k == 0 then h.current else h.undo[|h.undo| - k]
    ensures Undos(h, k).undo == h.undo[..|h.undo| - k]
  {
    if k == 0 {
      assert h.undo[..|h.undo|] == h.undo;
    } else {
      UndosReach(h, k - 1);
    }
  }

  lemma {:induction false} UndosStop(h: History, k: nat)
    requires k >= |h.undo|
    ensures Undos(h, k) == Undos(h, |h.undo|)
  {
    if k > |h.undo| {
      UndosStop(h, k - 1);
      UndosReach(h, |h.undo|);
    }
  }

  // Undoing as many times as was edited returns to the state before, if there
  // were at most fifty edits; after more, to the state fifty edits ago.
  lemma EditsThenUndos(h: History, next: seq<Snapshot>)
    requires Bounded(h) && h.undo == []
    ensures var n := |next|;
            Undos(Edits(h, next), n).current
            == if n <= 50 then h.current else next[n - 51]
  {
    var n := |next|;
    var g := Edits(h, next);
    var t := Trail(h, next);
    EditsKeepLast(h, next);
    assert |t| == n + 1 && t[0] == h.current && forall i :: 0 <= i < n ==> t[i + 1] == next[i];
    if n <= MAX_UNDO_STEPS {
      UndosReach(g, n);
    } else {
      UndosStop(g, n);
      UndosReach(g, MAX_UNDO_STEPS);
    }
  }

  // ------------------------------------------------------------ the editor

  predicate AllOk(stack: seq<Snapshot>) {
    forall s :: s in stack ==> CursorOk(s)
  }

  class EditorState {
    var lines: seq<string>
    var row: nat
    var col: nat
    var dirty: bool
    var undoStack: seq<Snapshot>
    var redoStack: seq<Snapshot>

    function Now(): Snapshot
      reads this
    {
      Snapshot(lines, row, col, dirty)
    }

    function Past(): History
      reads this
    {
      History(undoStack, Now(), redoStack)
    }

    // The text and the cursor's place in it.
    function Text(): string
      requires lines != []
      reads this
    {
      Flat(lines)
    }

    function Cursor(): nat
      requires row < |lines|
      reads this
    {
      Offset(lines, row, col)
    }

    // The cursor is on a line and not past its end, also in every snapshot.
    ghost predicate Valid()
      reads this
    {
      && CursorOk(Now())
      && AllOk(undoStack) && AllOk(redoStack)
      && Bounded(Past())
    }

    constructor ()
      ensures Valid() && lines == [""] && row == 0 && col == 0 && !dirty && undoStack == [] && redoStack == []
    {
      lines, row, col, dirty, undoStack, redoStack := [""], 0, 0, false, [], [];
    }

    method PushUndoSnapshot()
      requires Valid()
      modifies this`undoStack, this`redoStack
      ensures Valid()
      ensures forall next :: Edited(old(Past()), next) == History(undoStack, next, redoStack)
    {
      var snapshot := Now();
      if |undoStack| >= MAX_UNDO_STEPS {
        undoStack := undoStack[1..];
      }
      undoStack := undoStack + [snapshot];
      redoStack := [];
    }

    method Undo()
      requires Valid()
      modifies this
      ensures Valid() && Past() == Undone(old(Past()))
    {
      if undoStack != [] {
        var prev := undoStack[|undoStack| - 1];
        redoStack := redoStack + [Now()];
        undoStack := undoStack[..|undoStack| - 1];
        lines, row, col, dirty := prev.lines, prev.row, prev.col, prev.dirty;
      }
    }

    method Redo()
      requires Valid()
      modifies this
      ensures Valid() && Past() == Redone(old(Past()))
    {
      if redoStack != [] {
        var next := redoStack[|redoStack| - 1];
        undoStack := undoStack + [Now()];
        redoStack := redoStack[..|redoStack| - 1];
        lines, row, col, dirty := next.lines, next.row, next.col, next.dirty;
      }
    }

    // Inserts at the cursor and moves past it.
    method InsertChar(c: char)
      requires Valid()
      modifies this
      ensures Valid() && dirty && Past() == Edited(old(Past()), Now())
      ensures old(Cursor()) <= |old(Text())| && Text() == Inserted(old(Text()), old(Cursor()), c)
      ensures Cursor() == old(Cursor()) + 1
    {
      hide Flat, Before, After, Offset, Inserted, AllOk;
      PushUndoSnapshot();
      InsertInLine(lines, row, col, c);
      if col >= |lines[row]| {
        assert lines[row][..col] + [c] + lines[row][col..] == lines[row] + [c];
        lines := lines[row := lines[row] + [c]];
        col := |lines[row]|;
      } else {
        lines := lines[row := lines[row][..col] + [c] + lines[row][col..]];
        col := col + 1;
      }
      dirty := true;
    }

    // Splits the line at the cursor: a newline is inserted.
    method InsertNewline()
      requires Valid()
      modifies this
      ensures Valid() && dirty && Past() == Edited(old(Past()), Now())
      ensures old(Cursor()) <= |old(Text())| && Text() == Inserted(old(Text()), old(Cursor()), NEWLINE)
      ensures Cursor() == old(Cursor()) + 1
    {
      hide Flat, Before, After, Offset, Inserted, AllOk;
      PushUndoSnapshot();
      SplitLine(lines, row, col);
      var rightSplit := if col < |lines[row]| then lines[row][col..] else "";
      assert rightSplit == lines[row][col..];
      ghost var before := lines;
      lines := lines[row := lines[row][..col]];
      lines := lines[..row + 1] + [rightSplit] + lines[row + 1..];
      assert lines == before[..row] + [before[row][..col], before[row][col..]] + before[row + 1..];
      row := row + 1;
      col := 0;
      dirty := true;
    }

    // Deletes the character before the cursor; at the start nothing happens.
    method DeleteBackward()
      requires Valid()
      modifies this
      ensures Valid()
      ensures old(Cursor()) == 0 ==> Past() == old(Past())
      ensures old(Cursor()) > 0 ==>
                && dirty && Past() == Edited(old(Past()), Now())
                && old(Cursor()) <= |old(Text())| && Text() == Deleted(old(Text()), old(Cursor()) - 1)
                && Cursor() == old(Cursor()) - 1
    {
      Ends(lines, row, col);
      hide Flat, Before, After, Offset, Deleted, Edited, Valid;
      if col > 0 {
        DeleteLeft();
      } else if row > 0 {
        JoinPrevious();
      }
    }

    method DeleteLeft()
      requires Valid() && col > 0
      modifies this
      ensures Valid() && dirty && Past() == Edited(old(Past()), Now())
      ensures old(Cursor()) <= |old(Text())| && old(Cursor()) > 0
      ensures Text() == Deleted(old(Text()), old(Cursor()) - 1) && Cursor() == old(Cursor()) - 1
    {
      hide Flat, Before, After, Offset, Deleted, Edited, AllOk;
      DeleteInLine(lines, row, col - 1);
      StepLeft(lines, row, col);
      PushUndoSnapshot();
      RemoveAt(row, col - 1);
      col := col - 1;
      dirty := true;
    }

    method JoinPrevious()
      requires Valid() && col == 0 && row > 0
      modifies this
      ensures Valid() && dirty && Past() == Edited(old(Past()), Now())
      ensures old(Cursor()) <= |old(Text())| && old(Cursor()) > 0
      ensures Text() == Deleted(old(Text()), old(Cursor()) - 1) && Cursor() == old(Cursor()) - 1
    {
      hide Flat, Before, After, Offset, Deleted, Edited, AllOk;
      JoinLines(lines, row - 1);
      PushUndoSnapshot();
      row := row - 1;
      col := |lines[row]|;
      AppendNextLine(row);
      dirty := true;
    }

    // Takes one character out of a line.
    method RemoveAt(at: nat, k: nat)
      requires at < |lines| && k < |lines[at]|
      modifies this`lines
      ensures lines == old(lines[at := lines[at][..k] + lines[at][k + 1..]])
    {
      lines := lines[at := lines[at][..k] + lines[at][k + 1..]];
    }

    // Takes the next line out and appends it to this one.
    method AppendNextLine(at: nat)
      requires at + 1 < |lines|
      modifies this`lines
      ensures lines == old(lines[..at] + [lines[at] + lines[at + 1]] + lines[at + 2..])
    {
      JoinedInPlace(lines, at);
      var next := lines[at + 1];
      lines := lines[..at + 1] + lines[at + 2..];
      lines := lines[at := lines[at] + next];
    }

    // Deletes the character at the cursor; at the end nothing happens.
    method DeleteForward()
      requires Valid()
      modifies this
      ensures Valid()
      ensures old(Cursor()) == |old(Text())| ==> Past() == old(Past())
      ensures old(Cursor()) != |old(Text())| ==>
                && dirty && Past() == Edited(old(Past()), Now())
                && old(Cursor()) < |old(Text())| && Text() == Deleted(old(Text()), old(Cursor()))
                && Cursor() == old(Cursor())
    {
      Ends(lines, row, col);
      hide Flat, Before, After, Offset, Deleted, Edited, AllOk, Bounded;
      if col < |lines[row]| {
        DeleteRight();
      } else if row + 1 < |lines| {
        JoinNext();
      }
    }

    method DeleteRight()
      requires Valid() && col < |lines[row]|
      modifies this
      ensures Valid() && dirty && Past() == Edited(old(Past()), Now())
      ensures old(Cursor()) < |old(Text())| && Text() == Deleted(old(Text()), old(Cursor()))
      ensures Cursor() == old(Cursor())
    {
      hide Flat, Before, After, Offset, Deleted, Edited, AllOk;
      DeleteInLine(lines, row, col);
      PushUndoSnapshot();
      RemoveAt(row, col);
      dirty := true;
    }

    method JoinNext()
      requires Valid() && col == |lines[row]| && row + 1 < |lines|
      modifies this
      ensures Valid() && dirty && Past() == Edited(old(Past()), Now())
      ensures old(Cursor()) < |old(Text())| && Text() == Deleted(old(Text()), old(Cursor()))
      ensures Cursor() == old(Cursor())
    {
      hide Flat, Before, After, Offset, Deleted, Edited, AllOk;
      JoinLines(lines, row);
      PushUndoSnapshot();
      AppendNextLine(row);
      dirty := true;
    }
  }

  // Removing a line and appending it to the one before joins the two.
  lemma JoinedInPlace(lines: seq<string>, row: nat)
    requires row + 1 < |lines|
    ensures var fewer := lines[..row + 1] + lines[row + 2..];
            && row < |fewer| && fewer[row] == lines[row]
            && fewer[row := fewer[row] + lines[row + 1]]
               == lines[..row] + [lines[row] + lines[row + 1]] + lines[row + 2..]
  {
  }

  predicate CursorOk(s: Snapshot) {
    s.row < |s.lines| && s.col <= |s.lines[s.row]|
  }
}
