/** The text editor's buffer: rows and columns, in-place edits, vertical motion and scrolling. */
module Editor {
  import opened Bytes

  const NEWLINE: byte := 10

  // --------------------------------------------------------------- rows and columns

  /** No line break from `a` up to `b`. */
  predicate NoBreak(t: seq<byte>, a: nat, b: nat)
    requires a <= b <= |t|
  {
    forall k :: a <= k < b ==> t[k] != NEWLINE
  }

  /** Where the line that holds position `pos` starts. */
  function LineStartOf(t: seq<byte>, pos: nat): (s: nat)
    requires pos <= |t|
    ensures s <= pos && (s == 0 || t[s - 1] == NEWLINE) && NoBreak(t, s, pos)
  {
    if pos == 0 || t[pos - 1] == NEWLINE then pos else LineStartOf(t, pos - 1)
  }

  /** Where the line that holds position `pos` ends: at its line break, or at the end of the text. */
  function LineEndOf(t: seq<byte>, pos: nat): (e: nat)
    requires pos <= |t|
    ensures pos <= e <= |t| && (e == |t| || t[e] == NEWLINE) && NoBreak(t, pos, e)
    decreases |t| - pos
  {
    if pos == |t| || t[pos] == NEWLINE then pos else LineEndOf(t, pos + 1)
  }

  /** How many line breaks come before `pos`. */
  function RowOf(t: seq<byte>, pos: nat): nat
    requires pos <= |t|
  {
    if pos == 0 then 0 else RowOf(t, pos - 1) + (if t[pos - 1] == NEWLINE then 1 else 0)
  }

  /** Walking from `pos`, which is in row `row`, to the start of row `target`, or to the end. */
  function WalkToRow(t: seq<byte>, pos: nat, row: nat, target: nat): (p: nat)
    requires pos <= |t|
    ensures pos <= p <= |t|
    decreases |t| - pos
  {
    if pos < |t| && row < target then WalkToRow(t, pos + 1, if t[pos] == NEWLINE then row + 1 else row, target) else pos
  }

  lemma {:induction false} NoBreakNoRow(t: seq<byte>, a: nat, b: nat)
    requires a <= b <= |t| && NoBreak(t, a, b)
    ensures RowOf(t, a) == RowOf(t, b)
    decreases b
  {
    if a < b {
      NoBreakNoRow(t, a, b - 1);
    }
  }

  lemma {:induction false} RowMonotone(t: seq<byte>, a: nat, b: nat)
    requires a <= b <= |t|
    ensures RowOf(t, a) <= RowOf(t, b)
    decreases b
  {
    if a < b {
      RowMonotone(t, a, b - 1);
    }
  }

  /** The walk from any earlier place to the row of `pos` stops at the start of its line. */
  lemma {:induction false} WalkFindsLine(t: seq<byte>, from: nat, pos: nat)
    requires pos <= |t| && from <= LineStartOf(t, pos)
    ensures WalkToRow(t, from, RowOf(t, from), RowOf(t, pos)) == LineStartOf(t, pos)
    decreases |t| - from
  {
    var s := LineStartOf(t, pos);
    NoBreakNoRow(t, s, pos);
    if from < s {
      RowMonotone(t, from, s - 1);
      assert RowOf(t, s) == RowOf(t, s - 1) + 1;
      WalkFindsLine(t, from + 1, pos);
    }
  }

  /** editor_find_row_start inverts editor_cursor_row up to the column, at every position. */
  lemma RowStartInvertsRow(t: seq<byte>, pos: nat)
    requires pos <= |t|
    ensures WalkToRow(t, 0, 0, RowOf(t, pos)) == LineStartOf(t, pos)
  {
    WalkFindsLine(t, 0, pos);
  }

  // ----------------------------------------------------------------- vertical motion

  function Min(a: nat, b: nat): nat {
    if a < b then a else b
  }

  /** The position `column` columns into the line that starts at `start`, or at its end if it is shorter. */
  function InLine(t: seq<byte>, start: nat, column: nat): (p: nat)
    requires start <= |t|
    ensures start <= p <= |t|
  {
    Min(start + column, LineEndOf(t, start))
  }

  /** Where moving up (`direction` negative) or down takes the cursor. */
  function Moved(t: seq<byte>, cursor: nat, direction: int): (p: nat)
    requires cursor <= |t|
    ensures p <= |t|
  {
    var start := LineStartOf(t, cursor);
    if direction < 0 then
      if start == 0 then cursor else InLine(t, LineStartOf(t, start - 1), cursor - start)
    else
      var end := LineEndOf(t, start);
      if end == |t| then cursor else InLine(t, end + 1, cursor - start)
  }

  lemma InLineStays(t: seq<byte>, start: nat, column: nat)
    requires start <= |t| && (start == 0 || t[start - 1] == NEWLINE)
    ensures var p := InLine(t, start, column);
            && RowOf(t, p) == RowOf(t, start) && LineStartOf(t, p) == start
            && p - start == Min(column, LineEndOf(t, start) - start)
  {
    var p := InLine(t, start, column);
    NoBreakNoRow(t, start, p);
    SameStart(t, start, p);
  }

  lemma {:induction false} SameStart(t: seq<byte>, s: nat, p: nat)
    requires s <= p <= |t| && (s == 0 || t[s - 1] == NEWLINE) && NoBreak(t, s, p)
    ensures LineStartOf(t, p) == s
    decreases p
  {
    if s < p {
      SameStart(t, s, p - 1);
    }
  }

  /** Upwards: nothing in the first row, otherwise one row up, to the old column or the end of a shorter line. */
  lemma {:induction false} MoveUpIsOneRow(t: seq<byte>, cursor: nat)
    requires cursor <= |t|
    ensures RowOf(t, cursor) == 0 ==> Moved(t, cursor, -1) == cursor
    ensures RowOf(t, cursor) > 0 ==> InOldColumn(t, cursor, Moved(t, cursor, -1), RowOf(t, cursor) - 1)
  {
    hide LineStartOf, LineEndOf, RowOf, InLine;
    var start := LineStartOf(t, cursor);
    NoBreakNoRow(t, start, cursor);
    if start > 0 {
      LineAbove(t, start, cursor - start);
    } else {
      RowZero(t);
    }
  }

  /** Downwards: nothing in the last row, otherwise one row down, likewise. */
  lemma {:induction false} MoveDownIsOneRow(t: seq<byte>, cursor: nat)
    requires cursor <= |t|
    ensures RowOf(t, cursor) == RowOf(t, |t|) ==> Moved(t, cursor, 1) == cursor
    ensures RowOf(t, cursor) < RowOf(t, |t|) ==> InOldColumn(t, cursor, Moved(t, cursor, 1), RowOf(t, cursor) + 1)
    ensures RowOf(t, cursor) <= RowOf(t, |t|)
  {
    hide LineStartOf, LineEndOf, RowOf;
    var start := LineStartOf(t, cursor);
    var end := LineEndOf(t, start);
    NoBreakNoRow(t, start, cursor);
    NoBreakNoRow(t, start, end);
    RowMonotone(t, cursor, |t|);
    if end < |t| {
      BreakEndsRow(t, end);
      RowMonotone(t, end + 1, |t|);
      InLineStays(t, end + 1, cursor - start);
    }
  }

  lemma MovedUp(t: seq<byte>, cursor: nat, direction: int)
    requires cursor <= |t| && direction < 0
    ensures var start := LineStartOf(t, cursor);
            && (start == 0 ==> Moved(t, cursor, direction) == cursor)
            && (start > 0 ==> Moved(t, cursor, direction) == Min(LineStartOf(t, start - 1) + (cursor - start), start - 1))
  {
    var start := LineStartOf(t, cursor);
    if start > 0 {
      LineEndsAt(t, LineStartOf(t, start - 1), start - 1);
    }
  }

  lemma MovedDown(t: seq<byte>, cursor: nat, direction: int)
    requires cursor <= |t| && direction >= 0
    ensures var start := LineStartOf(t, cursor);
            var end := LineEndOf(t, start);
            && (end == |t| ==> Moved(t, cursor, direction) == cursor)
            && (end < |t| ==> Moved(t, cursor, direction) == Min(end + 1 + (cursor - start), LineEndOf(t, end + 1)))
  {
  }

  lemma LineAbove(t: seq<byte>, start: nat, column: nat)
    requires 0 < start <= |t| && t[start - 1] == NEWLINE
    ensures var up := LineStartOf(t, start - 1);
            var p := InLine(t, up, column);
            && RowOf(t, p) + 1 == RowOf(t, start) && LineStartOf(t, p) == up
            && p - up == Min(column, LineEndOf(t, up) - up)
  {
    hide LineStartOf, LineEndOf, RowOf, InLine;
    var up := LineStartOf(t, start - 1);
    BreakEndsRow(t, start - 1);
    NoBreakNoRow(t, up, start - 1);
    InLineStays(t, up, column);
  }

  lemma BreakEndsRow(t: seq<byte>, at: nat)
    requires at < |t| && t[at] == NEWLINE
    ensures RowOf(t, at + 1) == RowOf(t, at) + 1
  {
  }

  lemma RowZero(t: seq<byte>)
    ensures RowOf(t, 0) == 0
  {
  }

  /** `p` is in row `row`, in the column `cursor` had, or at the end of a line too short for that. */
  predicate InOldColumn(t: seq<byte>, cursor: nat, p: nat, row: nat)
    requires cursor <= |t|
  {
    && p <= |t| && RowOf(t, p) == row
    && p - LineStartOf(t, p) == Min(cursor - LineStartOf(t, cursor), LineEndOf(t, LineStartOf(t, p)) - LineStartOf(t, p))
  }

  // ------------------------------------------------------------------------- edits

  function Inserted(t: seq<byte>, at: nat, c: byte): seq<byte>
    requires at <= |t|
  {
    t[..at] + [c] + t[at..]
  }

  /** A line feed typed starts the next row; any other character goes one column further in the same row. */
  lemma TypedMoves(t: seq<byte>, at: nat, c: byte)
    requires at <= |t|
    ensures var u := Inserted(t, at, c);
            if c as int == '\n' as int then RowOf(u, at + 1) == RowOf(t, at) + 1 && LineStartOf(u, at + 1) == at + 1
            else RowOf(u, at + 1) == RowOf(t, at) && LineStartOf(u, at + 1) == LineStartOf(t, at)
  {
    var u := Inserted(t, at, c);
    assert u[at] == c;
    SameBefore(t, u, at);
  }

  lemma {:induction false} SameBefore(t: seq<byte>, u: seq<byte>, pos: nat)
    requires pos <= |t| && pos <= |u| && forall k :: 0 <= k < pos ==> t[k] == u[k]
    ensures RowOf(t, pos) == RowOf(u, pos) && LineStartOf(t, pos) == LineStartOf(u, pos)
  {
    if pos > 0 {
      SameBefore(t, u, pos - 1);
    }
  }

  function Removed(t: seq<byte>, at: nat): seq<byte>
    requires at < |t|
  {
    t[..at] + t[at + 1..]
  }

  /** Taking out what was just put in restores the text. */
  lemma RemoveUndoesInsert(t: seq<byte>, at: nat, c: byte)
    requires at <= |t|
    ensures Removed(Inserted(t, at, c), at) == t
  {
    assert Inserted(t, at, c)[..at] == t[..at];
    assert Inserted(t, at, c)[at + 1..] == t[at..];
    assert t[..at] + t[at..] == t;
  }

  // ------------------------------------------------------------------------ buffer

  predicate NulFree(t: seq<byte>) {
    forall k :: 0 <= k < |t| ==> t[k] != 0
  }

  class Buffer {
    const buf: array<byte>
    var len: nat
    var cursor: nat
    var topRow: nat

    ghost predicate Valid()
      reads this, buf
    {
      && buf.Length == 4096 && len < 4096 && cursor <= len && buf[len] == 0 && NulFree(Text())
    }

    ghost function Text(): seq<byte>
      reads this, buf
      requires len <= buf.Length
    {
      buf[..len]
    }

    constructor ()
      ensures Valid() && Text() == [] && cursor == 0 && fresh(buf)
    {
      buf := new byte[4096](_ => 0);
      len, cursor, topRow := 0, 0, 0;
    }

    method LineStart(pos0: nat) returns (pos: nat)
      requires Valid()
      ensures pos == LineStartOf(Text(), if pos0 > len then len else pos0)
    {
      pos := pos0;
      if pos > len {
        pos := len;
      }
      while pos > 0 && buf[pos - 1] != NEWLINE
        invariant pos <= len && LineStartOf(Text(), pos) == LineStartOf(Text(), if pos0 > len then len else pos0)
      {
        pos := pos - 1;
      }
    }

    method LineEnd(pos0: nat) returns (pos: nat)
      requires Valid()
      ensures pos == LineEndOf(Text(), if pos0 > len then len else pos0)
    {
      pos := pos0;
      if pos > len {
        pos := len;
      }
      while pos < len && buf[pos] != NEWLINE
        invariant pos <= len && LineEndOf(Text(), pos) == LineEndOf(Text(), if pos0 > len then len else pos0)
      {
        pos := pos + 1;
      }
    }

    method CursorRow(pos: nat) returns (row: nat)
      requires Valid() && pos <= len
      ensures row == RowOf(Text(), pos)
    {
      row := 0;
      var i: nat := 0;
      while i < pos && buf[i] != 0
        invariant i <= pos && row == RowOf(Text(), i)
      {
        if buf[i] == NEWLINE {
          row := row + 1;
        }
        i := i + 1;
      }
    }

    method FindRowStart(target: nat) returns (pos: nat)
      requires Valid()
      ensures pos == WalkToRow(Text(), 0, 0, target)
    {
      var row: nat := 0;
      pos := 0;
      while pos < len && row < target
        invariant pos <= len && WalkToRow(Text(), pos, row, target) == WalkToRow(Text(), 0, 0, target)
      {
        if buf[pos] == NEWLINE {
          row := row + 1;
        }
        pos := pos + 1;
      }
    }

    /** editor_insert_char: nothing happens when the buffer is full. */
    method InsertChar(c: byte)
      requires Valid() && c != 0
      modifies this`len, this`cursor, buf
      ensures Valid()
      ensures old(len) + 1 >= 4096 ==> Text() == old(Text()) && cursor == old(cursor)
      ensures old(len) + 1 < 4096 ==> Text() == Inserted(old(Text()), old(cursor), c) && cursor == old(cursor) + 1
    {
      hide NulFree, Inserted;
      if len + 1 >= 4096 {
        return;
      }
      var i := len;
      while i > cursor
        invariant cursor <= i <= len && len == old(len) && cursor == old(cursor)
        invariant forall k :: 0 <= k <= i && k < len ==> buf[k] == old(buf[k])
        invariant forall k :: i < k <= len ==> buf[k] == old(buf[k - 1])
      {
        buf[i] := buf[i - 1];
        i := i - 1;
      }
      buf[cursor] := c;
      len := len + 1;
      cursor := cursor + 1;
      buf[len] := 0;
      InsertedKeeps(old(Text()), old(cursor), c, Text());
    }

    /** The shift both deletions share: the text closes over position `at`. */
    method CloseOver(at: nat)
      requires Valid() && at < len
      modifies this`len, buf
      ensures len == old(len) - 1 && buf[len] == 0 && Text() == Removed(old(Text()), at)
    {
      var i := at;
      while i < len
        invariant at <= i <= len && len == old(len)
        invariant forall k :: 0 <= k < at ==> buf[k] == old(buf[k])
        invariant forall k :: at <= k < i ==> buf[k] == old(buf[k + 1])
        invariant forall k :: i <= k <= len ==> buf[k] == old(buf[k])
      {
        buf[i] := buf[i + 1];
        i := i + 1;
      }
      len := len - 1;
      buf[len] := 0;
    }

    method Backspace()
      requires Valid()
      modifies this`len, this`cursor, buf
      ensures Valid()
      ensures old(cursor) == 0 ==> Text() == old(Text()) && cursor == 0
      ensures old(cursor) > 0 ==> Text() == Removed(old(Text()), old(cursor) - 1) && cursor == old(cursor) - 1
    {
      if cursor == 0 {
        return;
      }
      CloseOver(cursor - 1);
      cursor := cursor - 1;
      RemovedKeeps(old(Text()), cursor, Text());
    }

    method Delete()
      requires Valid()
      modifies this`len, buf
      ensures Valid() && cursor == old(cursor)
      ensures old(cursor) >= old(len) ==> Text() == old(Text())
      ensures old(cursor) < old(len) ==> Text() == Removed(old(Text()), cursor)
    {
      if cursor >= len {
        return;
      }
      CloseOver(cursor);
      RemovedKeeps(old(Text()), cursor, Text());
    }

    /** editor_move_vertical: where the cursor goes is `Moved`. */
    method MoveVertical(direction: int)
      requires Valid()
      modifies this`cursor
      ensures Valid() && Text() == old(Text()) && cursor == Moved(Text(), old(cursor), direction)
    {
      hide LineStartOf, LineEndOf, InLine, Moved, NulFree, NoBreak;
      var currentStart := LineStart(cursor);
      var currentCol: nat := cursor - currentStart;
      var targetStart: nat, targetEnd: nat;
      ghost var t := Text();
      if direction < 0 {
        MovedUp(t, cursor, direction);
        if currentStart == 0 {
          return;
        }
        targetEnd := currentStart - 1;
        targetStart := LineStart(targetEnd);
      } else {
        MovedDown(t, cursor, direction);
        targetEnd := LineEnd(currentStart);
        if targetEnd >= len {
          return;
        }
        targetStart := targetEnd + 1;
        targetEnd := LineEnd(targetStart);
      }
      var target: nat := targetStart + currentCol;
      if target > targetEnd {
        target := targetEnd;
      }
      assert target == Moved(t, cursor, direction);
      cursor := target;
    }

    /** editor_scroll_to_cursor: the cursor's row is visible, and the view has moved no further than needed. */
    method ScrollToCursor(windowHeight: int)
      requires Valid()
      modifies this`topRow
      ensures Valid() && Text() == old(Text())
      ensures var row, rows := RowOf(Text(), cursor), VisibleRows(windowHeight);
              && topRow <= row < topRow + rows
              && (old(topRow) <= row < old(topRow) + rows ==> topRow == old(topRow))
              && (row < old(topRow) ==> topRow == row)
              && (row >= old(topRow) + rows ==> topRow + rows == row + 1)
              && (64 + 16 <= windowHeight - 30 ==> 64 + 16 * (row - topRow + 1) <= windowHeight - 30)
    {
      var row := CursorRow(cursor);
      var rows := VisibleRows(windowHeight);
      if row < topRow {
        topRow := row;
      }
      if row >= topRow + rows {
        topRow := row - rows + 1;
      }
    }
  }

  /**
   * Text rows in a window: as many of sixteen pixels as fit between the header's 64 and the status bar's 30,
   * and one if none does.
   */
  function VisibleRows(windowHeight: int): (n: nat)
    ensures 64 + 16 <= windowHeight - 30 ==> 64 + 16 * n <= windowHeight - 30 < 64 + 16 * (n + 1)
    ensures 64 + 16 > windowHeight - 30 ==> n == 1
  {
    if windowHeight - 94 < 16 then 1 else (windowHeight - 94) / 16
  }

  /** Where the `r`th row shown is drawn: four pixels below the header. */
  function RowTop(r: nat): int {
    68 + 16 * r
  }

  /** The four pixels make the status bar cover the foot of the last row, unless that many are left over. */
  lemma LastRowClear(windowHeight: int)
    requires 64 + 16 <= windowHeight - 30
    ensures (forall r: nat :: r < VisibleRows(windowHeight) ==> RowTop(r) + 16 <= windowHeight - 30)
       <==> (windowHeight - 94) % 16 >= 4
    ensures forall r: nat :: r + 1 < VisibleRows(windowHeight) ==> RowTop(r) + 16 <= windowHeight - 30
  {
    var last := VisibleRows(windowHeight) - 1;
    assert RowTop(last) + 16 == 68 + 16 * VisibleRows(windowHeight);
  }

  lemma InsertedKeeps(t: seq<byte>, at: nat, c: byte, u: seq<byte>)
    requires at <= |t| && |u| == |t| + 1 && NulFree(t) && c != 0 && u[at] == c
    requires forall k :: 0 <= k < at ==> u[k] == t[k]
    requires forall k :: at < k < |u| ==> u[k] == t[k - 1]
    ensures u == Inserted(t, at, c) && NulFree(u)
  {
    forall k | 0 <= k < |u| ensures u[k] == Inserted(t, at, c)[k] && u[k] != 0 {
    }
  }

  lemma RemovedKeeps(t: seq<byte>, at: nat, u: seq<byte>)
    requires at < |t| && u == Removed(t, at) && NulFree(t)
    ensures NulFree(u)
  {
  }

  lemma {:induction false} LineEndsAt(t: seq<byte>, s: nat, e: nat)
    requires s <= e <= |t| && (e == |t| || t[e] == NEWLINE) && NoBreak(t, s, e)
    ensures LineEndOf(t, s) == e
    decreases e - s
  {
    if s < e {
      LineEndsAt(t, s + 1, e);
    }
  }
}
