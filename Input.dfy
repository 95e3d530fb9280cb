/** Keypress handling: moving the cursor (editorMoveCursor) and dispatching
    a decoded key (editorProcessKeypress), as functions of the cursor, the
    screen width and height, and the number of file rows. */
module Input {
  import opened Bytes
  import opened Terminal
  import opened Output

  /** The cursor: column `cx` and file row `cy`. */
  datatype Cursor = Cursor(cx: int, cy: int)

  /** What a keypress leads to: the editor quits, or goes on with a cursor. */
  datatype Outcome = Quit | Continue(cursor: Cursor)

  predicate IsArrow(key: KeyEvent) {
    key == ArrowLeft || key == ArrowRight || key == ArrowUp || key == ArrowDown
  }

  /** Where the cursor may be: on a file row or the row just past the last
      one, and, on a screen at least one column wide, inside its width. */
  predicate InBounds(c: Cursor, screencols: int, numrows: int) {
    && 0 <= c.cy <= numrows
    && (screencols >= 1 ==> 0 <= c.cx < screencols)
  }

  /** editorMoveCursor: one clamped step for an arrow key. */
  function Move(c: Cursor, key: KeyEvent, screencols: int, numrows: int): (r: Cursor)
    ensures !IsArrow(key) ==> r == c
    ensures key == ArrowLeft || key == ArrowRight ==> r.cy == c.cy
    ensures key == ArrowUp || key == ArrowDown ==> r.cx == c.cx
    ensures key == ArrowLeft ==> r.cx == c.cx || r.cx == c.cx - 1
    ensures key == ArrowRight ==> r.cx == c.cx || r.cx == c.cx + 1
    ensures key == ArrowUp ==> r.cy == c.cy || r.cy == c.cy - 1
    ensures key == ArrowDown ==> r.cy == c.cy || r.cy == c.cy + 1
    ensures InBounds(c, screencols, numrows) ==> InBounds(r, screencols, numrows)
  {
    match key
    case ArrowLeft => if c.cx != 0 then c.(cx := c.cx - 1) else c
    case ArrowRight => if c.cx != screencols - 1 then c.(cx := c.cx + 1) else c
    case ArrowUp => if c.cy != 0 then c.(cy := c.cy - 1) else c
    case ArrowDown => if c.cy < numrows then c.(cy := c.cy + 1) else c
    case _ => c
  }

  /** Where each arrow stops: left and up at 0, right at the last screen
      column, down at the row just past the last file row. Inside those
      limits each arrow moves by exactly one. */
  lemma MoveClamps(c: Cursor, screencols: int, numrows: int)
    requires InBounds(c, screencols, numrows)
    ensures screencols >= 1 ==> Move(c, ArrowLeft, screencols, numrows).cx == Max(0, c.cx - 1)
    ensures screencols >= 1 ==> Move(c, ArrowRight, screencols, numrows).cx == Min(screencols - 1, c.cx + 1)
    ensures Move(c, ArrowUp, screencols, numrows).cy == Max(0, c.cy - 1)
    ensures Move(c, ArrowDown, screencols, numrows).cy == Min(numrows, c.cy + 1)
  {
  }

  /** The `while (times--)` loop of Page Up and Page Down: `times` moves. */
  function RepeatMove(c: Cursor, key: KeyEvent, times: nat, screencols: int, numrows: int): (r: Cursor)
    ensures key == ArrowUp || key == ArrowDown ==> r.cx == c.cx
    ensures InBounds(c, screencols, numrows) ==> InBounds(r, screencols, numrows)
    decreases times
  {
    if times == 0 then c
    else RepeatMove(Move(c, key, screencols, numrows), key, times - 1, screencols, numrows)
  }

  /** `times` Up moves take the cursor `times` rows up, but not above row 0. */
  lemma {:induction false} RepeatUpLandsAt(c: Cursor, times: nat, screencols: int, numrows: int)
    requires c.cy >= 0
    ensures RepeatMove(c, ArrowUp, times, screencols, numrows) == Cursor(c.cx, Max(0, c.cy - times))
    decreases times
  {
    if times > 0 {
      RepeatUpLandsAt(Move(c, ArrowUp, screencols, numrows), times - 1, screencols, numrows);
    }
  }

  /** `times` Down moves take the cursor `times` rows down, but not past the
      row just after the last file row. */
  lemma {:induction false} RepeatDownLandsAt(c: Cursor, times: nat, screencols: int, numrows: int)
    requires c.cy <= numrows
    ensures RepeatMove(c, ArrowDown, times, screencols, numrows) == Cursor(c.cx, Min(numrows, c.cy + times))
    decreases times
  {
    if times > 0 {
      RepeatDownLandsAt(Move(c, ArrowDown, screencols, numrows), times - 1, screencols, numrows);
    }
  }

  /** editorProcessKeypress after the key is read. */
  function Dispatch(c: Cursor, key: KeyEvent, screenrows: nat, screencols: int, numrows: int): (r: Outcome)
    ensures r.Quit? <==> key == Literal(QuitByte)
    ensures key == HomeKey ==> r == Continue(Cursor(0, c.cy))
    ensures key == EndKey ==> r == Continue(Cursor(screencols - 1, c.cy))
    ensures key == PageUp || key == PageDown || key == ArrowUp || key == ArrowDown ==> r.Continue? && r.cursor.cx == c.cx
    ensures key == ArrowLeft || key == ArrowRight ==> r.Continue? && r.cursor.cy == c.cy
    ensures IsArrow(key) ==> r == Continue(Move(c, key, screencols, numrows))
    ensures !IsArrow(key) && key !in {HomeKey, EndKey, PageUp, PageDown, Literal(QuitByte)} ==> r == Continue(c)
  {
    if key == Literal(QuitByte) then Quit
    else if key == HomeKey then Continue(c.(cx := 0))
    else if key == EndKey then Continue(c.(cx := screencols - 1))
    else if key == PageUp then Continue(RepeatMove(c, ArrowUp, screenrows, screencols, numrows))
    else if key == PageDown then Continue(RepeatMove(c, ArrowDown, screenrows, screencols, numrows))
    else Continue(Move(c, key, screencols, numrows))
  }

  /** Page Up and Page Down move the cursor a screen height, clamped to
      the rows the cursor may reach. */
  lemma PageKeysLandAt(c: Cursor, screenrows: nat, screencols: int, numrows: int)
    requires InBounds(c, screencols, numrows)
    ensures Dispatch(c, PageUp, screenrows, screencols, numrows) == Continue(Cursor(c.cx, Max(0, c.cy - screenrows)))
    ensures Dispatch(c, PageDown, screenrows, screencols, numrows) == Continue(Cursor(c.cx, Min(numrows, c.cy + screenrows)))
  {
    RepeatUpLandsAt(c, screenrows, screencols, numrows);
    RepeatDownLandsAt(c, screenrows, screencols, numrows);
  }

  /** No key takes the cursor out of bounds. (On a screen with no columns,
      End sets the column to -1; the bounds say nothing of the column there.) */
  lemma DispatchKeepsBounds(c: Cursor, key: KeyEvent, screenrows: nat, screencols: int, numrows: int)
    requires InBounds(c, screencols, numrows)
    ensures var r := Dispatch(c, key, screenrows, screencols, numrows);
            r.Continue? ==> InBounds(r.cursor, screencols, numrows)
  {
    PageKeysLandAt(c, screenrows, screencols, numrows);
  }

  /** The keys of a session, one after the other, until Ctrl-Q: the session
      ends exactly when Ctrl-Q is among the keys. */
  function DispatchAll(c: Cursor, keys: seq<KeyEvent>, screenrows: nat, screencols: int, numrows: int): (r: Outcome)
    ensures r.Quit? <==> Literal(QuitByte) in keys
    decreases |keys|
  {
    if keys == [] then Continue(c)
    else match Dispatch(c, keys[0], screenrows, screencols, numrows)
      case Quit => Quit
      case Continue(next) => DispatchAll(next, keys[1..], screenrows, screencols, numrows)
  }

  /** After any sequence of keys and then a scroll, the cursor is on a row
      it may reach and inside the window: rowoff <= cy < rowoff + screenrows,
      with rowoff between 0 and the number of file rows. */
  lemma {:induction false} KeysThenScroll(c: Cursor, keys: seq<KeyEvent>, rowoff: nat, screenrows: nat, screencols: int, numrows: int)
    requires InBounds(c, screencols, numrows) && screenrows >= 1
    ensures var r := DispatchAll(c, keys, screenrows, screencols, numrows);
            r.Continue? ==>
              && InBounds(r.cursor, screencols, numrows)
              && var top := ScrollOffset(rowoff, r.cursor.cy, screenrows);
                 0 <= top <= r.cursor.cy < top + screenrows && top <= numrows
    decreases |keys|
  {
    if keys != [] {
      DispatchKeepsBounds(c, keys[0], screenrows, screencols, numrows);
      var first := Dispatch(c, keys[0], screenrows, screencols, numrows);
      if first.Continue? {
        KeysThenScroll(first.cursor, keys[1..], rowoff, screenrows, screencols, numrows);
      }
    }
  }

  /** 100 file rows, cursor on row 50, a 24-row window from row 40:
      Page Down takes the cursor to row 74 and the window to start at 51. */
  lemma PageDownScenario()
    ensures Dispatch(Cursor(0, 50), PageDown, 24, 80, 100) == Continue(Cursor(0, 74))
    ensures ScrollOffset(40, 74, 24) == 51
  {
    PageKeysLandAt(Cursor(0, 50), 24, 80, 100);
  }

  /** On row 0, Up leaves the cursor on row 0. */
  lemma UpAtTopScenario(cx: int, screenrows: nat, screencols: int, numrows: int)
    ensures Dispatch(Cursor(cx, 0), ArrowUp, screenrows, screencols, numrows) == Continue(Cursor(cx, 0))
  {
  }
}
