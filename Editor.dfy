/** The global editor state `E` and the operations that update it in place:
    scrolling, cursor movement, key dispatch, drawing a frame, appending
    rows and loading a file. Each method is proved against the functions of
    Output, Input and FileIO that say what it computes. */
module Editor {
  import opened Bytes
  import opened Terminal
  import opened Abuf
  import opened Output
  import opened Input
  import opened FileIO

  /** `struct editorConfig`: cursor, scroll offset, screen size and rows. */
  class EditorConfig {
    var cx: int
    var cy: int
    var rowoff: int
    var screenrows: int
    var screencols: int
    var numrows: int
    var row: seq<seq<byte>>

    /** The cursor row may be one past the last file row; the scroll offset
        is never negative; `numrows` counts the rows. */
    ghost predicate Valid()
      reads this
    {
      && numrows == |row|
      && 0 <= screenrows && 0 <= screencols
      && InBounds(Cursor(cx, cy), screencols, numrows)
      && 0 <= rowoff
    }

    /** initEditor, given the window size getWindowSize reported. */
    constructor (rows: int, cols: int)
      requires 0 <= rows && 0 <= cols
      ensures Valid()
      ensures cx == 0 && cy == 0 && rowoff == 0 && numrows == 0 && row == []
      ensures screenrows == rows && screencols == cols
    {
      cx, cy, rowoff := 0, 0, 0;
      numrows, row := 0, [];
      screenrows, screencols := rows, cols;
    }

    /** editorScroll. */
    method Scroll()
      modifies this`rowoff
      ensures rowoff == ScrollOffset(old(rowoff), cy, screenrows)
      ensures screenrows >= 1 ==> rowoff <= cy < rowoff + screenrows
      ensures old(Valid()) ==> Valid()
    {
      if cy < rowoff {
        rowoff := cy;
      }
      if cy >= rowoff + screenrows {
        rowoff := cy - screenrows + 1;
      }
    }

    /** editorMoveCursor. */
    method MoveCursor(key: KeyEvent)
      modifies this`cx, this`cy
      ensures Cursor(cx, cy) == Move(Cursor(old(cx), old(cy)), key, screencols, numrows)
      ensures old(Valid()) ==> Valid()
    {
      match key {
        case ArrowLeft =>
          if cx != 0 {
            cx := cx - 1;
          }
        case ArrowRight =>
          if cx != screencols - 1 {
            cx := cx + 1;
          }
        case ArrowUp =>
          if cy != 0 {
            cy := cy - 1;
          }
        case ArrowDown =>
          if cy < numrows {
            cy := cy + 1;
          }
        case _ =>
      }
    }

    /** editorProcessKeypress for a key already read: `quit` is Ctrl-Q,
        which makes the source clear the screen and exit. */
    method ProcessKeypress(key: KeyEvent) returns (quit: bool)
      requires 0 <= screenrows
      modifies this`cx, this`cy
      ensures var r := Dispatch(Cursor(old(cx), old(cy)), key, screenrows, screencols, numrows);
              (quit <==> r.Quit?) && (r.Continue? ==> Cursor(cx, cy) == r.cursor)
      ensures quit ==> cx == old(cx) && cy == old(cy)
      ensures old(Valid()) ==> Valid()
    {
      quit := false;
      if key == Literal(QuitByte) {
        quit := true;
      } else if key == HomeKey {
        cx := 0;
      } else if key == EndKey {
        cx := screencols - 1;
      } else if key == PageUp || key == PageDown {
        var dir := if key == PageUp then ArrowUp else ArrowDown;
        var times := screenrows;
        while times > 0
          invariant 0 <= times <= screenrows
          invariant RepeatMove(Cursor(cx, cy), dir, times, screencols, numrows)
                 == RepeatMove(Cursor(old(cx), old(cy)), dir, screenrows, screencols, numrows)
          invariant old(Valid()) ==> Valid()
        {
          MoveCursor(dir);
          times := times - 1;
        }
      } else if IsArrow(key) {
        MoveCursor(key);
      }
    }

    /** editorDrawRows: appends the screen rows to `ab`. */
    method DrawRows(ab: AppendBuffer)
      requires Valid() && ab.Valid()
      modifies ab
      ensures ab.Valid()
      ensures ab.Contents() == old(ab.Contents()) + DrawnRows(row, rowoff, screenrows, screencols, screenrows)
    {
      var y := 0;
      while y < screenrows
        invariant 0 <= y <= screenrows
        invariant ab.Valid()
        invariant ab.Contents() == old(ab.Contents()) + DrawnRows(row, rowoff, screenrows, screencols, y)
      {
        DrawRow(ab, y);
        AppendAssoc(old(ab.Contents()), DrawnRows(row, rowoff, screenrows, screencols, y),
                    Segment(row, rowoff, y, screenrows, screencols));
        y := y + 1;
      }
    }

    /** One pass of the loop in editorDrawRows: screen row `y`. */
    method DrawRow(ab: AppendBuffer, y: nat)
      requires Valid() && ab.Valid()
      modifies ab
      ensures ab.Valid()
      ensures ab.Contents() == old(ab.Contents()) + Segment(row, rowoff, y, screenrows, screencols)
    {
      ghost var start := ab.Contents();
      ghost var text := RowText(row, rowoff, y, screenrows, screencols);
      DrawRowText(ab, y);
      ab.Append(EraseLine, 3);
      assert EraseLine[..3] == EraseLine;
      AppendAssoc(start, text, EraseLine);
      ghost var tail: seq<byte> := [];
      if y < screenrows - 1 {
        ab.Append(CrLf, 2);
        assert CrLf[..2] == CrLf;
        tail := CrLf;
      }
      assert ab.Contents() == start + (text + EraseLine) + tail;
      AppendAssoc(start, text + EraseLine, tail);
    }

    /** The text of screen row `y`: the file row it shows cut to the screen
        width, or the banner, or `~` past the end of the file. */
    method DrawRowText(ab: AppendBuffer, y: nat)
      requires Valid() && ab.Valid()
      modifies ab
      ensures ab.Valid()
      ensures ab.Contents() == old(ab.Contents()) + RowText(row, rowoff, y, screenrows, screencols)
    {
      var filerow := y + rowoff;
      if filerow >= numrows {
        if numrows == 0 && y == screenrows / 3 {
          DrawBanner(ab, Welcome, screencols);
        } else {
          ab.Append([TILDE], 1);
        }
      } else {
        var len := |row[filerow]|;
        if len > screencols {
          len := screencols;
        }
        ab.Append(row[filerow], len);
      }
    }

    /** The welcome-banner branch of editorDrawRows, for the message `msg`. */
    static method DrawBanner(ab: AppendBuffer, msg: seq<byte>, screencols: nat)
      requires ab.Valid()
      modifies ab
      ensures ab.Valid()
      ensures ab.Contents() == old(ab.Contents()) + BannerLine(msg, screencols)
    {
      var msglen := |msg|;
      if msglen > screencols {
        msglen := screencols;
      }
      var padding := (screencols - msglen) / 2;
      ghost var start := ab.Contents();
      AppendPadding(ab, padding);
      ab.Append(msg, msglen);
      AppendAssoc(start, Padding(padding), msg[..msglen]);
    }

    /** The centring padding before the banner: '~' and then spaces. */
    static method AppendPadding(ab: AppendBuffer, padding: nat)
      requires ab.Valid()
      modifies ab
      ensures ab.Valid()
      ensures ab.Contents() == old(ab.Contents()) + Padding(padding)
    {
      var left := padding;
      ghost var lead: seq<byte> := [];
      if left != 0 {
        ab.Append([TILDE], 1);
        lead := [TILDE];
        left := left - 1;
      }
      ghost var spaces := left;
      while left > 0
        invariant 0 <= left <= spaces
        invariant ab.Valid()
        invariant ab.Contents() == old(ab.Contents()) + lead + Spaces(spaces - left)
      {
        ghost var done := Spaces(spaces - left);
        ab.Append([SPACE], 1);
        assert done + [SPACE] == Spaces(spaces - left + 1);
        AppendAssoc(old(ab.Contents()) + lead, done, [SPACE]);
        left := left - 1;
      }
      assert lead + Spaces(spaces) == Padding(padding);
      AppendAssoc(old(ab.Contents()), lead, Spaces(spaces));
    }

    /** editorRefreshScreen: scrolls, then assembles the whole frame, which
        the source writes to the terminal in one call. */
    method RefreshScreen() returns (frame: seq<byte>)
      requires Valid()
      modifies this`rowoff
      ensures Valid()
      ensures rowoff == ScrollOffset(old(rowoff), cy, screenrows)
      ensures frame == Frame(row, cx, cy, rowoff, screenrows, screencols)
    {
      Scroll();
      frame := ComposeFrame();
    }

    /** The frame for the current state: hide the cursor, draw the rows,
        place the cursor and show it again. */
    method ComposeFrame() returns (frame: seq<byte>)
      requires Valid()
      ensures frame == Frame(row, cx, cy, rowoff, screenrows, screencols)
    {
      var ab := BeginFrame();
      DrawRows(ab);
      EndFrame(ab);
      frame := ab.Data();
    }

    /** The start of a frame: hide the cursor and send it home. */
    static method BeginFrame() returns (ab: AppendBuffer)
      ensures fresh(ab) && ab.Valid()
      ensures ab.Contents() == HideCursor + CursorHome
    {
      ab := new AppendBuffer();
      ab.Append(HideCursor, 6);
      ab.Append(CursorHome, 3);
    }

    /** The end of a frame: place the cursor and show it again. */
    method EndFrame(ab: AppendBuffer)
      requires ab.Valid()
      modifies ab
      ensures ab.Valid()
      ensures ab.Contents() == old(ab.Contents()) + CursorCommand(cy - rowoff + 1, cx + 1) + ShowCursor
    {
      var buf := CursorCommand((cy - rowoff) + 1, cx + 1);
      ab.Append(buf, |buf|);
      assert buf[..|buf|] == buf;
      ab.Append(ShowCursor, 6);
    }

    /** editorAppendRow: adds a copy of the first `len` bytes of `s` as the
        last row. */
    method AppendRow(s: seq<byte>, len: nat)
      requires len <= |s|
      modifies this`row, this`numrows
      ensures row == old(row) + [s[..len]]
      ensures numrows == old(numrows) + 1
      ensures old(Valid()) ==> Valid()
    {
      row := row + [s[..len]];
      numrows := numrows + 1;
    }

    /** editorOpen on a file with these bytes: every line `getline` returns
        is stripped of its trailing '\n' and '\r' bytes and appended. */
    method Open(content: seq<byte>)
      modifies this`row, this`numrows
      ensures row == old(row) + LoadedRows(content)
      ensures numrows == old(numrows) + |LoadedRows(content)|
      ensures old(Valid()) ==> Valid()
    {
      var lines := GetLines(content);
      ghost var loaded := LoadedRows(content);
      var i := 0;
      while i < |lines|
        invariant 0 <= i <= |lines|
        invariant row == old(row) + loaded[..i]
        invariant numrows == old(numrows) + i
        invariant old(Valid()) ==> Valid()
      {
        var linelen := StripLength(lines[i]);
        AppendRow(lines[i], linelen);
        assert loaded[..i + 1] == loaded[..i] + [loaded[i]];
        i := i + 1;
      }
      assert loaded[..|lines|] == loaded;
    }
  }

  /** Whatever file was opened, the frame drawn for it holds exactly
      screenrows - 1 LF bytes: loading strips every LF from the rows. */
  lemma OpenedFileFrameLineFeeds(content: seq<byte>, cx: int, cy: int, rowoff: nat, screenrows: nat, screencols: nat)
    ensures Count(Frame(LoadedRows(content), cx, cy, rowoff, screenrows, screencols), LF)
         == if screenrows > 0 then screenrows - 1 else 0
  {
    LoadedRowsHaveNoLineFeed(content);
    FrameLineFeeds(LoadedRows(content), cx, cy, rowoff, screenrows, screencols);
  }
}
