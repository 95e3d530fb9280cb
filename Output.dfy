/** The screen side of the editor: the scroll rule that keeps the cursor
    row in the window (editorScroll) and the bytes of one frame
    (editorDrawRows and the frame editorRefreshScreen assembles). */
module Output {
  import opened Bytes

  /** editorScroll: the first file row shown once the cursor row `cy` is
      brought into the window of `screenrows` rows starting at `rowoff`. */
  function ScrollOffset(rowoff: int, cy: int, screenrows: int): (r: int)
    ensures screenrows >= 1 ==> r <= cy < r + screenrows
    ensures rowoff <= cy < rowoff + screenrows ==> r == rowoff
    ensures rowoff >= 0 && cy >= 0 ==> r >= 0
  {
    var top := if cy < rowoff then cy else rowoff;
    if cy >= top + screenrows then cy - screenrows + 1 else top
  }

  /** Scrolling twice is scrolling once. */
  lemma ScrollIdempotent(rowoff: int, cy: int, screenrows: int)
    ensures ScrollOffset(ScrollOffset(rowoff, cy, screenrows), cy, screenrows)
         == ScrollOffset(rowoff, cy, screenrows)
  {
  }

  /** The window moves no further than any other window that shows the
      cursor row would: scrolling is lazy. */
  lemma ScrollMovesLeast(rowoff: int, cy: int, screenrows: int, other: int)
    requires screenrows >= 1
    requires other <= cy < other + screenrows
    ensures var r := ScrollOffset(rowoff, cy, screenrows);
            (if r <= rowoff then rowoff - r else r - rowoff)
              <= (if other <= rowoff then rowoff - other else other - rowoff)
  {
  }

  /** The banner text, "Kilo editor -- version " followed by KILO_VERSION,
      "0.0.1", in ASCII. */
  const Welcome: seq<byte> :=
    [0x4B, 0x69, 0x6C, 0x6F, 0x20, 0x65, 0x64, 0x69, 0x74, 0x6F, 0x72, 0x20, 0x2D, 0x2D,
     0x20, 0x76, 0x65, 0x72, 0x73, 0x69, 0x6F, 0x6E, 0x20, 0x30, 0x2E, 0x30, 0x2E, 0x31]

  const EraseLine: seq<byte> := [ESC, LBRACKET, 0x4B]                    // ESC [ K
  const CrLf: seq<byte> := [CR, LF]
  const HideCursor: seq<byte> := [ESC, LBRACKET, 0x3F, 0x32, 0x35, 0x6C]  // ESC [ ? 2 5 l
  const ShowCursor: seq<byte> := [ESC, LBRACKET, 0x3F, 0x32, 0x35, 0x68]  // ESC [ ? 2 5 h
  const CursorHome: seq<byte> := [ESC, LBRACKET, 0x48]                   // ESC [ H

  function Spaces(n: nat): (r: seq<byte>)
    ensures |r| == n && forall i :: 0 <= i < n ==> r[i] == SPACE
  {
    seq(n, _ => SPACE)
  }

  /** A banner line: the message cut to the screen width, preceded by
      `(screencols - len) / 2` columns of padding. */
  function BannerLine(msg: seq<byte>, screencols: nat): seq<byte> {
    var msglen := Min(|msg|, screencols);
    Padding((screencols - msglen) / 2) + msg[..msglen]
  }

  /** The centring padding of the banner: '~' and then spaces. */
  function Padding(padding: nat): seq<byte> {
    if padding > 0 then [TILDE] + Spaces(padding - 1) else []
  }

  /** The banner line fits the screen, ends with as much of the message as
      fits, and is centred: the padding before it is `~` and then spaces,
      and is at most one column narrower than the space left after it. */
  lemma BannerLineLayout(msg: seq<byte>, screencols: nat)
    ensures var r := BannerLine(msg, screencols);
            var shown := Min(|msg|, screencols);
            var padding := |r| - shown;
            && |r| <= screencols
            && padding >= 0
            && r[padding..] == msg[..shown]
            && (padding > 0 ==> r[0] == TILDE)
            && (forall i :: 0 < i < padding ==> r[i] == SPACE)
            && padding <= screencols - |r| <= padding + 1
  {
    var shown := Min(|msg|, screencols);
    var padding := (screencols - shown) / 2;
    var pad := Padding(padding);
    assert |pad| == padding;
    var r := BannerLine(msg, screencols);
    assert r == pad + msg[..shown];
    forall i | 0 < i < padding ensures r[i] == SPACE {
      assert r[i] == pad[i] == Spaces(padding - 1)[i - 1];
    }
  }

  /** The welcome line editorDrawRows shows on an empty buffer. */
  function WelcomeLine(screencols: nat): seq<byte> {
    BannerLine(Welcome, screencols)
  }

  /** What screen row `y` shows before the erase-line command. */
  function RowText(rows: seq<seq<byte>>, rowoff: nat, y: nat, screenrows: nat, screencols: nat): seq<byte> {
    var filerow := y + rowoff;
    if filerow >= |rows| then
      if |rows| == 0 && y == screenrows / 3 then WelcomeLine(screencols) else [TILDE]
    else
      rows[filerow][..Min(|rows[filerow]|, screencols)]
  }

  /** On a screen at least one column wide, a screen row never holds more
      than the screen width; a row that shows a file row holds as much of
      its start as fits; past the end of the file a row holds `~`, except
      the banner row of an empty buffer. */
  lemma RowTextLayout(rows: seq<seq<byte>>, rowoff: nat, y: nat, screenrows: nat, screencols: nat)
    ensures var r := RowText(rows, rowoff, y, screenrows, screencols);
            && (screencols >= 1 ==> |r| <= screencols)
            && (y + rowoff < |rows| ==> r <= rows[y + rowoff] && |r| == Min(|rows[y + rowoff]|, screencols))
            && (y + rowoff >= |rows| && !(|rows| == 0 && y == screenrows / 3) ==> r == [TILDE])
  {
    if y + rowoff >= |rows| && |rows| == 0 && y == screenrows / 3 {
      BannerLineLayout(Welcome, screencols);
    }
  }

  /** Screen row `y`: its text, the erase-line command and, on every row
      but the last, a line break. */
  function Segment(rows: seq<seq<byte>>, rowoff: nat, y: nat, screenrows: nat, screencols: nat): seq<byte> {
    RowText(rows, rowoff, y, screenrows, screencols) + EraseLine
      + (if y < screenrows - 1 then CrLf else [])
  }

  /** The first `n` screen rows as editorDrawRows emits them. */
  function DrawnRows(rows: seq<seq<byte>>, rowoff: nat, screenrows: nat, screencols: nat, n: nat): seq<byte> {
    if n == 0 then []
    else DrawnRows(rows, rowoff, screenrows, screencols, n - 1) + Segment(rows, rowoff, n - 1, screenrows, screencols)
  }

  /** Decimal digits of a natural number, most significant first. */
  function Digits(n: nat): (r: seq<byte>)
    ensures |r| >= 1
    ensures forall i :: 0 <= i < |r| ==> IsDigit(r[i])
  {
    if n < 10 then [(0x30 + n) as byte]
    else Digits(n / 10) + [(0x30 + n % 10) as byte]
  }

  /** The value a string of decimal digits denotes. */
  function DigitsValue(s: seq<byte>): nat
    requires forall i :: 0 <= i < |s| ==> IsDigit(s[i])
  {
    if s == [] then 0
    else
      var last := s[|s| - 1];
      assert IsDigit(last);
      10 * DigitsValue(s[..|s| - 1]) + (last as int - 0x30)
  }

  /** Digits renders exactly its argument, without a leading zero. */
  lemma {:induction false} DigitsRoundTrip(n: nat)
    ensures DigitsValue(Digits(n)) == n
    ensures |Digits(n)| > 1 ==> Digits(n)[0] != 0x30
  {
    if n >= 10 {
      DigitsRoundTrip(n / 10);
      var d := Digits(n / 10);
      assert Digits(n)[..|Digits(n)| - 1] == d;
      assert Digits(n)[0] == d[0];
    }
  }

  /** `%d`: an optional minus sign, then the digits. */
  function Decimal(n: int): seq<byte> {
    if n < 0 then [MINUS] + Digits(-n) else Digits(n)
  }

  /** `%d` puts a minus sign exactly before a negative number, and then
      digits without a leading zero that read back as its magnitude. */
  lemma DecimalReadsBack(n: int)
    ensures var r := Decimal(n);
            && |r| >= 1
            && (r[0] == MINUS <==> n < 0)
            && (n >= 0 ==> (forall i :: 0 <= i < |r| ==> IsDigit(r[i]))
                           && DigitsValue(r) == n && (|r| > 1 ==> r[0] != 0x30))
            && (n < 0 ==> (forall i :: 1 <= i < |r| ==> IsDigit(r[i]))
                          && DigitsValue(r[1..]) == -n && (|r| > 2 ==> r[1] != 0x30))
  {
    if n < 0 {
      DigitsRoundTrip(-n);
      assert Decimal(n)[1..] == Digits(-n);
    } else {
      DigitsRoundTrip(n);
    }
  }

  /** The cursor command `ESC [ row ; col H`. */
  function CursorCommand(row: int, col: int): seq<byte> {
    [ESC, LBRACKET] + Decimal(row) + [SEMICOLON] + Decimal(col) + [0x48]
  }

  /** The whole frame editorRefreshScreen writes, scrolling already done. */
  function Frame(rows: seq<seq<byte>>, cx: int, cy: int, rowoff: nat, screenrows: nat, screencols: nat): seq<byte> {
    HideCursor + CursorHome
      + DrawnRows(rows, rowoff, screenrows, screencols, screenrows)
      + CursorCommand(cy - rowoff + 1, cx + 1)
      + ShowCursor
  }

  ghost predicate NoLineFeeds(rows: seq<seq<byte>>) {
    forall i :: 0 <= i < |rows| ==> LF !in rows[i]
  }

  /** A banner line holds no line feed when its message holds none. */
  lemma BannerLineHasNoLineFeed(msg: seq<byte>, screencols: nat)
    requires LF !in msg
    ensures LF !in BannerLine(msg, screencols)
  {
    var text := BannerLine(msg, screencols);
    var shown := Min(|msg|, screencols);
    var padding := |text| - shown;
    forall i | padding <= i < |text| ensures text[i] != LF {
      assert text[i] == text[padding..][i - padding] == msg[i - padding];
    }
  }

  /** No screen row's text holds a line feed when no file row does. */
  lemma RowTextHasNoLineFeed(rows: seq<seq<byte>>, rowoff: nat, y: nat, screenrows: nat, screencols: nat)
    requires NoLineFeeds(rows)
    ensures LF !in RowText(rows, rowoff, y, screenrows, screencols)
  {
    if y + rowoff < |rows| {
      var text := RowText(rows, rowoff, y, screenrows, screencols);
      var row := rows[y + rowoff];
      assert LF !in row;
      forall i | 0 <= i < |text| ensures text[i] != LF {
        assert text[i] == row[i];
      }
    } else if |rows| == 0 && y == screenrows / 3 {
      assert LF !in Welcome;
      BannerLineHasNoLineFeed(Welcome, screencols);
    }
  }

  /** How many times `x` occurs in `s`. */
  function Count(s: seq<byte>, x: byte): nat {
    if s == [] then 0 else Count(s[..|s| - 1], x) + (if s[|s| - 1] == x then 1 else 0)
  }

  lemma {:induction false} CountConcat(a: seq<byte>, b: seq<byte>, x: byte)
    ensures Count(a + b, x) == Count(a, x) + Count(b, x)
  {
    if b != [] {
      CountConcat(a, b[..|b| - 1], x);
      assert (a + b)[..|a + b| - 1] == a + b[..|b| - 1];
    } else {
      assert a + b == a;
    }
  }

  lemma {:induction false} CountAbsent(s: seq<byte>, x: byte)
    requires x !in s
    ensures Count(s, x) == 0
  {
    if s != [] {
      var init := s[..|s| - 1];
      assert x !in init by {
        forall i | 0 <= i < |init| ensures init[i] != x {
          assert init[i] == s[i];
        }
      }
      CountAbsent(init, x);
    }
  }

  /** A screen row holds one line feed, except the last, which holds none. */
  lemma SegmentLineFeeds(rows: seq<seq<byte>>, rowoff: nat, y: nat, screenrows: nat, screencols: nat)
    requires NoLineFeeds(rows)
    ensures Count(Segment(rows, rowoff, y, screenrows, screencols), LF) == if y < screenrows - 1 then 1 else 0
  {
    RowTextHasNoLineFeed(rows, rowoff, y, screenrows, screencols);
    var text := RowText(rows, rowoff, y, screenrows, screencols);
    var tail: seq<byte> := if y < screenrows - 1 then CrLf else [];
    CountAbsent(text, LF);
    CountConcat(text, EraseLine, LF);
    CountConcat(text + EraseLine, tail, LF);
    assert Count(EraseLine, LF) == 0 by {
      CountAbsent(EraseLine, LF);
    }
    assert Count(CrLf, LF) == 1 by {
      assert CrLf[..|CrLf| - 1] == [CR];
      assert Count([CR], LF) == 0 by {
        assert [CR][..0] == [];
      }
    }
  }

  /** When no file row holds an LF byte, the drawn rows hold exactly one
      per row but the last, the one of the `\r\n` after each row. */
  lemma {:induction false} DrawnRowsLineFeeds(rows: seq<seq<byte>>, rowoff: nat, screenrows: nat, screencols: nat, n: nat)
    requires NoLineFeeds(rows)
    requires n <= screenrows
    ensures Count(DrawnRows(rows, rowoff, screenrows, screencols, n), LF) == if 0 < n == screenrows then n - 1 else n
    decreases n
  {
    if n > 0 {
      var before := DrawnRows(rows, rowoff, screenrows, screencols, n - 1);
      var row := Segment(rows, rowoff, n - 1, screenrows, screencols);
      DrawnRowsLineFeeds(rows, rowoff, screenrows, screencols, n - 1);
      SegmentLineFeeds(rows, rowoff, n - 1, screenrows, screencols);
      CountConcat(before, row, LF);
      assert DrawnRows(rows, rowoff, screenrows, screencols, n) == before + row;
    }
  }

  /** The cursor command holds no line feed: it is escape bytes, digits,
      minus signs and a semicolon. */
  lemma CursorCommandHasNoLineFeed(row: int, col: int)
    ensures LF !in CursorCommand(row, col)
  {
    var r := Decimal(row);
    var c := Decimal(col);
    assert forall i :: 0 <= i < |r| ==> r[i] == MINUS || IsDigit(r[i]);
    assert forall i :: 0 <= i < |c| ==> c[i] == MINUS || IsDigit(c[i]);
    var cmd := CursorCommand(row, col);
    assert cmd == [ESC, LBRACKET] + r + [SEMICOLON] + c + [0x48];
    forall i | 0 <= i < |cmd| ensures cmd[i] != LF {
      if 2 <= i < 2 + |r| {
        assert cmd[i] == r[i - 2];
      } else if 3 + |r| <= i < 3 + |r| + |c| {
        assert cmd[i] == c[i - 3 - |r|];
      }
    }
  }

  /** A frame of a buffer whose rows hold no LF byte holds exactly
      screenrows - 1 LF bytes. Other control bytes in the rows are not
      counted. */
  lemma FrameLineFeeds(rows: seq<seq<byte>>, cx: int, cy: int, rowoff: nat, screenrows: nat, screencols: nat)
    requires NoLineFeeds(rows)
    ensures Count(Frame(rows, cx, cy, rowoff, screenrows, screencols), LF) == if screenrows > 0 then screenrows - 1 else 0
  {
    var head := HideCursor + CursorHome;
    var drawn := DrawnRows(rows, rowoff, screenrows, screencols, screenrows);
    var cmd := CursorCommand(cy - rowoff + 1, cx + 1);
    DrawnRowsLineFeeds(rows, rowoff, screenrows, screencols, screenrows);
    CursorCommandHasNoLineFeed(cy - rowoff + 1, cx + 1);
    CountAbsent(head, LF);
    CountAbsent(cmd, LF);
    CountAbsent(ShowCursor, LF);
    CountConcat(head, drawn, LF);
    CountConcat(head + drawn, cmd, LF);
    CountConcat(head + drawn + cmd, ShowCursor, LF);
  }

  /** A frame hides the cursor and sends it home before it draws anything,
      and ends with the cursor command and then show-cursor. */
  lemma FrameLayout(rows: seq<seq<byte>>, cx: int, cy: int, rowoff: nat, screenrows: nat, screencols: nat)
    ensures var frame := Frame(rows, cx, cy, rowoff, screenrows, screencols);
            var cmd := CursorCommand(cy - rowoff + 1, cx + 1);
            && |frame| >= 9 + |cmd| + 6
            && frame[..9] == HideCursor + CursorHome
            && frame[|frame| - 6 - |cmd|..] == cmd + ShowCursor
  {
    var cmd := CursorCommand(cy - rowoff + 1, cx + 1);
    var head := HideCursor + CursorHome + DrawnRows(rows, rowoff, screenrows, screencols, screenrows);
    var frame := Frame(rows, cx, cy, rowoff, screenrows, screencols);
    assert frame == head + (cmd + ShowCursor);
    assert frame[..9] == head[..9] == HideCursor + CursorHome;
    assert frame[|head|..] == cmd + ShowCursor;
  }

  /** For a row and column of at least 1 the cursor command carries no
      minus sign, and its row parameter reads back as the row. */
  lemma CursorCommandUnsigned(row: int, col: int)
    requires row >= 1 && col >= 1
    ensures var cmd := CursorCommand(row, col);
            MINUS !in cmd && DigitsValue(cmd[2..2 + |Decimal(row)|]) == row
  {
    var cmd := CursorCommand(row, col);
    var r := Decimal(row);
    var c := Decimal(col);
    DecimalReadsBack(row);
    DecimalReadsBack(col);
    assert cmd[2..2 + |r|] == r;
    forall i | 0 <= i < |cmd| ensures cmd[i] != MINUS {
      if 2 <= i < 2 + |r| {
        assert cmd[i] == r[i - 2];
      } else if 3 + |r| <= i < |cmd| - 1 {
        assert cmd[i] == c[i - 3 - |r|];
      }
    }
  }

  /** In the frame drawn after scrolling, the cursor command that precedes
      show-cursor carries no minus sign, and its row reads back as a screen
      row from 1 to screenrows. */
  lemma CursorOnScreen(rows: seq<seq<byte>>, cx: nat, cy: nat, rowoff: nat, screenrows: nat, screencols: nat)
    requires screenrows >= 1
    ensures var top := ScrollOffset(rowoff, cy, screenrows);
            var row := cy - top + 1;
            var frame := Frame(rows, cx, cy, top, screenrows, screencols);
            var cmd := CursorCommand(row, cx + 1);
            && 1 <= row <= screenrows
            && |frame| >= |cmd| + 6
            && frame[|frame| - 6 - |cmd|..] == cmd + ShowCursor
            && MINUS !in cmd
            && DigitsValue(cmd[2..2 + |Decimal(row)|]) == row
  {
    var top := ScrollOffset(rowoff, cy, screenrows);
    var row := cy - top + 1;
    assert 1 <= row <= screenrows;
    FrameLayout(rows, cx, cy, top, screenrows, screencols);
    CursorCommandUnsigned(row, cx + 1);
  }

  /** An empty buffer on a 24 x 80 screen: the banner on row 8, centred
      after 26 columns (a `~` and 25 spaces), `~` on every other row, and
      the cursor sent to row 1, column 1. */
  lemma EmptyScreenScenario(y: nat)
    requires y < 24
    ensures RowText([], 0, y, 24, 80) == if y == 8 then [TILDE] + Spaces(25) + Welcome else [TILDE]
    ensures CursorCommand(0 - ScrollOffset(0, 0, 24) + 1, 0 + 1) == [ESC, LBRACKET, 0x31, SEMICOLON, 0x31, 0x48]
  {
    if y == 8 {
      assert |Welcome| == 28;
      assert Welcome[..28] == Welcome;
    }
  }
}
