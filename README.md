# kilo: a verified model of a minimal terminal text editor

This project models the core of `kilo.c`, a small read-only text viewer
for VT100-compatible terminals. The modelled core covers:

- decoding the raw bytes of a keypress into a key event;
- moving the cursor and dispatching keys;
- keeping the cursor row inside the window;
- drawing a frame of the file (or the welcome banner) into an append buffer;
- loading a file as rows with their line endings stripped.

The modules follow the sections of the source:

- `Bytes`: the byte type and the ASCII bytes the editor uses.
- `Terminal`: `editorReadKey` as the function `ReadKey` over the bytes the
  terminal delivers before a read times out, with the table of escape
  sequences it recognises, `CTRL_KEY`, and the integer key codes.
- `Abuf`: `struct abuf` as the class `AppendBuffer`, whose block is
  reallocated and copied on every append.
- `Output`: specification functions for `editorScroll`, `editorDrawRows`
  and the frame `editorRefreshScreen` writes, including `%d` rendering of
  the cursor position.
- `Input`: specification functions for `editorMoveCursor` and
  `editorProcessKeypress`, over a cursor value.
- `FileIO`: `getline` as a split of the file's bytes into lines, and the
  line-ending stripping loop of `editorOpen`.
- `Editor`: the global `struct editorConfig E` as the class
  `EditorConfig`. Its methods update the state in place, with the same
  loops as the source, and each is proved against the functions of
  `Output`, `Input` and `FileIO`.

Two behaviours of `kilo.c` a reader might not expect:

- An incomplete or unknown escape sequence decodes to the byte ESC itself
  (`Literal(0x1b)`), since `editorReadKey` returns `'\x1b'`. There is no
  separate Escape key.
- `editorOpen` removes every trailing `'\n'` and `'\r'` byte of a line, not
  exactly one line ending. `"a\r\r\n"` loads as `"a"`
  (`FileIO.StripRemovesEveryEnding`). Files whose lines end in `"\n"` or
  `"\r\n"` and do not themselves end in `'\r'` load back exactly
  (`FileIO.LoadRoundTrip`), and so do such files whose last line has no
  line ending (`FileIO.LoadRoundTripUnterminated`).

## Model

| member | source | states |
|---|---|---|
| Terminal.ReadKey | kilo.c:91-145 | No bytes means nothing is decoded. Otherwise between 1 and 4 bytes are used. A byte other than ESC is returned as itself after one byte. ESC followed by fewer than two bytes is ESC. A literal result is always the first byte. |
| Terminal.DigitKey | kilo.c:113-121 | The key for `ESC [ digit ~`: it is a composed key exactly when the table lists that sequence, and then the table's key. Otherwise it is ESC. |
| Terminal.CsiLetterKey | kilo.c:124-131 | The key for `ESC [ letter`: it is a composed key exactly when the table lists that sequence, and then the table's key. Otherwise it is ESC. |
| Terminal.Ss3Key | kilo.c:133-137 | The key for `ESC O letter`: it is a composed key exactly when the table lists that sequence, and then the table's key. Otherwise it is ESC. |
| Terminal.TableEntryDecodes | kilo.c:109-138 | Each of the 15 recognised escape sequences decodes to its key and uses exactly its own bytes, whatever follows it. |
| Terminal.ComposedKeyFromTable | kilo.c:109-139 | Conversely, a composed key is decoded only from a sequence of the table, and the bytes it used are that sequence. |
| Terminal.UnlistedEscapeIsEsc | kilo.c:100-139 | An ESC that starts no table sequence decodes to ESC, never to an error. |
| Terminal.UnmappedDigitSequence | kilo.c:110-122 | `ESC [ digit x` uses four bytes and yields ESC when x is not `~` or the digit is 0, 2 or 9. |
| Terminal.UnknownEscapePrefix | kilo.c:105-139 | ESC followed by a byte other than `[` and `O` uses three bytes and yields ESC. |
| Terminal.UnlistedCsiLetter | kilo.c:123-139 | `ESC [ c`, with c neither a digit nor a listed letter, uses three bytes and yields ESC. |
| Terminal.CtrlKey | kilo.c:21 | `CTRL_KEY` gives a byte below 32 that agrees with the key modulo 32 and is not above it. |
| Terminal.QuitByteValue | kilo.c:318 | Ctrl-Q is byte 0x11, typed as `q` or `Q`. |
| Terminal.KeyCode | kilo.c:23-33 | The `int` code of a key: a literal is a `char` in -128..127, where `char` is signed, and the composed keys are 1000..1008. |
| Terminal.KeyCodeInjective | kilo.c:315-351 | Distinct key events have distinct codes, so the `switch` on codes is a dispatch on key events. |
| Output.ScrollOffset | kilo.c:210-217 | After scrolling, the cursor row lies in the window [rowoff, rowoff + screenrows). A window that already shows it is kept. The offset stays non-negative. |
| Output.ScrollIdempotent | kilo.c:210-217 | Scrolling a second time changes nothing. |
| Output.ScrollMovesLeast | kilo.c:210-217 | No other window that shows the cursor row is closer to the old offset. |
| Output.BannerLine | kilo.c:236-244 | Computes the banner row: the padding for `(screencols - len) / 2` columns, then the message cut to the screen width. Its layout is stated by `BannerLineLayout`. |
| Output.Padding | kilo.c:238-243 | Computes the centring padding: `~` and then padding - 1 spaces, or nothing for no padding. `BannerLineLayout` states its shape inside the banner. |
| Output.BannerLineLayout | kilo.c:236-244 | The banner line fits the screen width. It ends with as much of the message as fits. Its padding is `~` and then spaces. It is centred to within one column. |
| Output.BannerLineHasNoLineFeed | kilo.c:231-244 | The banner line holds no LF byte when its message holds none. |
| Output.WelcomeLine | kilo.c:231-244 | Computes the banner row for the message `"Kilo editor -- version 0.0.1"`. |
| Output.RowText | kilo.c:225-252 | Computes what screen row y shows: the file row cut to the screen width, the banner on row screenrows / 3 of an empty buffer, or `~`. Its properties are stated by `RowTextLayout` and `RowTextHasNoLineFeed`. |
| Output.RowTextLayout | kilo.c:225-252 | On a screen at least one column wide, a screen row is at most the screen width. A row showing a file row is the longest prefix of it that fits. Past the end of the file a row is `~`, except the banner row of an empty buffer. |
| Output.RowTextHasNoLineFeed | kilo.c:225-252 | When no file row holds an LF byte, no screen row's text does. |
| Output.Segment | kilo.c:225-256 | Computes one screen row as drawn: its text, then `ESC [ K`, then `\r\n` on every row but the last. Its LF bytes are counted by `SegmentLineFeeds`. |
| Output.DrawnRows | kilo.c:224-257 | Computes the first n screen rows, one `Segment` after another. Its LF bytes are counted by `DrawnRowsLineFeeds`. |
| Output.SegmentLineFeeds | kilo.c:253-256 | Each screen row with its erase command holds one LF byte, except the last, which holds none. |
| Output.DrawnRowsLineFeeds | kilo.c:224-257 | The drawn rows hold one LF byte per row but the last. |
| Output.Digits | kilo.c:273 | `%d` of a natural number is a non-empty string of decimal digits. |
| Output.DigitsRoundTrip | kilo.c:273 | Those digits denote exactly the number and have no leading zero. |
| Output.Decimal | kilo.c:273 | Computes `%d`: a minus sign for a negative number, then the digits of its magnitude. Its meaning is stated by `DecimalReadsBack`. |
| Output.DecimalReadsBack | kilo.c:273 | `%d` starts with a minus sign exactly for a negative number. The digits that follow read back as the magnitude and have no leading zero. |
| Output.CursorCommand | kilo.c:272-274 | Computes the cursor command `ESC [ row ; col H` from the `%d` renderings of row and column. Its properties are stated by `CursorCommandHasNoLineFeed` and `CursorCommandUnsigned`. |
| Output.CursorCommandUnsigned | kilo.c:272-274 | For a row and column of at least 1 the command has no minus sign, and its row parameter reads back as the row. |
| Output.Frame | kilo.c:264-278 | Computes the frame: hide-cursor, cursor-home, the drawn rows, the cursor command for (cy - rowoff + 1, cx + 1), then show-cursor. Its properties are stated by `FrameLayout` and `FrameLineFeeds`. |
| Output.FrameLayout | kilo.c:264-276 | A frame starts with hide-cursor and cursor-home, and ends with the cursor command and then show-cursor. |
| Output.CursorCommandHasNoLineFeed | kilo.c:272-274 | The cursor-positioning command holds no LF byte. |
| Output.FrameLineFeeds | kilo.c:261-280 | A frame holds exactly screenrows - 1 LF bytes when no row holds one. |
| Output.CursorOnScreen | kilo.c:261-276 | In the frame drawn after scrolling, the cursor command just before show-cursor has no minus sign. Its row parameter reads back as a screen row in 1..screenrows. |
| Output.EmptyScreenScenario | kilo.c:228-247 | On an empty 24 x 80 screen, row 8 shows `~`, then 25 spaces, then the banner, and every other row shows `~`. The cursor command is `ESC [ 1 ; 1 H`. |
| Input.Move | kilo.c:285-308 | A non-arrow key leaves the cursor unchanged. Each arrow moves its own coordinate by at most one and keeps the other. The cursor stays in bounds: rows 0..numrows, columns 0..screencols-1. |
| Input.MoveClamps | kilo.c:285-308 | Left and Up stop at 0. Right stops at the last screen column. Down stops at the row just past the last file row. |
| Input.RepeatMove | kilo.c:338-341 | Repeated vertical moves keep the column and keep the cursor in bounds. |
| Input.RepeatUpLandsAt | kilo.c:338-341 | n Up moves take the cursor to row max(0, cy - n). |
| Input.RepeatDownLandsAt | kilo.c:338-341 | n Down moves take the cursor to row min(numrows, cy + n). |
| Input.Dispatch | kilo.c:311-352 | A key quits exactly when it is Ctrl-Q. Home sets column 0 and End sets column screencols - 1, with the row kept. An arrow moves the cursor exactly as `Move` does. Page and vertical keys keep the column, and horizontal arrows keep the row. Every other key changes nothing. |
| Input.PageKeysLandAt | kilo.c:335-343 | Page Up lands on row max(0, cy - screenrows) and Page Down on row min(numrows, cy + screenrows). |
| Input.DispatchKeepsBounds | kilo.c:311-352 | No key takes the cursor out of bounds. |
| Input.DispatchAll | kilo.c:410-413 | Dispatches the keys of a session one after the other. The session quits exactly when Ctrl-Q is among the keys. |
| Input.KeysThenScroll | kilo.c:410-413 | After any sequence of keys short of Ctrl-Q, and a scroll, the cursor is in bounds and inside the window, and the offset is between 0 and numrows. |
| Input.PageDownScenario | kilo.c:335-343 | With 100 rows, the cursor on row 50 and 24 screen rows, Page Down lands on row 74, and scrolling from offset 40 gives offset 51. |
| Input.UpAtTopScenario | kilo.c:297-301 | Up on row 0 leaves the cursor where it is. |
| FileIO.StripLineEnding | kilo.c:380-381 | The stripped line is a prefix of the line that does not end in `\n` or `\r`, and everything removed is `\n` or `\r`. |
| FileIO.StripIsUnique | kilo.c:380-381 | Those three properties determine the stripped line. |
| FileIO.StripRemovesEveryEnding | kilo.c:380-381 | `"a\r\r\n"` strips to `"a"`, and `"\r\n"` to the empty row. |
| FileIO.StripLength | kilo.c:380-381 | The loop leaves `linelen` at the length of the stripped line. |
| FileIO.LineLength | kilo.c:379 | `getline` reads up to and including the first `\n`, or to the end of the file, and reads at least one byte of a non-empty file. |
| FileIO.GetLines | kilo.c:379 | Each line `getline` returns is non-empty, and every line but the last ends in `\n`. |
| FileIO.GetLinesConcat | kilo.c:379 | The lines read make up the whole file, in order. |
| FileIO.GetLinesBreakOnlyAtEnd | kilo.c:379 | A line read holds `\n` at most as its last byte. |
| FileIO.LoadedRows | kilo.c:379-383 | A file loads as one row per line `getline` returns. |
| FileIO.LoadedRowsHaveNoLineFeed | kilo.c:379-383 | No loaded row holds an LF byte. |
| FileIO.FirstLineOfText | kilo.c:379 | Reading a text line followed by `"\n"` or `"\r\n"` returns exactly those bytes. |
| FileIO.LineLengthAtBreak | kilo.c:379 | `getline` stops at the first LF byte. |
| FileIO.StripTextLine | kilo.c:380-381 | Stripping a text line with its ending gives back the text line. |
| FileIO.LoadedRowsCons | kilo.c:379-383 | A text line with its ending loads as that row, followed by the rows of the rest. |
| FileIO.LoadRoundTrip | kilo.c:372-388 | A file of text lines, each ended by `"\n"` or `"\r\n"`, loads as exactly those lines. |
| FileIO.UnterminatedLineLoads | kilo.c:379-383 | A last line with no line ending, that is non-empty and does not end in `\r`, loads as itself. |
| FileIO.LoadRoundTripUnterminated | kilo.c:372-388 | A file of such text lines whose last line has no line ending loads as exactly those lines, the last one included. |
| Abuf.AppendBuffer.constructor | kilo.c:191 | `ABUF_INIT`: an empty buffer. |
| Abuf.AppendBuffer.Data | kilo.c:278 | The block's bytes are the bytes appended so far. |
| Abuf.AppendBuffer.Append | kilo.c:194-201 | The new block is fresh. It is longer by n and holds the old contents followed by the first n bytes of s. |
| Editor.EditorConfig.constructor | kilo.c:393-401 | `initEditor`: cursor and offset at 0, no rows, and the given screen size. |
| Editor.EditorConfig.Scroll | kilo.c:210-217 | The new offset is `ScrollOffset` of the old one, the cursor row is in the window, and the state invariant is kept. |
| Editor.EditorConfig.MoveCursor | kilo.c:285-308 | The new cursor is `Move` of the old one. |
| Editor.EditorConfig.ProcessKeypress | kilo.c:311-352 | Quits exactly when `Dispatch` quits, and then the cursor is unchanged. Otherwise the new cursor is `Dispatch`'s, with the Page key loop proved against `RepeatMove`. |
| Editor.EditorConfig.DrawRows | kilo.c:220-258 | Appends exactly `DrawnRows` for all screen rows. |
| Editor.EditorConfig.DrawRow | kilo.c:225-256 | One pass of the loop appends exactly that row's `Segment`. |
| Editor.EditorConfig.DrawRowText | kilo.c:225-252 | Appends exactly `RowText` of the row. |
| Editor.EditorConfig.DrawBanner | kilo.c:236-244 | Appends exactly `BannerLine` of the message. |
| Editor.EditorConfig.AppendPadding | kilo.c:239-243 | Appends `~` and then padding - 1 spaces, or nothing for no padding. |
| Editor.EditorConfig.RefreshScreen | kilo.c:261-280 | Scrolls, then returns exactly `Frame` of the scrolled state. |
| Editor.EditorConfig.ComposeFrame | kilo.c:264-278 | The bytes written are `Frame` of the state. |
| Editor.EditorConfig.BeginFrame | kilo.c:265-268 | A fresh buffer holding hide-cursor and cursor-home. |
| Editor.EditorConfig.EndFrame | kilo.c:272-276 | Appends the cursor command for (cy - rowoff + 1, cx + 1) and then show-cursor. |
| Editor.EditorConfig.AppendRow | kilo.c:357-367 | Adds a copy of the first len bytes of s as the last row, and numrows grows by one. |
| Editor.EditorConfig.Open | kilo.c:372-388 | Appends exactly `LoadedRows` of the file's bytes. |
| Editor.OpenedFileFrameLineFeeds | kilo.c:261-280 | For any file opened, the frame holds exactly screenrows - 1 LF bytes. |

## Left out

- Raw mode: `enableRawMode`, `disableRawMode` and `die`. Terminal attributes and process exit are outside the model.
- `getWindowSize` and `getCursorPosition`: the screen size is a parameter of `EditorConfig.constructor`.
- The I/O around the modelled logic is left out; the model works on values instead:
  - `read` and the `EAGAIN` retry are left out. `ReadKey` takes the bytes that arrive before a read times out. An empty input is `InputRanOut`, where the source keeps polling.
  - `write` is left out. `RefreshScreen` returns the frame.
  - `fopen`, `getline`, `fclose` and `free` are left out. `Open` takes the file's bytes, and `getline` is modelled by `GetLines`. A file that cannot be opened ends the program through `die`.
- The main loop of `main` is left out. `Input.KeysThenScroll` states what any sequence of keys leaves.
- Control bytes in file rows: `editorDrawRows` copies a row's bytes to the terminal unfiltered, so a row may hold escape sequences (show-cursor, for one) or bytes a terminal treats as a line break (VT, FF, `ESC D`). The model does not filter them either, and its line-break lemmas count LF bytes only.
- Ctrl-Q's screen clear and `exit(0)`: `ProcessKeypress` returns `quit` instead.
- `realloc` or `malloc` failure is not modelled. On failure `abAppend` silently drops the bytes; in the model every allocation succeeds.
- `abFree` is not modelled. Memory is managed by Dafny.
- `snprintf` into fixed buffers is modelled by `Digits`/`Decimal`. The 80-byte welcome buffer and the 32-byte cursor buffer never truncate for the values used.
- Editor.EditorConfig.ProcessKeypress: requires screenrows >= 0. With a negative height, the source's `while (times--)` would run until `int` wrap-around.
- Editor.EditorConfig.Valid: screen sizes are taken as non-negative, as the terminal reports them.
- Terminal.KeyCode: integer widths are not modelled. A literal key is a byte, and `KeyCode` gives the value the source returns where `char` is signed (where it is unsigned, a literal is 0..255; no `switch` case of `editorProcessKeypress` matches a byte of 128 or more either way). Cursor and offset arithmetic is unbounded rather than 32-bit `int`.
- Input.MoveClamps: the left/right clamps are stated only for a screen at least one column wide. With zero columns, Right keeps moving and End sets the column to -1, as in the source.
