/** Loading a file (editorOpen): the file's bytes split into lines the way
    `getline` returns them, each line stripped of its trailing line-ending
    bytes before it becomes a row. */
module FileIO {
  import opened Bytes

  predicate IsLineEnd(c: byte) {
    c == LF || c == CR
  }

  /** A line with every trailing '\n' and '\r' removed. */
  function StripLineEnding(line: seq<byte>): (r: seq<byte>)
    ensures r <= line
    ensures r == [] || !IsLineEnd(r[|r| - 1])
    ensures forall i :: |r| <= i < |line| ==> IsLineEnd(line[i])
    decreases |line|
  {
    if line != [] && IsLineEnd(line[|line| - 1]) then StripLineEnding(line[..|line| - 1])
    else line
  }

  /** The three properties of StripLineEnding determine its result. */
  lemma StripIsUnique(line: seq<byte>, r: seq<byte>)
    requires r <= line
    requires r == [] || !IsLineEnd(r[|r| - 1])
    requires forall i :: |r| <= i < |line| ==> IsLineEnd(line[i])
    ensures r == StripLineEnding(line)
  {
  }

  /** The loop removes every trailing line-ending byte, not just one line
      ending: "a\r\r\n" loads as "a", and "\r\n" as the empty row. */
  lemma StripRemovesEveryEnding()
    ensures StripLineEnding([0x61, CR, CR, LF]) == [0x61]
    ensures StripLineEnding([CR, LF]) == []
  {
    StripIsUnique([0x61, CR, CR, LF], [0x61]);
    StripIsUnique([CR, LF], []);
  }

  /** The loop in editorOpen that shortens `linelen` while the line ends in
      '\n' or '\r': the length of the stripped line. */
  method StripLength(line: seq<byte>) returns (linelen: nat)
    ensures linelen <= |line| && line[..linelen] == StripLineEnding(line)
  {
    linelen := |line|;
    assert line[..linelen] == line;
    while linelen > 0 && IsLineEnd(line[linelen - 1])
      invariant linelen <= |line|
      invariant StripLineEnding(line[..linelen]) == StripLineEnding(line)
    {
      assert line[..linelen][..linelen - 1] == line[..linelen - 1];
      linelen := linelen - 1;
    }
  }

  /** The length of the first line `getline` reads: up to and including the
      first '\n', or everything when there is none. */
  function LineLength(content: seq<byte>): (n: nat)
    ensures n <= |content|
    ensures content != [] ==> n >= 1
    ensures forall i :: 0 <= i < n - 1 ==> content[i] != LF
    ensures 0 < n < |content| ==> content[n - 1] == LF
  {
    if content == [] then 0
    else if content[0] == LF then 1
    else 1 + LineLength(content[1..])
  }

  /** The lines successive `getline` calls return, line endings included:
      each is non-empty, and every one but the last ends in '\n'. */
  function GetLines(content: seq<byte>): (lines: seq<seq<byte>>)
    ensures forall i :: 0 <= i < |lines| ==> lines[i] != []
    ensures forall i :: 0 <= i < |lines| - 1 ==> lines[i][|lines[i]| - 1] == LF
    decreases |content|
  {
    if content == [] then []
    else
      var n := LineLength(content);
      [content[..n]] + GetLines(content[n..])
  }

  function Concat(lines: seq<seq<byte>>): seq<byte> {
    if lines == [] then [] else lines[0] + Concat(lines[1..])
  }

  /** The lines `getline` returns make up the whole file, in order. */
  lemma {:induction false} GetLinesConcat(content: seq<byte>)
    ensures Concat(GetLines(content)) == content
    decreases |content|
  {
    if content != [] {
      var n := LineLength(content);
      GetLinesConcat(content[n..]);
      assert GetLines(content)[1..] == GetLines(content[n..]);
      assert content == content[..n] + content[n..];
    }
  }

  /** '\n' at most as the last byte. */
  predicate BreakOnlyAtEnd(line: seq<byte>) {
    forall j :: 0 <= j < |line| - 1 ==> line[j] != LF
  }

  /** A line `getline` returns holds '\n' at most as its last byte. */
  lemma {:induction false} GetLinesBreakOnlyAtEnd(content: seq<byte>)
    ensures forall i :: 0 <= i < |GetLines(content)| ==> BreakOnlyAtEnd(GetLines(content)[i])
    decreases |content|
  {
    if content != [] {
      var n := LineLength(content);
      GetLinesBreakOnlyAtEnd(content[n..]);
      var lines := GetLines(content);
      assert lines[1..] == GetLines(content[n..]);
      forall i | 0 <= i < |lines| ensures BreakOnlyAtEnd(lines[i]) {
        if i > 0 {
          assert lines[i] == lines[1..][i - 1];
        }
      }
    }
  }

  /** The rows editorOpen appends for a file with these bytes. */
  function LoadedRows(content: seq<byte>): (rows: seq<seq<byte>>)
    ensures |rows| == |GetLines(content)|
  {
    var lines := GetLines(content);
    seq(|lines|, i requires 0 <= i < |lines| => StripLineEnding(lines[i]))
  }

  /** No loaded row holds a '\n'. */
  lemma LoadedRowsHaveNoLineFeed(content: seq<byte>)
    ensures forall i :: 0 <= i < |LoadedRows(content)| ==> LF !in LoadedRows(content)[i]
  {
    var lines := GetLines(content);
    var rows := LoadedRows(content);
    GetLinesBreakOnlyAtEnd(content);
    forall i | 0 <= i < |rows| ensures LF !in rows[i] {
      var line := lines[i];
      var row := rows[i];
      assert row == StripLineEnding(line);
      assert BreakOnlyAtEnd(line);
      forall j | 0 <= j < |row| ensures row[j] != LF {
        assert row[j] == line[j];
        if j < |line| - 1 {
          assert line[j] != LF;
        } else {
          assert row == line;
          assert !IsLineEnd(line[j]);
        }
      }
    }
  }

  predicate IsLineEnding(e: seq<byte>) {
    e == [LF] || e == [CR, LF]
  }

  /** A text line as a file holds it: no '\n' in it and no '\r' at its end. */
  predicate IsTextLine(l: seq<byte>) {
    LF !in l && (l == [] || l[|l| - 1] != CR)
  }

  /** The bytes of a file whose i-th line is `lines[i]` ended by `endings[i]`. */
  function FileText(lines: seq<seq<byte>>, endings: seq<seq<byte>>): seq<byte>
    requires |lines| == |endings|
  {
    if lines == [] then [] else lines[0] + endings[0] + FileText(lines[1..], endings[1..])
  }

  /** `getline` on a text line followed by its ending reads exactly those. */
  lemma FirstLineOfText(l: seq<byte>, e: seq<byte>, rest: seq<byte>)
    requires IsTextLine(l) && IsLineEnding(e)
    ensures GetLines(l + e + rest) == [l + e] + GetLines(rest)
  {
    var s := l + e + rest;
    LineLengthAtBreak(s, |l + e|);
    assert s[..|l + e|] == l + e;
    assert s[|l + e|..] == rest;
  }

  lemma {:induction false} LineLengthAtBreak(s: seq<byte>, k: nat)
    requires 0 < k <= |s| && s[k - 1] == LF
    requires forall i :: 0 <= i < k - 1 ==> s[i] != LF
    ensures LineLength(s) == k
    decreases k
  {
    if k > 1 {
      assert s[0] != LF;
      LineLengthAtBreak(s[1..], k - 1);
    }
  }

  /** Stripping a text line followed by its ending leaves the text line. */
  lemma StripTextLine(l: seq<byte>, e: seq<byte>)
    requires IsTextLine(l) && IsLineEnding(e)
    ensures StripLineEnding(l + e) == l
  {
    assert l <= l + e;
    forall i | |l| <= i < |l + e| ensures IsLineEnd((l + e)[i]) {
      assert (l + e)[i] == e[i - |l|];
    }
    if l != [] {
      assert l[|l| - 1] in l;
    }
    StripIsUnique(l + e, l);
  }

  /** A text line and its ending load as that one row, before the rest. */
  lemma LoadedRowsCons(l: seq<byte>, e: seq<byte>, rest: seq<byte>)
    requires IsTextLine(l) && IsLineEnding(e)
    ensures LoadedRows(l + e + rest) == [l] + LoadedRows(rest)
  {
    FirstLineOfText(l, e, rest);
    StripTextLine(l, e);
    var lines := GetLines(l + e + rest);
    var got := LoadedRows(l + e + rest);
    var want := [l] + LoadedRows(rest);
    assert |got| == |want|;
    forall i | 0 <= i < |got| ensures got[i] == want[i] {
      if i > 0 {
        assert lines[i] == GetLines(rest)[i - 1];
      }
    }
  }

  /** Loading a file of text lines, each ended by "\n" or "\r\n", gives back
      exactly those lines. */
  lemma {:induction false} LoadRoundTrip(lines: seq<seq<byte>>, endings: seq<seq<byte>>)
    requires |lines| == |endings|
    requires forall i :: 0 <= i < |lines| ==> IsTextLine(lines[i]) && IsLineEnding(endings[i])
    ensures LoadedRows(FileText(lines, endings)) == lines
    decreases |lines|
  {
    if lines != [] {
      assert IsTextLine(lines[0]) && IsLineEnding(endings[0]);
      LoadRoundTrip(lines[1..], endings[1..]);
      LoadedRowsCons(lines[0], endings[0], FileText(lines[1..], endings[1..]));
      assert lines == [lines[0]] + lines[1..];
    }
  }

  /** A last line with no line ending loads as itself. */
  lemma UnterminatedLineLoads(l: seq<byte>)
    requires l != [] && IsTextLine(l)
    ensures LoadedRows(l) == [l]
  {
    var n := LineLength(l);
    assert n == |l|;
    assert l[..n] == l;
    assert GetLines(l) == [l];
    assert l[|l| - 1] in l;
    StripIsUnique(l, l);
  }

  /** `getline` also returns a last line that has no '\n': a file of text
      lines whose last one is not ended loads back exactly too. */
  lemma {:induction false} LoadRoundTripUnterminated(lines: seq<seq<byte>>, endings: seq<seq<byte>>, last: seq<byte>)
    requires |lines| == |endings|
    requires forall i :: 0 <= i < |lines| ==> IsTextLine(lines[i]) && IsLineEnding(endings[i])
    requires last != [] && IsTextLine(last)
    ensures LoadedRows(FileText(lines, endings) + last) == lines + [last]
    decreases |lines|
  {
    if lines == [] {
      assert FileText(lines, endings) + last == last;
      UnterminatedLineLoads(last);
    } else {
      var rest := FileText(lines[1..], endings[1..]);
      assert IsTextLine(lines[0]) && IsLineEnding(endings[0]);
      LoadRoundTripUnterminated(lines[1..], endings[1..], last);
      assert FileText(lines, endings) + last == lines[0] + endings[0] + (rest + last);
      LoadedRowsCons(lines[0], endings[0], rest + last);
      assert lines + [last] == [lines[0]] + (lines[1..] + [last]);
    }
  }
}
