/** Keyboard input: decoding the bytes the raw-mode terminal delivers into
    key events (editorReadKey). A `read` that times out is the end of the
    available bytes, so the decoder is a function of the bytes available. */
module Terminal {
  import opened Bytes

  /** What editorReadKey returns: a byte taken literally, or one of the
      composed keys of `enum editorKey`. */
  datatype KeyEvent =
    | Literal(b: byte)
    | ArrowLeft | ArrowRight | ArrowUp | ArrowDown
    | DelKey | HomeKey | EndKey | PageUp | PageDown

  /** Either no byte arrived at all (the source keeps polling), or a key
      was decoded from the first `used` bytes of the input. */
  datatype ReadOutcome = InputRanOut | Read(key: KeyEvent, used: nat)

  /** `ESC [ digit ~`: the key the table lists for the sequence, or ESC for
      a digit the table does not list. */
  function DigitKey(d: byte): (r: KeyEvent)
    ensures r != Literal(ESC) <==> [ESC, LBRACKET, d, TILDE] in EscapeTable
    ensures r != Literal(ESC) ==> EscapeTable[[ESC, LBRACKET, d, TILDE]] == r
  {
    if d == 0x31 || d == 0x37 then HomeKey        // '1', '7'
    else if d == 0x33 then DelKey                 // '3'
    else if d == 0x34 || d == 0x38 then EndKey    // '4', '8'
    else if d == 0x35 then PageUp                 // '5'
    else if d == 0x36 then PageDown               // '6'
    else Literal(ESC)
  }

  /** `ESC [ letter`: the arrow, Home or End key the table lists for the
      sequence, or ESC for any other letter. */
  function CsiLetterKey(c: byte): (r: KeyEvent)
    ensures r != Literal(ESC) <==> [ESC, LBRACKET, c] in EscapeTable
    ensures r != Literal(ESC) ==> EscapeTable[[ESC, LBRACKET, c]] == r
  {
    if c == 0x41 then ArrowUp                     // 'A'
    else if c == 0x42 then ArrowDown              // 'B'
    else if c == 0x43 then ArrowRight             // 'C'
    else if c == 0x44 then ArrowLeft              // 'D'
    else if c == 0x48 then HomeKey                // 'H'
    else if c == 0x46 then EndKey                 // 'F'
    else Literal(ESC)
  }

  /** `ESC O letter`: the Home or End key the table lists for the sequence,
      or ESC for any other letter. */
  function Ss3Key(c: byte): (r: KeyEvent)
    ensures r != Literal(ESC) <==> [ESC, 0x4F, c] in EscapeTable
    ensures r != Literal(ESC) ==> EscapeTable[[ESC, 0x4F, c]] == r
  {
    if c == 0x48 then HomeKey                     // 'H'
    else if c == 0x46 then EndKey                 // 'F'
    else Literal(ESC)
  }

  /** editorReadKey over the bytes available before a read times out.
      A missing follow-up byte or an unknown sequence yields ESC itself. */
  function ReadKey(input: seq<byte>): (r: ReadOutcome)
    ensures r.InputRanOut? <==> input == []
    ensures r.Read? ==> 1 <= r.used <= |input| && r.used <= 4
    ensures r.Read? && r.key.Literal? ==> r.key.b == input[0]
    ensures r.Read? && input[0] != ESC ==> r == Read(Literal(input[0]), 1)
    ensures r.Read? && input[0] == ESC && |input| < 3 ==> r == Read(Literal(ESC), |input|)
  {
    if input == [] then InputRanOut
    else if input[0] != ESC then Read(Literal(input[0]), 1)
    else if |input| < 3 then Read(Literal(ESC), |input|)
    else if input[1] == LBRACKET then
      if IsDigit(input[2]) then
        if |input| < 4 then Read(Literal(ESC), 3)
        else if input[3] == TILDE then Read(DigitKey(input[2]), 4)
        else Read(Literal(ESC), 4)
      else Read(CsiLetterKey(input[2]), 3)
    else if input[1] == 0x4F then Read(Ss3Key(input[2]), 3)   // 'O'
    else Read(Literal(ESC), 3)
  }

  /** The escape sequences the decoder recognises, as an independent table. */
  const EscapeTable: map<seq<byte>, KeyEvent> := map[
    [ESC, LBRACKET, 0x41] := ArrowUp,
    [ESC, LBRACKET, 0x42] := ArrowDown,
    [ESC, LBRACKET, 0x43] := ArrowRight,
    [ESC, LBRACKET, 0x44] := ArrowLeft,
    [ESC, LBRACKET, 0x48] := HomeKey,
    [ESC, LBRACKET, 0x46] := EndKey,
    [ESC, 0x4F, 0x48] := HomeKey,
    [ESC, 0x4F, 0x46] := EndKey,
    [ESC, LBRACKET, 0x31, TILDE] := HomeKey,
    [ESC, LBRACKET, 0x33, TILDE] := DelKey,
    [ESC, LBRACKET, 0x34, TILDE] := EndKey,
    [ESC, LBRACKET, 0x35, TILDE] := PageUp,
    [ESC, LBRACKET, 0x36, TILDE] := PageDown,
    [ESC, LBRACKET, 0x37, TILDE] := HomeKey,
    [ESC, LBRACKET, 0x38, TILDE] := EndKey
  ]

  /** Every sequence of the table decodes to its key, whatever follows it. */
  lemma TableEntryDecodes(p: seq<byte>, rest: seq<byte>)
    requires p in EscapeTable
    ensures ReadKey(p + rest) == Read(EscapeTable[p], |p|)
  {
    var s := p + rest;
    assert s[0] == p[0] && s[1] == p[1] && s[2] == p[2];
    if |p| == 4 {
      assert s[3] == p[3];
    }
  }

  /** Conversely, a composed key is only ever decoded from a table sequence:
      the bytes it consumed form that sequence. */
  lemma ComposedKeyFromTable(input: seq<byte>)
    requires ReadKey(input).Read? && !ReadKey(input).key.Literal?
    ensures input[..ReadKey(input).used] in EscapeTable
    ensures EscapeTable[input[..ReadKey(input).used]] == ReadKey(input).key
  {
    if input[1] == LBRACKET && IsDigit(input[2]) {
      assert input[..4] == [ESC, LBRACKET, input[2], TILDE];
    } else {
      assert input[..3] == [ESC, input[1], input[2]];
    }
  }

  /** An ESC that starts no table sequence decodes to ESC, never an error. */
  lemma UnlistedEscapeIsEsc(input: seq<byte>)
    requires input != [] && input[0] == ESC
    requires forall p :: p in EscapeTable ==> !(p <= input)
    ensures ReadKey(input).Read? && ReadKey(input).key == Literal(ESC)
  {
    var r := ReadKey(input);
    if !r.key.Literal? {
      ComposedKeyFromTable(input);
      assert false;
    }
  }

  /** `ESC [ digit x` with x other than `~`, or with an unlisted digit,
      consumes four bytes and yields ESC. */
  lemma UnmappedDigitSequence(d: byte, x: byte, rest: seq<byte>)
    requires IsDigit(d)
    requires x != TILDE || d in {0x30, 0x32, 0x39}
    ensures ReadKey([ESC, LBRACKET, d, x] + rest) == Read(Literal(ESC), 4)
  {
    var s := [ESC, LBRACKET, d, x] + rest;
    assert s[0] == ESC && s[1] == LBRACKET && s[2] == d && s[3] == x;
  }

  /** ESC followed by a byte other than `[` and `O` consumes three bytes
      and yields ESC. */
  lemma UnknownEscapePrefix(x: byte, y: byte, rest: seq<byte>)
    requires x != LBRACKET && x != 0x4F
    ensures ReadKey([ESC, x, y] + rest) == Read(Literal(ESC), 3)
  {
    var s := [ESC, x, y] + rest;
    assert s[0] == ESC && s[1] == x;
  }

  /** `ESC [ c` with c neither a digit nor a listed letter consumes three
      bytes and yields ESC. */
  lemma UnlistedCsiLetter(c: byte, rest: seq<byte>)
    requires !IsDigit(c) && [ESC, LBRACKET, c] !in EscapeTable
    ensures ReadKey([ESC, LBRACKET, c] + rest) == Read(Literal(ESC), 3)
  {
    var s := [ESC, LBRACKET, c] + rest;
    assert s[0] == ESC && s[1] == LBRACKET && s[2] == c;
  }

  /** CTRL_KEY(k): the key with its upper three bits cleared, which on a
      byte keeps the low five bits, the residue modulo 32. */
  function CtrlKey(k: byte): (r: byte)
    ensures r < 32 && r <= k && (k - r) as int % 32 == 0
  {
    k % 32
  }

  /** The byte Ctrl-Q sends, which ends the editor. */
  const QuitByte: byte := CtrlKey(0x71)   // 'q'

  /** Ctrl-Q is byte 0x11, whether typed as 'q' or as 'Q'. */
  lemma QuitByteValue()
    ensures QuitByte == 0x11 && CtrlKey(0x51) == QuitByte
  {
  }

  /** The `int` editorReadKey returns: a literal `char` is taken as signed, the
      composed keys are the enumerators from 1000 on. */
  function KeyCode(k: KeyEvent): (code: int)
    ensures k.Literal? ==> -128 <= code < 128
    ensures !k.Literal? ==> 1000 <= code <= 1008
  {
    match k
    case Literal(b) => if b < 128 then b as int else b as int - 256
    case ArrowLeft => 1000
    case ArrowRight => 1001
    case ArrowUp => 1002
    case ArrowDown => 1003
    case DelKey => 1004
    case HomeKey => 1005
    case EndKey => 1006
    case PageUp => 1007
    case PageDown => 1008
  }

  /** The integer codes are unambiguous, so dispatching on them (the `switch`
      in editorProcessKeypress) is dispatching on the key events. */
  lemma KeyCodeInjective(a: KeyEvent, b: KeyEvent)
    requires KeyCode(a) == KeyCode(b)
    ensures a == b
  {
  }
}
