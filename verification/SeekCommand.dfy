/** The seek command in a received line (server/aesdsocket.c:32-37), with the C library calls as
    functions: strstr, strtok and atoi (ISO/IEC 9899:2011, sections 7.24.5.7, 7.24.5.8 and
    7.22.1.2). */
module SeekCommand {
  import opened Sequences

  const COLON: byte := 58
  const COMMA: byte := 44
  const MINUS: byte := 45
  const PLUS: byte := 43
  const ZERO: byte := 48

  /** The text AESDCHAR_IOCSEEKTO. */
  const KEYWORD: bytes := [65, 69, 83, 68, 67, 72, 65, 82, 95, 73, 79, 67, 83, 69, 69, 75, 84, 79]

  /** strstr finds `key` somewhere in `s`. */
  predicate Contains(s: bytes, key: bytes) {
    key <= s || (s != [] && Contains(s[1..], key))
  }

  /** The whole of `key` stands in `s`, from some index on. */
  ghost predicate Occurs(s: bytes, key: bytes) {
    exists i :: 0 <= i <= |s| && key <= s[i..]
  }

  lemma {:induction false} ContainsIsOccurs(s: bytes, key: bytes)
    ensures Contains(s, key) <==> Occurs(s, key)
  {
    assert s[0..] == s;
    if !(key <= s) && s != [] {
      ContainsIsOccurs(s[1..], key);
      if i :| 0 <= i <= |s[1..]| && key <= s[1..][i..] { assert s[1..][i..] == s[i + 1..]; }
      if i :| 0 < i <= |s| && key <= s[i..] { assert s[i..] == s[1..][i - 1..]; }
    }
  }

  /** A token, and where the next call goes on. */
  datatype Token = Token(text: bytes, rest: bytes)

  function SkipDelimiters(s: bytes, delimiter: byte): bytes {
    if s != [] && s[0] == delimiter then SkipDelimiters(s[1..], delimiter) else s
  }

  function UpTo(s: bytes, delimiter: byte): (text: bytes)
    ensures text <= s
  {
    if s == [] || s[0] == delimiter then [] else [s[0]] + UpTo(s[1..], delimiter)
  }

  /** strtok with a single delimiter; none left is the null pointer. */
  function Strtok(s: bytes, delimiter: byte): Option<Token> {
    var t := SkipDelimiters(s, delimiter);
    if t == [] then None
    else
      var text := UpTo(t, delimiter);
      Some(Token(text, if |text| < |t| then t[|text| + 1..] else []))
  }

  ghost predicate Only(s: bytes, delimiter: byte) {
    forall i :: 0 <= i < |s| ==> s[i] == delimiter
  }

  lemma {:induction false} SkipDelimitersIs(s: bytes, delimiter: byte) returns (k: nat)
    ensures k <= |s| && Only(s[..k], delimiter) && SkipDelimiters(s, delimiter) == s[k..]
    ensures k < |s| ==> s[k] != delimiter
  {
    if s != [] && s[0] == delimiter {
      var j := SkipDelimitersIs(s[1..], delimiter);
      k := j + 1;
      assert s[1..][j..] == s[k..];
      forall i | 0 <= i < k
        ensures s[i] == delimiter
      {
        if i > 0 { assert s[1..][..j][i - 1] == s[i]; }
      }
    } else {
      k := 0;
      assert s[0..] == s;
    }
  }

  lemma {:induction false} UpToIs(s: bytes, delimiter: byte)
    ensures delimiter !in UpTo(s, delimiter)
    ensures |UpTo(s, delimiter)| < |s| ==> s[|UpTo(s, delimiter)|] == delimiter
  {
    if s != [] && s[0] != delimiter { UpToIs(s[1..], delimiter); }
  }

  /** What strtok finds: nothing exactly when there are only delimiters; otherwise the first run of
      other characters, and the next call goes on behind the one delimiter that ends it. */
  lemma {:induction false} StrtokIs(s: bytes, delimiter: byte) returns (k: nat)
    ensures k <= |s| && Only(s[..k], delimiter)
    ensures match Strtok(s, delimiter)
      case None => k == |s|
      case Some(t) =>
        && t.text != [] && delimiter !in t.text
        && (s == s[..k] + t.text + [delimiter] + t.rest || (s == s[..k] + t.text && t.rest == []))
  {
    k := SkipDelimitersIs(s, delimiter);
    if k < |s| {
      UpToIs(s[k..], delimiter);
      CutToken(s, k, UpTo(s[k..], delimiter));
    }
  }

  lemma CutToken(s: bytes, k: nat, text: bytes)
    requires k <= |s| && text <= s[k..]
    ensures |text| < |s[k..]| ==> s == s[..k] + text + [s[k..][|text|]] + s[k..][|text| + 1..]
    ensures |text| == |s[k..]| ==> s == s[..k] + text
  {
  }

  predicate IsDigit(c: byte) {
    ZERO <= c < ZERO + 10
  }

  predicate IsSpace(c: byte) {
    c == 32 || 9 <= c <= 13
  }

  function Digits(s: bytes, value: nat): nat {
    if s == [] || !IsDigit(s[0]) then value else Digits(s[1..], value * 10 + (s[0] - ZERO))
  }

  /** The number a string begins with, after spaces and a sign. */
  function Number(s: bytes): int {
    if s == [] then 0
    else if IsSpace(s[0]) then Number(s[1..])
    else if s[0] == MINUS then 0 - Digits(s[1..], 0)
    else if s[0] == PLUS then Digits(s[1..], 0)
    else Digits(s, 0)
  }

  type int32 = x: int | -0x8000_0000 <= x < 0x8000_0000

  type uint32 = x: int | 0 <= x < 0x1_0000_0000

  /** atoi; none when the number does not fit an int, where its behavior is undefined. */
  function Atoi(s: bytes): Option<int32> {
    if -0x8000_0000 <= Number(s) < 0x8000_0000 then Some(Number(s)) else None
  }

  /** Storing an int in a uint32_t: a negative one wraps. */
  function AsUint32(v: int32): uint32 {
    if v < 0 then v + 0x1_0000_0000 else v
  }

  /** Up to a multiple of 2^32 it stays what it was. */
  lemma AsUint32Wraps(v: int32)
    ensures v >= 0 ==> AsUint32(v) == v
    ensures v < 0 ==> AsUint32(v) == v + 0x1_0000_0000 && AsUint32(v) >= 0x8000_0000
  {
  }

  datatype SeekTo = SeekTo(writeCmd: uint32, writeCmdOffset: uint32)

  /** The two tokens as the numbers of a seek. */
  function Numbers(cmd: bytes, offset: bytes): Option<SeekTo> {
    match (Atoi(cmd), Atoi(offset))
    case (Some(x), Some(y)) => Some(SeekTo(AsUint32(x), AsUint32(y)))
    case _ => None
  }

  /** What appendToFile makes of a line with the keyword in it; none when a token is missing,
      where the source hands a null pointer to atoi, or holds a number atoi is not defined for. */
  function Parse(line: bytes): Option<SeekTo> {
    match Strtok(line, COLON)
    case None => None
    case Some(first) =>
      match Strtok(first.rest, COMMA)
      case None => None
      case Some(second) =>
        match Strtok(second.rest, COMMA)
        case None => None
        case Some(third) => Numbers(second.text, third.text)
  }

  function Decimal(n: nat): bytes {
    if n < 10 then [ZERO + n] else Decimal(n / 10) + [ZERO + n % 10]
  }

  /** The command as a client writes it. */
  function Format(keyword: bytes, cmd: SeekTo): bytes {
    keyword + [COLON] + (Decimal(cmd.writeCmd) + [COMMA] + (Decimal(cmd.writeCmdOffset) + [NEWLINE]))
  }

  lemma {:induction false} DecimalDigits(n: nat)
    ensures Decimal(n) != [] && forall i :: 0 <= i < |Decimal(n)| ==> IsDigit(Decimal(n)[i])
  {
    if n >= 10 { DecimalDigits(n / 10); }
  }

  lemma {:induction false} ReadDecimal(n: nat, tail: bytes)
    ensures Digits(Decimal(n) + tail, 0) == Digits(tail, n)
  {
    var d: byte := ZERO + n % 10;
    if n < 10 {
      assert (Decimal(n) + tail)[1..] == tail;
    } else {
      ReadDecimal(n / 10, [d] + tail);
      assert Decimal(n) + tail == Decimal(n / 10) + ([d] + tail);
      assert ([d] + tail)[1..] == tail;
    }
  }

  lemma NumberDecimal(n: nat, tail: bytes)
    requires tail == [] || !IsDigit(tail[0])
    ensures Number(Decimal(n) + tail) == n
  {
    DecimalDigits(n);
    ReadDecimal(n, tail);
  }

  lemma {:induction false} UpToDelimiter(s: bytes, delimiter: byte, tail: bytes)
    requires delimiter !in s
    ensures UpTo(s + [delimiter] + tail, delimiter) == s
  {
    if s == [] {
      assert s + [delimiter] + tail == [delimiter] + tail;
    } else {
      UpToDelimiter(s[1..], delimiter, tail);
      assert (s + [delimiter] + tail)[1..] == s[1..] + [delimiter] + tail;
    }
  }

  lemma {:induction false} UpToEnd(s: bytes, delimiter: byte)
    requires delimiter !in s
    ensures UpTo(s, delimiter) == s
  {
    if s != [] { UpToEnd(s[1..], delimiter); }
  }

  lemma StrtokDelimited(s: bytes, delimiter: byte, tail: bytes)
    requires s != [] && delimiter !in s
    ensures Strtok(s + [delimiter] + tail, delimiter) == Some(Token(s, tail))
  {
    var t := s + [delimiter] + tail;
    assert t[0] == s[0] && s[0] in s;
    UpToDelimiter(s, delimiter, tail);
  }

  lemma StrtokLast(s: bytes, delimiter: byte)
    requires s != [] && delimiter !in s
    ensures Strtok(s, delimiter) == Some(Token(s, []))
  {
    assert s[0] in s;
    UpToEnd(s, delimiter);
  }

  lemma {:induction false} ContainsPrefix(s: bytes, key: bytes)
    requires key <= s
    ensures Contains(s, key)
  {
  }

  lemma FormatHasKeyword(keyword: bytes, cmd: SeekTo)
    ensures Contains(Format(keyword, cmd), keyword)
  {
    ContainsPrefix(Format(keyword, cmd), keyword);
  }

  lemma ParseTokens(keyword: bytes, x: bytes, y: bytes)
    requires keyword != [] && COLON !in keyword
    requires x != [] && COMMA !in x && y != [] && COMMA !in y
    ensures Parse(keyword + [COLON] + (x + [COMMA] + y)) == Numbers(x, y)
  {
    StrtokDelimited(keyword, COLON, x + [COMMA] + y);
    StrtokDelimited(x, COMMA, y);
    StrtokLast(y, COMMA);
  }

  ghost predicate Spaces(s: bytes) {
    forall i :: 0 <= i < |s| ==> IsSpace(s[i])
  }

  /** A number is read behind spaces and one sign, and up to the first character that is no digit. */
  lemma {:induction false} NumberSigned(spaces: bytes, sign: bytes, n: nat, tail: bytes)
    requires Spaces(spaces) && (sign == [] || sign == [PLUS] || sign == [MINUS])
    requires tail == [] || !IsDigit(tail[0])
    ensures Number(spaces + sign + (Decimal(n) + tail)) == if sign == [MINUS] then 0 - n else n
  {
    var s := spaces + sign + (Decimal(n) + tail);
    if spaces != [] {
      NumberSigned(spaces[1..], sign, n, tail);
      assert s[1..] == spaces[1..] + sign + (Decimal(n) + tail);
      assert s[0] == spaces[0];
    } else if sign != [] {
      assert s[0] == sign[0] && s[1..] == Decimal(n) + tail;
      ReadDecimal(n, tail);
    } else {
      assert s == Decimal(n) + tail;
      NumberDecimal(n, tail);
    }
  }

  predicate FitsInt(cmd: SeekTo) {
    cmd.writeCmd < 0x8000_0000 && cmd.writeCmdOffset < 0x8000_0000
  }

  /** Parsing undoes formatting exactly when both numbers fit an int: the driver is then asked
      for just the command and offset the client wrote down.  Any keyword without a colon will
      do. */
  lemma ParseFormat(keyword: bytes, cmd: SeekTo)
    requires keyword != [] && COLON !in keyword
    ensures Parse(Format(keyword, cmd)) == if FitsInt(cmd) then Some(cmd) else None
  {
    var x, y := Decimal(cmd.writeCmd), Decimal(cmd.writeCmdOffset) + [NEWLINE];
    DecimalDigits(cmd.writeCmd);
    DecimalDigits(cmd.writeCmdOffset);
    NumberDecimal(cmd.writeCmd, []);
    assert x + [] == x;
    NumberDecimal(cmd.writeCmdOffset, [NEWLINE]);
    ParseTokens(keyword, x, y);
  }

  /** Neither newline nor NUL occurs in the command before its last byte. */
  lemma FormatIsLine(keyword: bytes, cmd: SeekTo)
    requires NEWLINE !in keyword && 0 !in keyword
    ensures IsLine(Format(keyword, cmd)) && 0 !in Format(keyword, cmd)
  {
    DecimalDigits(cmd.writeCmd);
    DecimalDigits(cmd.writeCmdOffset);
    var s := Format(keyword, cmd);
    var body := keyword + [COLON] + (Decimal(cmd.writeCmd) + [COMMA] + Decimal(cmd.writeCmdOffset));
    assert s == body + [NEWLINE];
    assert s[..|s| - 1] == body;
  }
}
