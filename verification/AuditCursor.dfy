/**
  The opaque cursor of the audit log: the position `(created_at, id)` of a row
  as text, and back.
 */
module AuditCursor {
  import opened Basics
  import opened Base64Url
  import opened Time

  // Numbers as text

  function DigitOf(d: nat): char
    requires d < 16
  {
    if d < 10 then (d + 48) as char else (d + 87) as char
  }

  /** The value of a digit in either case, if it is one of the base. */
  function DigitValue(c: char, base: nat): (d: Option<nat>)
    ensures d.Some? ==> d.value < base
  {
    var value := if '0' <= c <= '9' then c as int - 48
                 else if 'a' <= c <= 'f' then c as int - 87
                 else if 'A' <= c <= 'F' then c as int - 55
                 else base;
    if value < base then Some(value) else None
  }

  lemma DigitCharacters(d: nat)
    requires d < 16
    ensures DigitOf(d) == "0123456789abcdef"[d]
  {
  }

  function Decimal(n: nat): (text: string)
    ensures text != ""
    ensures forall i :: 0 <= i < |text| ==> '0' <= text[i] <= '9'
  {
    if n < 10 then [DigitOf(n)] else Decimal(n / 10) + [DigitOf(n % 10)]
  }

  function Pow16(width: nat): (p: nat)
    ensures p > 0
  {
    if width == 0 then 1 else 16 * Pow16(width - 1)
  }

  /** Exactly `width` lower-case hexadecimal digits. */
  function Hex(n: nat, width: nat): (text: string)
    ensures |text| == width
    ensures forall i :: 0 <= i < width ==> '0' <= text[i] <= '9' || 'a' <= text[i] <= 'f'
  {
    if width == 0 then "" else Hex(n / 16, width - 1) + [DigitOf(n % 16)]
  }

  function ParseDigits(text: string, base: nat): Option<nat> {
    if text == "" then Some(0)
    else
      match (ParseDigits(text[..|text| - 1], base), DigitValue(text[|text| - 1], base))
      case (Some(high), Some(d)) => Some(high * base + d)
      case _ => None
  }

  lemma {:induction false} DecimalRoundTrip(n: nat)
    ensures ParseDigits(Decimal(n), 10) == Some(n)
  {
    var text := Decimal(n);
    if n < 10 {
      assert text[..0] == "";
    } else {
      DecimalRoundTrip(n / 10);
      assert text[..|text| - 1] == Decimal(n / 10);
    }
  }

  lemma DigitRoundTrip(d: nat, base: nat)
    requires d < base <= 16
    ensures DigitValue(DigitOf(d), base) == Some(d)
  {
  }

  lemma {:induction false} HexRoundTrip(n: nat, width: nat)
    requires n < Pow16(width)
    ensures ParseDigits(Hex(n, width), 16) == Some(n)
  {
    hide DigitOf, DigitValue;
    if width > 0 {
      DigitRoundTrip(n % 16, 16);
      HexRoundTrip(n / 16, width - 1);
      var text := Hex(n, width);
      assert text[..|text| - 1] == Hex(n / 16, width - 1);
    }
  }

  lemma {:induction false} ParsedHexIsBounded(text: string)
    requires ParseDigits(text, 16).Some?
    ensures ParseDigits(text, 16).value < Pow16(|text|)
  {
    if text != "" {
      ParsedHexIsBounded(text[..|text| - 1]);
    }
  }

  function SignedDecimal(n: int): string {
    if n < 0 then "-" + Decimal(-n) else Decimal(n)
  }

  const I128_MIN: int := -0x8000_0000_0000_0000_0000_0000_0000_0000

  /** `i128::from_str`: an optional sign, at least one digit, no overflow. */
  function ParseI128(text: string): Option<int> {
    var signed := text != "" && (text[0] == '-' || text[0] == '+');
    var digits := if signed then text[1..] else text;
    if digits == "" then None
    else
      match ParseDigits(digits, 10)
      case None => None
      case Some(n) =>
        var magnitude: int := n;
        var value := if signed && text[0] == '-' then -magnitude else magnitude;
        if I128_MIN <= value < -I128_MIN then Some(value) else None
  }

  lemma SignedDecimalRoundTrip(n: int)
    requires I128_MIN <= n < -I128_MIN
    ensures ParseI128(SignedDecimal(n)) == Some(n)
    ensures ':' !in SignedDecimal(n)
  {
    hide Decimal, ParseDigits;
    var digits := Decimal(if n < 0 then -n else n);
    DecimalRoundTrip(if n < 0 then -n else n);
    if n < 0 {
      assert SignedDecimal(n)[1..] == digits;
    } else {
      assert SignedDecimal(n) == digits;
    }
  }

  // Identifiers

  /** A 128-bit identifier; the database orders them by value, most significant byte first. */
  type Uuid = id: nat | id < Pow16(32) witness 0

  function Hyphenate(hex: string): string
    requires |hex| == 32
  {
    hex[..8] + "-" + hex[8..12] + "-" + hex[12..16] + "-" + hex[16..20] + "-" + hex[20..]
  }

  function UuidText(id: Uuid): string {
    Hyphenate(Hex(id, 32))
  }

  function ParseSimpleUuid(text: string): Option<Uuid>
    requires |text| == 32
  {
    match ParseDigits(text, 16)
    case None => None
    case Some(n) => ParsedHexIsBounded(text); Some(n)
  }

  function ParseHyphenated(text: string): Option<Uuid>
    requires |text| == 36
  {
    if text[8] == text[13] == text[18] == text[23] == '-' then
      ParseSimpleUuid(text[..8] + text[9..13] + text[14..18] + text[19..23] + text[24..])
    else None
  }

  /** `Uuid::parse_str`: bare digits, hyphenated, in braces, or as a URN. */
  function ParseUuid(text: string): Option<Uuid> {
    if |text| == 32 then ParseSimpleUuid(text)
    else if |text| == 36 then ParseHyphenated(text)
    else if |text| == 38 && text[0] == '{' && text[37] == '}' then ParseHyphenated(text[1..37])
    else if |text| == 45 && text[..9] == "urn:uuid:" then ParseHyphenated(text[9..])
    else None
  }

  lemma HyphensInPlace(hex: string)
    requires |hex| == 32
    ensures var text := Hyphenate(hex);
            && |text| == 36 && text[8] == text[13] == text[18] == text[23] == '-'
            && text[..8] + text[9..13] + text[14..18] + text[19..23] + text[24..] == hex
  {
    var text := Hyphenate(hex);
    assert text[..8] == hex[..8] && text[9..13] == hex[8..12] && text[14..18] == hex[12..16];
    assert text[19..23] == hex[16..20] && text[24..] == hex[20..];
    assert hex[..8] + hex[8..12] + hex[12..16] + hex[16..20] + hex[20..] == hex;
  }

  lemma UuidRoundTrip(id: Uuid)
    ensures ParseUuid(UuidText(id)) == Some(id)
  {
    hide Pow16, ParseDigits, Hex, Hyphenate;
    HexRoundTrip(id, 32);
    HyphensInPlace(Hex(id, 32));
  }

  // The cursor

  predicate Ascii(text: string) {
    forall i :: 0 <= i < |text| ==> text[i] < 128 as char
  }

  lemma SignedDecimalIsAscii(n: int)
    ensures Ascii(SignedDecimal(n))
  {
    hide Decimal;
  }

  lemma UuidTextIsAscii(id: Uuid)
    ensures Ascii(UuidText(id))
  {
    hide Hex, Pow16;
  }

  function AsciiBytes(text: string): seq<Byte>
    requires Ascii(text)
  {
    seq(|text|, i requires 0 <= i < |text| => text[i] as int)
  }

  /** Text outside ASCII, valid UTF-8 or not, parses neither as a number nor as an identifier. */
  function AsciiText(bytes: seq<Byte>): Option<string> {
    if forall i :: 0 <= i < |bytes| ==> bytes[i] < 128 then
      Some(seq(|bytes|, i requires 0 <= i < |bytes| => bytes[i] as char))
    else None
  }

  lemma AsciiRoundTrip(text: string)
    requires Ascii(text)
    ensures AsciiText(AsciiBytes(text)) == Some(text)
  {
    var bytes := AsciiBytes(text);
    assert forall i :: 0 <= i < |bytes| ==> bytes[i] == text[i] as int;
    assert forall i :: 0 <= i < |bytes| ==> bytes[i] < 128;
    var back := AsciiText(bytes).value;
    assert |back| == |text| && forall i :: 0 <= i < |back| ==> back[i] == bytes[i] as char == text[i];
    assert back == text;
  }

  /** The text before and after the first occurrence of a character. */
  function SplitOnce(text: string, sep: char): Option<(string, string)> {
    if text == "" then None
    else if text[0] == sep then Some(("", text[1..]))
    else
      match SplitOnce(text[1..], sep)
      case None => None
      case Some((before, after)) => Some(([text[0]] + before, after))
  }

  lemma {:induction false} SplitOnceAtFirst(before: string, sep: char, after: string)
    requires sep !in before
    ensures SplitOnce(before + [sep] + after, sep) == Some((before, after))
  {
    var text := before + [sep] + after;
    if before == "" {
      assert text[1..] == after;
    } else {
      SplitOnceAtFirst(before[1..], sep, after);
      assert text[1..] == before[1..] + [sep] + after;
      assert [before[0]] + before[1..] == before;
    }
  }

  function CursorText(createdAt: Instant, id: Uuid): (text: string)
    ensures Ascii(text)
  {
    SignedDecimalIsAscii(createdAt);
    UuidTextIsAscii(id);
    hide SignedDecimal, UuidText;
    SignedDecimal(createdAt) + ":" + UuidText(id)
  }

  function EncodeCursor(createdAt: Instant, id: Uuid): string {
    Encode(AsciiBytes(CursorText(createdAt, id)))
  }

  function ParseCursorText(text: string): Option<(Instant, Uuid)> {
    match SplitOnce(text, ':')
    case None => None
    case Some((nanos, id)) =>
      match (ParseI128(nanos), ParseUuid(id))
      case (Some(t), Some(uuid)) => if MIN_TIME <= t <= MAX_TIME then Some((t, uuid)) else None
      case _ => None
  }

  function DecodeCursor(cursor: string): Result<(Instant, Uuid), string> {
    match Decode(cursor)
    case None => Err("invalid cursor")
    case Some(raw) =>
      match AsciiText(raw)
      case None => Err("invalid cursor")
      case Some(text) =>
        match ParseCursorText(text)
        case None => Err("invalid cursor")
        case Some(position) => Ok(position)
  }

  lemma CursorTextRoundTrip(createdAt: Instant, id: Uuid)
    ensures ParseCursorText(CursorText(createdAt, id)) == Some((createdAt, id))
  {
    SignedDecimalRoundTrip(createdAt);
    UuidRoundTrip(id);
    SplitOnceAtFirst(SignedDecimal(createdAt), ':', UuidText(id));
  }

  /** Every position survives its cursor: all representable times, negative ones included, and all ids. */
  lemma CursorRoundTrip(createdAt: Instant, id: Uuid)
    ensures DecodeCursor(EncodeCursor(createdAt, id)) == Ok((createdAt, id))
  {
    var text := CursorText(createdAt, id);
    DecodeEncode(AsciiBytes(text));
    AsciiRoundTrip(text);
    CursorTextRoundTrip(createdAt, id);
  }

  // Exactly the cursors that are accepted

  function Zeros(k: nat): (text: string)
    ensures |text| == k && forall i :: 0 <= i < k ==> text[i] == '0'
  {
    seq(k, _ => '0')
  }

  lemma {:induction false} LeadingZeros(k: nat, text: string, base: nat)
    requires base > 0
    ensures ParseDigits(Zeros(k) + text, base) == ParseDigits(text, base)
    decreases |text|, k
  {
    hide DigitValue;
    var all := Zeros(k) + text;
    if text != "" {
      LeadingZeros(k, text[..|text| - 1], base);
      assert all[..|all| - 1] == Zeros(k) + text[..|text| - 1];
    } else {
      assert all == Zeros(k);
      if k > 0 {
        LeadingZeros(k - 1, "", base);
        assert all[..k - 1] == Zeros(k - 1) + "";
        assert DigitValue('0', base) == Some(0) by { ZeroDigit(base); }
      }
    }
  }

  lemma ZeroDigit(base: nat)
    requires base > 0
    ensures DigitValue('0', base) == Some(0)
  {
  }

  lemma DecimalDigit(c: char)
    ensures DigitValue(c, 10).Some? ==> DigitValue(c, 10).value < 10 && DigitOf(DigitValue(c, 10).value) == c
  {
  }

  lemma ParseLast(front: string, c: char, base: nat)
    ensures ParseDigits(front + [c], base) ==
            if ParseDigits(front, base).None? || DigitValue(c, base).None? then None
            else Some(ParseDigits(front, base).value * base + DigitValue(c, base).value)
    ensures ParseDigits("", base) == Some(0)
  {
    hide DigitValue;
    assert (front + [c])[..|front|] == front;
  }

  lemma DecimalLast(high: nat, d: nat)
    requires high > 0 && d < 10
    ensures Decimal(high * 10 + d) == Decimal(high) + [DigitOf(d)]
  {
    hide DigitOf;
    assert (high * 10 + d) / 10 == high && (high * 10 + d) % 10 == d;
  }

  lemma OneDigit(d: nat)
    requires d < 10
    ensures Decimal(d) == [DigitOf(d)]
  {
  }

  /** A number in decimal is its digits after any zeros, and nothing else. */
  lemma {:induction false} DecimalIsCanonical(text: string, n: nat)
    requires text != "" && ParseDigits(text, 10) == Some(n)
    ensures |Decimal(n)| <= |text| && text == Zeros(|text| - |Decimal(n)|) + Decimal(n)
    decreases |text|
  {
    hide DigitOf, DigitValue, ParseDigits, Decimal, Zeros;
    var front, c := text[..|text| - 1], text[|text| - 1];
    assert text == front + [c];
    ParseLast(front, c, 10);
    DecimalDigit(c);
    var high, d := ParseDigits(front, 10).value, DigitValue(c, 10).value;
    if front == "" || high == 0 {
      OneDigit(d);
      assert front == Zeros(|front|) by {
        if front != "" {
          DecimalIsCanonical(front, 0);
          ZeroIsZero();
        }
      }
    } else {
      DecimalIsCanonical(front, high);
      DecimalLast(high, d);
      assert text == Zeros(|front| - |Decimal(high)|) + (Decimal(high) + [c]);
    }
  }

  lemma ZeroIsZero()
    ensures Decimal(0) == ['0']
  {
  }

  predicate IsSign(sign: string) {
    sign == "" || sign == "+" || sign == "-"
  }

  /** A signed number as it may be written: a sign, which may be missing or idle, zeros, and the digits. */
  predicate SpellsNumber(text: string, sign: string, zeros: nat, value: int) {
    && IsSign(sign) && (if sign == "-" then value <= 0 else value >= 0)
    && text == sign + (Zeros(zeros) + Decimal(if value < 0 then -value else value))
  }

  predicate AllDigits(text: string) {
    text != "" && forall i :: 0 <= i < |text| ==> '0' <= text[i] <= '9'
  }

  lemma ZerosAndDigits(zeros: nat, n: nat)
    ensures AllDigits(Zeros(zeros) + Decimal(n)) && ParseDigits(Zeros(zeros) + Decimal(n), 10) == Some(n)
  {
    LeadingZeros(zeros, Decimal(n), 10);
    DecimalRoundTrip(n);
    hide ParseDigits;
  }

  lemma SignedDigits(sign: string, digits: string)
    requires IsSign(sign) && AllDigits(digits)
    ensures ':' !in sign + digits && Ascii(sign + digits)
    ensures var text := sign + digits;
            var signed := text[0] == '-' || text[0] == '+';
            && (signed <==> sign != "") && (text[0] == '-' <==> sign == "-")
            && (if signed then text[1..] else text) == digits
  {
    if sign == "" {
      assert sign + digits == digits;
    } else {
      assert (sign + digits)[1..] == digits;
    }
  }

  lemma SpelledNumberParses(text: string, sign: string, zeros: nat, value: int)
    requires SpellsNumber(text, sign, zeros, value) && I128_MIN <= value < -I128_MIN
    ensures ParseI128(text) == Some(value)
    ensures ':' !in text && Ascii(text)
  {
    hide Decimal, ParseDigits, Zeros, Ascii, AllDigits;
    var magnitude: nat := if value < 0 then -value else value;
    var digits := Zeros(zeros) + Decimal(magnitude);
    ZerosAndDigits(zeros, magnitude);
    SignedDigits(sign, digits);
    assert digits != "" by { NotEmpty(digits); }
  }

  lemma NotEmpty(digits: string)
    requires AllDigits(digits)
    ensures digits != ""
  {
  }

  lemma ParsedNumberIsSpelled(text: string) returns (sign: string, zeros: nat)
    requires ParseI128(text).Some?
    ensures SpellsNumber(text, sign, zeros, ParseI128(text).value)
  {
    hide Decimal, ParseDigits, Zeros, Ascii;
    var signed := text[0] == '-' || text[0] == '+';
    sign := if signed then [text[0]] else "";
    var digits := if signed then text[1..] else text;
    var n := ParseDigits(digits, 10).value;
    DecimalIsCanonical(digits, n);
    zeros := |digits| - |Decimal(n)|;
    assert text == sign + digits;
  }

  /** The same hexadecimal digits, in either case. */
  predicate SameDigits(a: string, b: string) {
    |a| == |b| && forall i :: 0 <= i < |a| ==> DigitValue(a[i], 16).Some? && DigitValue(a[i], 16) == DigitValue(b[i], 16)
  }

  lemma HexLast(n: nat, width: nat)
    ensures Hex(n, width + 1) == Hex(n / 16, width) + [DigitOf(n % 16)]
    ensures n < Pow16(width + 1) <==> n / 16 < Pow16(width)
    ensures Hex(n, 0) == "" && Pow16(0) == 1
  {
    hide DigitOf;
  }

  lemma LastDigit(n: nat, high: nat, d: nat)
    requires d < 16
    ensures n == high * 16 + d <==> n / 16 == high && n % 16 == d
  {
  }

  /** Hexadecimal text is read as the one number whose digits it shows. */
  lemma {:induction false} HexReadIff(text: string, n: nat)
    ensures ParseDigits(text, 16) == Some(n) <==> n < Pow16(|text|) && SameDigits(text, Hex(n, |text|))
    decreases |text|
  {
    hide DigitValue, DigitOf, ParseDigits, Hex, Pow16, SameDigits;
    if text == "" {
      ParseLast("", '0', 16);
      HexLast(n, 0);
      assert SameDigits("", "") by { NoDigits(); }
    } else {
      var front, c := text[..|text| - 1], text[|text| - 1];
      assert text == front + [c];
      HexReadIff(front, n / 16);
      ParseLast(front, c, 16);
      HexLast(n, |front|);
      DigitRoundTrip(n % 16, 16);
      SameDigitsLast(front, c, Hex(n / 16, |front|), DigitOf(n % 16));
      DigitBelowBase(c);
      if ParseDigits(front, 16).Some? && DigitValue(c, 16).Some? {
        LastDigit(n, ParseDigits(front, 16).value, DigitValue(c, 16).value);
      }
    }
  }

  lemma NoDigits()
    ensures SameDigits("", "")
  {
  }

  lemma DigitBelowBase(c: char)
    ensures DigitValue(c, 16).Some? ==> DigitValue(c, 16).value < 16
  {
  }

  lemma SameDigitsLast(a: string, x: char, b: string, y: char)
    requires |a| == |b|
    ensures SameDigits(a + [x], b + [y]) <==> SameDigits(a, b) && DigitValue(x, 16).Some? && DigitValue(x, 16) == DigitValue(y, 16)
  {
    hide DigitValue;
    var p, q := a + [x], b + [y];
    assert forall i :: 0 <= i < |a| ==> p[i] == a[i] && q[i] == b[i];
    assert p[|a|] == x && q[|a|] == y;
  }

  /** The four ways an identifier may be written, around its 32 digits. */
  predicate SpellsUuid(text: string, digits: string, id: Uuid) {
    && |digits| == 32 && SameDigits(digits, Hex(id, 32))
    && (|| text == digits || text == Hyphenate(digits)
        || text == "{" + Hyphenate(digits) + "}" || text == "urn:uuid:" + Hyphenate(digits))
  }

  lemma SimpleUuidIff(digits: string, id: Uuid)
    requires |digits| == 32
    ensures ParseSimpleUuid(digits) == Some(id) <==> SameDigits(digits, Hex(id, 32))
  {
    hide Pow16, ParseDigits, Hex, SameDigits;
    HexReadIff(digits, id);
  }

  /** Hyphens in place, and the digits around them. */
  lemma HyphenatedIff(text: string, digits: string)
    requires |text| == 36 && |digits| == 32
    ensures text == Hyphenate(digits) <==>
            && text[8] == text[13] == text[18] == text[23] == '-'
            && digits == text[..8] + text[9..13] + text[14..18] + text[19..23] + text[24..]
  {
    HyphensInPlace(digits);
    if text[8] == text[13] == text[18] == text[23] == '-' {
      var bare := text[..8] + text[9..13] + text[14..18] + text[19..23] + text[24..];
      assert bare[..8] == text[..8] && bare[8..12] == text[9..13] && bare[12..16] == text[14..18];
      assert bare[16..20] == text[19..23] && bare[20..] == text[24..];
      assert Hyphenate(bare) == text[..8] + [text[8]] + text[9..13] + [text[13]] + text[14..18] + [text[18]] + text[19..23] + [text[23]] + text[24..];
      assert Hyphenate(bare) == text;
    }
  }

  lemma ParsedUuidIsSpelled(text: string) returns (digits: string)
    requires ParseUuid(text).Some?
    ensures SpellsUuid(text, digits, ParseUuid(text).value)
  {
    hide Pow16, ParseDigits, Hex, SameDigits, ParseSimpleUuid, Hyphenate;
    var id := ParseUuid(text).value;
    if |text| == 32 {
      digits := text;
    } else {
      var body := if |text| == 36 then text else if |text| == 38 then text[1..37] else text[9..];
      digits := body[..8] + body[9..13] + body[14..18] + body[19..23] + body[24..];
      HyphenatedIff(body, digits);
      if |text| == 38 {
        assert text == "{" + body + "}";
      } else if |text| == 45 {
        assert text == "urn:uuid:" + body;
      }
    }
    SimpleUuidIff(digits, id);
  }

  lemma SpelledUuidParses(text: string, digits: string, id: Uuid)
    requires SpellsUuid(text, digits, id)
    ensures ParseUuid(text) == Some(id)
  {
    var body := Hyphenate(digits);
    HyphensInPlace(digits);
    hide Pow16, ParseDigits, Hex, SameDigits, ParseSimpleUuid, Hyphenate;
    SimpleUuidIff(digits, id);
    HyphenatedIff(body, digits);
    if text == "{" + body + "}" {
      assert text[1..37] == body;
    } else if text == "urn:uuid:" + body {
      assert text[..9] == "urn:uuid:" && text[9..] == body;
    }
  }

  lemma {:induction false} SplitOnceIff(text: string, sep: char)
    ensures if SplitOnce(text, sep).None? then sep !in text
            else var parts := SplitOnce(text, sep).value; sep !in parts.0 && text == parts.0 + [sep] + parts.1
  {
    if text != "" && text[0] != sep {
      SplitOnceIff(text[1..], sep);
      assert text == [text[0]] + text[1..];
    }
  }

  /** A cursor that spells the position: the encoded text of its number and identifier, in any accepted writing. */
  ghost predicate SpellsCursor(cursor: string, createdAt: Instant, id: Uuid) {
    exists number: string, sign: string, zeros: nat, uuid: string, digits: string ::
      && SpellsNumber(number, sign, zeros, createdAt) && SpellsUuid(uuid, digits, id)
      && Ascii(number + ":" + uuid) && cursor == Encode(AsciiBytes(number + ":" + uuid))
  }

  lemma AsciiTextIff(bytes: seq<Byte>, text: string)
    ensures AsciiText(bytes) == Some(text) <==> Ascii(text) && bytes == AsciiBytes(text)
  {
    if Ascii(text) && bytes == AsciiBytes(text) {
      AsciiRoundTrip(text);
    }
    if AsciiText(bytes) == Some(text) {
      assert forall i :: 0 <= i < |text| ==> text[i] == bytes[i] as char && text[i] as int == bytes[i];
      assert bytes == AsciiBytes(text);
    }
  }

  lemma CursorTextIff(text: string, createdAt: Instant, id: Uuid)
    ensures ParseCursorText(text) == Some((createdAt, id)) <==>
            exists number: string, sign: string, zeros: nat, uuid: string, digits: string ::
              && SpellsNumber(number, sign, zeros, createdAt) && SpellsUuid(uuid, digits, id) && text == number + ":" + uuid
  {
    hide SpellsNumber, SpellsUuid, ParseI128, ParseUuid, SplitOnce;
    if ParseCursorText(text) == Some((createdAt, id)) {
      SplitOnceIff(text, ':');
      var (number, uuid) := SplitOnce(text, ':').value;
      var sign, zeros := ParsedNumberIsSpelled(number);
      var digits := ParsedUuidIsSpelled(uuid);
      assert SpellsNumber(number, sign, zeros, createdAt) && SpellsUuid(uuid, digits, id) && text == number + ":" + uuid;
    }
    if number: string, sign: string, zeros: nat, uuid: string, digits: string :|
      SpellsNumber(number, sign, zeros, createdAt) && SpellsUuid(uuid, digits, id) && text == number + ":" + uuid
    {
      SpelledNumberParses(number, sign, zeros, createdAt);
      SpelledUuidParses(uuid, digits, id);
      SplitOnceAtFirst(number, ':', uuid);
    }
  }

  /** A cursor is read as a position exactly when it spells that position; every other text is refused. */
  lemma DecodedIff(cursor: string, createdAt: Instant, id: Uuid)
    ensures DecodeCursor(cursor) == Ok((createdAt, id)) <==> SpellsCursor(cursor, createdAt, id)
  {
    hide SpellsNumber, SpellsUuid, ParseCursorText, Decode, Encode, AsciiBytes, AsciiText;
    if DecodeCursor(cursor) == Ok((createdAt, id)) {
      var bytes := Decode(cursor).value;
      var text := AsciiText(bytes).value;
      EncodeDecode(cursor);
      AsciiTextIff(bytes, text);
      CursorTextIff(text, createdAt, id);
    }
    if number: string, sign: string, zeros: nat, uuid: string, digits: string :|
      && SpellsNumber(number, sign, zeros, createdAt) && SpellsUuid(uuid, digits, id)
      && Ascii(number + ":" + uuid) && cursor == Encode(AsciiBytes(number + ":" + uuid))
    {
      var text := number + ":" + uuid;
      DecodeEncode(AsciiBytes(text));
      AsciiTextIff(AsciiBytes(text), text);
      CursorTextIff(text, createdAt, id);
    }
  }
}
