/** Unpadded base64url (section 5 of RFC 4648), with the strict decoding that refuses stray trailing bits. */
module Base64Url {
  import opened Basics

  type Sextet = s: int | 0 <= s < 64

  function CharOf(s: Sextet): char {
    if s < 26 then (s + 65) as char
    else if s < 52 then (s + 71) as char
    else if s < 62 then (s - 4) as char
    else if s == 62 then '-'
    else '_'
  }

  function ValueOf(c: char): Option<Sextet> {
    if 'A' <= c <= 'Z' then Some(c as int - 65)
    else if 'a' <= c <= 'z' then Some(c as int - 71)
    else if '0' <= c <= '9' then Some(c as int + 4)
    else if c == '-' then Some(62)
    else if c == '_' then Some(63)
    else None
  }

  lemma SymbolRoundTrip(s: Sextet, c: char)
    ensures ValueOf(CharOf(s)) == Some(s)
    ensures ValueOf(c).Some? ==> CharOf(ValueOf(c).value) == c
  {
  }

  /** The alphabet of the URL-safe encoding, in its order. */
  lemma Alphabet(s: Sextet)
    ensures 0 <= s < 26 ==> CharOf(s) as int == 'A' as int + s
    ensures 26 <= s < 52 ==> CharOf(s) as int == 'a' as int + (s - 26)
    ensures 52 <= s < 62 ==> CharOf(s) as int == '0' as int + (s - 52)
    ensures CharOf(62) == '-' && CharOf(63) == '_'
  {
  }

  function FirstSextet(a: Byte): Sextet { a as int / 4 }

  function SecondSextet(a: Byte, b: Byte): Sextet { a as int % 4 * 16 + b as int / 16 }

  function ThirdSextet(b: Byte, c: Byte): Sextet { b as int % 16 * 4 + c as int / 64 }

  function FourthSextet(c: Byte): Sextet { c as int % 64 }

  /** Three bytes to four sextets; a last group of one or two bytes is completed with zero bits. */
  function Sextets(b: seq<Byte>): seq<Sextet> {
    if b == [] then []
    else if |b| == 1 then [FirstSextet(b[0]), SecondSextet(b[0], 0)]
    else if |b| == 2 then [FirstSextet(b[0]), SecondSextet(b[0], b[1]), ThirdSextet(b[1], 0)]
    else [FirstSextet(b[0]), SecondSextet(b[0], b[1]), ThirdSextet(b[1], b[2]), FourthSextet(b[2])] + Sextets(b[3..])
  }

  function FirstByte(a: Sextet, b: Sextet): Byte { a as int * 4 + b as int / 16 }

  function SecondByte(b: Sextet, c: Sextet): Byte { b as int % 16 * 16 + c as int / 4 }

  function ThirdByte(c: Sextet, d: Sextet): Byte { c as int % 4 * 64 + d as int }

  /** The bytes of a run of sextets, unless its length or its last bits could not come from an encoding. */
  function Bytes(s: seq<Sextet>): Option<seq<Byte>> {
    if s == [] then Some([])
    else if |s| == 1 then None
    else if |s| == 2 then
      if s[1] % 16 != 0 then None else Some([FirstByte(s[0], s[1])])
    else if |s| == 3 then
      if s[2] % 4 != 0 then None else Some([FirstByte(s[0], s[1]), SecondByte(s[1], s[2])])
    else
      match Bytes(s[4..])
      case None => None
      case Some(rest) => Some([FirstByte(s[0], s[1]), SecondByte(s[1], s[2]), ThirdByte(s[2], s[3])] + rest)
  }

  lemma GroupOfBytes(a: Byte, b: Byte, c: Byte)
    ensures FirstByte(FirstSextet(a), SecondSextet(a, b)) == a
    ensures SecondByte(SecondSextet(a, b), ThirdSextet(b, c)) == b
    ensures ThirdByte(ThirdSextet(b, c), FourthSextet(c)) == c
    ensures SecondSextet(a, 0) % 16 == 0 && ThirdSextet(b, 0) % 4 == 0
  {
  }

  /** Three bytes and their four symbols are the same 24-bit number, first byte and first symbol highest. */
  lemma GroupIsOneNumber(a: Byte, b: Byte, c: Byte)
    ensures var symbols := Sextets([a, b, c]);
            && |symbols| == 4
            && (a as int * 256 + b as int) * 256 + c as int ==
               ((symbols[0] as int * 64 + symbols[1] as int) * 64 + symbols[2] as int) * 64 + symbols[3] as int
  {
    assert [a, b, c][3..] == [];
  }

  lemma GroupOfSextets(a: Sextet, b: Sextet, c: Sextet, d: Sextet)
    ensures FirstSextet(FirstByte(a, b)) == a
    ensures SecondSextet(FirstByte(a, b), SecondByte(b, c)) == b
    ensures ThirdSextet(SecondByte(b, c), ThirdByte(c, d)) == c
    ensures FourthSextet(ThirdByte(c, d)) == d
    ensures b % 16 == 0 ==> SecondSextet(FirstByte(a, b), 0) == b
    ensures c % 4 == 0 ==> ThirdSextet(SecondByte(b, c), 0) == c
  {
  }

  lemma {:induction false} BytesOfSextets(b: seq<Byte>)
    ensures Bytes(Sextets(b)) == Some(b)
  {
    hide FirstSextet, SecondSextet, ThirdSextet, FourthSextet, FirstByte, SecondByte, ThirdByte;
    if |b| == 1 {
      GroupOfBytes(b[0], 0, 0);
      assert b == [b[0]];
    } else if |b| == 2 {
      GroupOfBytes(b[0], b[1], 0);
      assert b == [b[0], b[1]];
    } else if |b| >= 3 {
      GroupOfBytes(b[0], b[1], b[2]);
      BytesOfSextets(b[3..]);
      assert Sextets(b)[4..] == Sextets(b[3..]);
      assert b == [b[0], b[1], b[2]] + b[3..];
    }
  }

  lemma {:induction false} SextetsOfBytes(s: seq<Sextet>)
    requires Bytes(s).Some?
    ensures Sextets(Bytes(s).value) == s
  {
    hide FirstSextet, SecondSextet, ThirdSextet, FourthSextet, FirstByte, SecondByte, ThirdByte;
    if |s| == 2 {
      GroupOfSextets(s[0], s[1], 0, 0);
    } else if |s| == 3 {
      GroupOfSextets(s[0], s[1], s[2], 0);
    } else if |s| >= 4 {
      GroupOfSextets(s[0], s[1], s[2], s[3]);
      SextetsOfBytes(s[4..]);
      assert Bytes(s).value[3..] == Bytes(s[4..]).value;
      assert s == [s[0], s[1], s[2], s[3]] + s[4..];
    }
  }

  function Symbols(sextets: seq<Sextet>): string {
    seq(|sextets|, i requires 0 <= i < |sextets| => CharOf(sextets[i]))
  }

  predicate AllSymbols(text: string) {
    forall i :: 0 <= i < |text| ==> ValueOf(text[i]).Some?
  }

  function Values(text: string): seq<Sextet>
    requires AllSymbols(text)
  {
    seq(|text|, i requires 0 <= i < |text| => ValueOf(text[i]).value)
  }

  function Encode(bytes: seq<Byte>): string {
    Symbols(Sextets(bytes))
  }

  function Decode(text: string): Option<seq<Byte>> {
    if AllSymbols(text) then Bytes(Values(text)) else None
  }

  lemma SymbolsRoundTrip(sextets: seq<Sextet>)
    ensures AllSymbols(Symbols(sextets)) && Values(Symbols(sextets)) == sextets
  {
    forall i | 0 <= i < |sextets|
      ensures ValueOf(Symbols(sextets)[i]) == Some(sextets[i])
    {
      SymbolRoundTrip(sextets[i], 'A');
    }
  }

  /** Encoding loses nothing. */
  lemma DecodeEncode(bytes: seq<Byte>)
    ensures Decode(Encode(bytes)) == Some(bytes)
  {
    SymbolsRoundTrip(Sextets(bytes));
    BytesOfSextets(bytes);
  }

  /** Decoding accepts only encodings: no two texts stand for the same bytes. */
  lemma EncodeDecode(text: string)
    requires Decode(text).Some?
    ensures Encode(Decode(text).value) == text
  {
    SextetsOfBytes(Values(text));
    forall i | 0 <= i < |text|
      ensures CharOf(Values(text)[i]) == text[i]
    {
      SymbolRoundTrip(0, text[i]);
    }
  }
}
