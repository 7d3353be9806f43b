/**
  WebAuthn authenticator data (section 6.1 of WebAuthn Level 2): its layout, and
  the parser that accepts exactly that layout.

  The length of a leading CBOR item is a parameter, of which only one thing is
  asked: that an item is recognized by its own bytes, whatever follows them.
 */
module AuthenticatorData {
  import opened Basics

  const FLAG_ATTESTED: nat := 0x40
  const FLAG_EXTENSIONS: nat := 0x80

  predicate HasFlag(flags: Byte, mask: nat)
    requires mask > 0
  {
    flags / mask % 2 == 1
  }

  datatype Credential = Credential(aaguid: seq<Byte>, id: seq<Byte>, publicKey: seq<Byte>)

  datatype AuthData = AuthData(rpIdHash: seq<Byte>, flags: Byte, signCount: nat, attested: Option<Credential>)

  // CBOR items, as seen by the parser

  /** The length of the item a byte string starts with, if it starts with one. */
  type ItemLength = seq<Byte> -> Option<nat>

  predicate IsItem(len: ItemLength, item: seq<Byte>) {
    len(item) == Some(|item|)
  }

  ghost predicate PrefixDetermined(len: ItemLength) {
    && (forall b: seq<Byte> :: len(b).Some? ==> len(b).value <= |b| && IsItem(len, b[..len(b).value]))
    && (forall item: seq<Byte>, tail: seq<Byte> :: IsItem(len, item) ==> len(item + tail) == Some(|item|))
  }

  // Big-endian integers

  function U16(b: seq<Byte>): nat
    requires |b| == 2
  {
    (b[0] as int) * 256 + b[1] as int
  }

  function U16Bytes(n: nat): (b: seq<Byte>)
    requires n < 0x1_0000
    ensures |b| == 2 && U16(b) == n
  {
    [n / 256, n % 256]
  }

  function U32(b: seq<Byte>): nat
    requires |b| == 4
  {
    U16(b[..2]) * 0x1_0000 + U16(b[2..])
  }

  function U32Bytes(n: nat): (b: seq<Byte>)
    requires n < 0x1_0000_0000
    ensures |b| == 4 && U32(b) == n
  {
    var high, low := U16Bytes(n / 0x1_0000), U16Bytes(n % 0x1_0000);
    var b := high + low;
    assert b[..2] == high && b[2..] == low;
    b
  }

  lemma U16Inverse(b: seq<Byte>)
    requires |b| == 2
    ensures U16(b) < 0x1_0000 && U16Bytes(U16(b)) == b
  {
  }

  lemma U32Inverse(b: seq<Byte>)
    requires |b| == 4
    ensures U32(b) < 0x1_0000_0000 && U32Bytes(U32(b)) == b
  {
    U16Inverse(b[..2]);
    U16Inverse(b[2..]);
    assert b == b[..2] + b[2..];
  }

  /** The two flags the parser reads are the second highest and the highest bit of the byte. */
  lemma FlagBits(flags: Byte)
    ensures HasFlag(flags, FLAG_ATTESTED) <==> 64 <= flags < 128 || 192 <= flags
    ensures HasFlag(flags, FLAG_EXTENSIONS) <==> 128 <= flags
  {
  }

  /** The order of byte strings of one length. */
  predicate BytesBefore(b: seq<Byte>, c: seq<Byte>)
    requires |b| == |c|
  {
    b != [] && (b[0] < c[0] || (b[0] == c[0] && BytesBefore(b[1..], c[1..])))
  }

  lemma BytesBeforeStep(b0: Byte, b: seq<Byte>, c0: Byte, c: seq<Byte>)
    requires |b| == |c|
    ensures BytesBefore([b0] + b, [c0] + c) <==> b0 < c0 || (b0 == c0 && BytesBefore(b, c))
  {
    assert ([b0] + b)[1..] == b && ([c0] + c)[1..] == c;
  }

  /** Counters compare as the bytes that spell them: the most significant byte stands first. */
  lemma CounterOrder(b: seq<Byte>, c: seq<Byte>)
    requires |b| == |c| == 4
    ensures U32(b) < U32(c) <==> BytesBefore(b, c)
  {
    assert b[..2] == [b[0], b[1]] && b[2..] == [b[2], b[3]] && c[..2] == [c[0], c[1]] && c[2..] == [c[2], c[3]];
    hide BytesBefore;
    BytesBeforeStep(b[0], b[1..], c[0], c[1..]);
    BytesBeforeStep(b[1], b[2..], c[1], c[2..]);
    BytesBeforeStep(b[2], b[3..], c[2], c[3..]);
    BytesBeforeStep(b[3], [], c[3], []);
    assert b == [b[0]] + b[1..] && b[1..] == [b[1]] + b[2..] && b[2..] == [b[2]] + b[3..] && b[3..] == [b[3]] + [];
    assert c == [c[0]] + c[1..] && c[1..] == [c[1]] + c[2..] && c[2..] == [c[2]] + c[3..] && c[3..] == [c[3]] + [];
    assert !BytesBefore([], []) by { NothingBefore(); }
  }

  lemma NothingBefore()
    ensures !BytesBefore([], [])
  {
  }

  // The layout

  predicate ValidCredential(len: ItemLength, c: Credential) {
    |c.aaguid| == 16 && 1 <= |c.id| <= 1023 && IsItem(len, c.publicKey)
  }

  function CredentialBytes(c: Credential): seq<Byte>
    requires |c.id| <= 1023
  {
    c.aaguid + U16Bytes(|c.id|) + c.id + c.publicKey
  }

  /** A value and the extension bytes that go with it, as the flags announce them. */
  predicate WellFormed(len: ItemLength, d: AuthData, extensions: seq<Byte>) {
    && |d.rpIdHash| == 32 && d.signCount < 0x1_0000_0000
    && (HasFlag(d.flags, FLAG_ATTESTED) <==> d.attested.Some?)
    && (d.attested.Some? ==> ValidCredential(len, d.attested.value))
    && (if HasFlag(d.flags, FLAG_EXTENSIONS) then IsItem(len, extensions) else extensions == [])
  }

  /** What follows the fixed part. */
  function VariableBytes(attested: Option<Credential>, extensions: seq<Byte>): seq<Byte>
    requires attested.Some? ==> |attested.value.id| <= 1023
  {
    if attested.Some? then CredentialBytes(attested.value) + extensions else extensions
  }

  function Serialize(len: ItemLength, d: AuthData, extensions: seq<Byte>): seq<Byte>
    requires WellFormed(len, d, extensions)
  {
    d.rpIdHash + [d.flags] + U32Bytes(d.signCount) + VariableBytes(d.attested, extensions)
  }

  /** Credential data is read off unambiguously from the front of whatever holds it. */
  lemma CredentialRead(len: ItemLength, c: Credential, tail: seq<Byte>)
    requires PrefixDetermined(len) && ValidCredential(len, c)
    ensures var b := CredentialBytes(c) + tail;
            && |b| >= 18 + |c.id| && b[..16] == c.aaguid && U16(b[16..18]) == |c.id|
            && b[18..][..|c.id|] == c.id
            && b[18..][|c.id|..] == c.publicKey + tail && len(c.publicKey + tail) == Some(|c.publicKey|)
            && (c.publicKey + tail)[..|c.publicKey|] == c.publicKey && (c.publicKey + tail)[|c.publicKey|..] == tail
  {
    hide U16, U16Bytes;
    var b, rest := CredentialBytes(c) + tail, c.publicKey + tail;
    assert b == c.aaguid + U16Bytes(|c.id|) + (c.id + rest);
    assert b[16..18] == U16Bytes(|c.id|);
    assert b[18..] == c.id + rest;
    assert (c.id + rest)[..|c.id|] == c.id && (c.id + rest)[|c.id|..] == rest;
  }

  lemma FixedPartRead(len: ItemLength, d: AuthData, extensions: seq<Byte>, tail: seq<Byte>)
    requires WellFormed(len, d, extensions)
    ensures var b := Serialize(len, d, extensions) + tail;
            && |b| >= 37 && b[..32] == d.rpIdHash && b[32] == d.flags && U32(b[33..37]) == d.signCount
            && b[37..] == VariableBytes(d.attested, extensions + tail)
  {
    hide U32Bytes, CredentialBytes;
    var b := Serialize(len, d, extensions) + tail;
    assert b[33..37] == U32Bytes(d.signCount);
    assert b[37..] == VariableBytes(d.attested, extensions) + tail;
    if d.attested.Some? {
      var c := CredentialBytes(d.attested.value);
      assert (c + extensions) + tail == c + (extensions + tail);
    }
  }

  lemma CredentialUnambiguous(len: ItemLength, c: Credential, tail: seq<Byte>, d: Credential, rest: seq<Byte>)
    requires PrefixDetermined(len) && ValidCredential(len, c) && ValidCredential(len, d)
    requires CredentialBytes(c) + tail == CredentialBytes(d) + rest
    ensures c == d && tail == rest
  {
    hide PrefixDetermined, CredentialBytes;
    CredentialRead(len, c, tail);
    CredentialRead(len, d, rest);
  }

  lemma ItemUnambiguous(len: ItemLength, x: seq<Byte>, t: seq<Byte>, y: seq<Byte>, u: seq<Byte>)
    requires PrefixDetermined(len) && IsItem(len, x) && IsItem(len, y) && x + t == y + u
    ensures x == y && t == u
  {
    assert len(x + t) == Some(|x|) && len(y + u) == Some(|y|);
    assert x == (x + t)[..|x|] && y == (y + u)[..|y|] && t == (x + t)[|x|..] && u == (y + u)[|y|..];
  }

  /** The input is the layout of a value, then `tail`. */
  ghost predicate StartsWith(bytes: seq<Byte>, len: ItemLength, d: AuthData, x: seq<Byte>, tail: seq<Byte>) {
    WellFormed(len, d, x) && bytes == Serialize(len, d, x) + tail
  }

  /** No byte string starts with the layouts of two values: the layout is prefix-free. */
  lemma LayoutIsPrefixFree(bytes: seq<Byte>, len: ItemLength, d: AuthData, x: seq<Byte>, t: seq<Byte>,
                           e: AuthData, y: seq<Byte>, u: seq<Byte>)
    requires PrefixDetermined(len) && StartsWith(bytes, len, d, x, t) && StartsWith(bytes, len, e, y, u)
    ensures d == e && x == y && t == u
  {
    hide PrefixDetermined, Serialize, CredentialBytes, HasFlag;
    FixedPartRead(len, d, x, t);
    FixedPartRead(len, e, y, u);
    if d.attested.Some? {
      CredentialUnambiguous(len, d.attested.value, x + t, e.attested.value, y + u);
    }
    if HasFlag(d.flags, FLAG_EXTENSIONS) {
      ItemUnambiguous(len, x, t, y, u);
    } else {
      assert x + t == t && y + u == u;
    }
  }

  /** Inputs laid out from one value differ in their extension bytes alone; without that flag they are the same input. */
  lemma SameValueSameInput(a: seq<Byte>, b: seq<Byte>, len: ItemLength, d: AuthData, x: seq<Byte>, y: seq<Byte>)
    requires PrefixDetermined(len) && StartsWith(a, len, d, x, []) && StartsWith(b, len, d, y, [])
    ensures a == b <==> x == y
    ensures !HasFlag(d.flags, FLAG_EXTENSIONS) ==> a == b
  {
    if a == b {
      LayoutIsPrefixFree(a, len, d, x, [], d, y, []);
    }
  }

  // The parser

  datatype ParseError = TooShort | CredentialTooShort | MalformedCredentialId | MalformedCbor | TrailingBytes

  /** Whether credential data stands at the front. */
  predicate CredentialFits(bytes: seq<Byte>, len: ItemLength) {
    && |bytes| >= 18
    && var idLen := U16(bytes[16..18]);
    && 1 <= idLen <= 1023 && |bytes| >= 18 + idLen && len(bytes[18..][idLen..]).Some?
  }

  predicate BadCredentialId(bytes: seq<Byte>) {
    |bytes| >= 18 && var idLen := U16(bytes[16..18]); idLen == 0 || idLen > 1023 || |bytes| < 18 + idLen
  }

  lemma CredentialAssembled(bytes: seq<Byte>, idLen: nat, keyLen: nat)
    requires |bytes| >= 18 + idLen + keyLen && idLen == U16(bytes[16..18]) <= 1023
    ensures var rest := bytes[18..][idLen..];
            bytes == CredentialBytes(Credential(bytes[..16], bytes[18..][..idLen], rest[..keyLen])) + rest[keyLen..]
  {
    U16Inverse(bytes[16..18]);
    hide U16Bytes;
    var rest := bytes[18..][idLen..];
    assert bytes[18..] == bytes[18..][..idLen] + (rest[..keyLen] + rest[keyLen..]);
    assert bytes == bytes[..16] + bytes[16..18] + bytes[18..];
  }

  method ParseCredential(bytes: seq<Byte>, len: ItemLength) returns (r: Result<(Credential, seq<Byte>), ParseError>)
    requires PrefixDetermined(len)
    ensures r.Ok? <==> CredentialFits(bytes, len)
    ensures r == Err(CredentialTooShort) <==> |bytes| < 18
    ensures r == Err(MalformedCredentialId) <==> BadCredentialId(bytes)
    ensures r.Err? ==> !r.error.TooShort? && !r.error.TrailingBytes?
    ensures r.Ok? ==> ValidCredential(len, r.value.0) && bytes == CredentialBytes(r.value.0) + r.value.1
  {
    hide U16, CredentialBytes;
    var rest := bytes;
    if |rest| < 18 {
      return Err(CredentialTooShort);
    }
    var aaguid := rest[..16];
    var idLen := U16(rest[16..18]);
    rest := rest[18..];
    if idLen == 0 || idLen > 1023 || |rest| < idLen {
      return Err(MalformedCredentialId);
    }
    var id := rest[..idLen];
    rest := rest[idLen..];
    var keyLen := len(rest);
    if keyLen.None? {
      return Err(MalformedCbor);
    }
    var publicKey := rest[..keyLen.value];
    rest := rest[keyLen.value..];
    CredentialAssembled(bytes, idLen, keyLen.value);
    return Ok((Credential(aaguid, id, publicKey), rest));
  }

  lemma LayoutHasCredential(bytes: seq<Byte>, len: ItemLength, d: AuthData, x: seq<Byte>, tail: seq<Byte>)
    requires PrefixDetermined(len) && StartsWith(bytes, len, d, x, tail)
    ensures |bytes| >= 37 && (HasFlag(bytes[32], FLAG_ATTESTED) ==> CredentialFits(bytes[37..], len))
  {
    hide Serialize, PrefixDetermined, CredentialBytes, HasFlag;
    FixedPartRead(len, d, x, tail);
    if d.attested.Some? {
      CredentialRead(len, d.attested.value, x + tail);
    }
  }

  lemma NoLayoutWithoutCredential(bytes: seq<Byte>, len: ItemLength)
    requires PrefixDetermined(len)
    requires |bytes| < 37 || (HasFlag(bytes[32], FLAG_ATTESTED) && !CredentialFits(bytes[37..], len))
    ensures forall d: AuthData, x: seq<Byte>, tail: seq<Byte> :: !StartsWith(bytes, len, d, x, tail)
  {
    hide StartsWith, CredentialFits, PrefixDetermined;
    forall d: AuthData, x: seq<Byte>, tail: seq<Byte>
      ensures !StartsWith(bytes, len, d, x, tail)
    {
      if StartsWith(bytes, len, d, x, tail) {
        LayoutHasCredential(bytes, len, d, x, tail);
      }
    }
  }

  /** Past the credential, a layout leaves its extension bytes and what follows it. */
  lemma RestIsExtensions(bytes: seq<Byte>, len: ItemLength, attested: Option<Credential>, rest: seq<Byte>,
                         d: AuthData, x: seq<Byte>, tail: seq<Byte>)
    requires PrefixDetermined(len) && |bytes| >= 37 && (attested.Some? ==> ValidCredential(len, attested.value))
    requires attested.Some? <==> HasFlag(bytes[32], FLAG_ATTESTED)
    requires bytes[37..] == VariableBytes(attested, rest)
    requires StartsWith(bytes, len, d, x, tail)
    ensures rest == x + tail && d.flags == bytes[32]
  {
    hide Serialize, PrefixDetermined, CredentialBytes, HasFlag;
    FixedPartRead(len, d, x, tail);
    if attested.Some? {
      CredentialUnambiguous(len, attested.value, rest, d.attested.value, x + tail);
    }
  }

  lemma NoLayoutWithoutExtensions(bytes: seq<Byte>, len: ItemLength, attested: Option<Credential>, rest: seq<Byte>)
    requires PrefixDetermined(len) && |bytes| >= 37 && (attested.Some? ==> ValidCredential(len, attested.value))
    requires attested.Some? <==> HasFlag(bytes[32], FLAG_ATTESTED)
    requires bytes[37..] == VariableBytes(attested, rest)
    requires HasFlag(bytes[32], FLAG_EXTENSIONS) && len(rest).None?
    ensures forall d: AuthData, x: seq<Byte>, tail: seq<Byte> :: !StartsWith(bytes, len, d, x, tail)
  {
    hide Serialize, HasFlag, VariableBytes;
    forall d: AuthData, x: seq<Byte>, tail: seq<Byte>
      ensures !StartsWith(bytes, len, d, x, tail)
    {
      if StartsWith(bytes, len, d, x, tail) {
        RestIsExtensions(bytes, len, attested, rest, d, x, tail);
      }
    }
  }

  lemma OnlyLayout(bytes: seq<Byte>, len: ItemLength, d: AuthData, x: seq<Byte>, t: seq<Byte>)
    requires PrefixDetermined(len) && StartsWith(bytes, len, d, x, t)
    ensures forall e: AuthData, y: seq<Byte>, u: seq<Byte> :: StartsWith(bytes, len, e, y, u) ==> e == d && y == x && u == t
  {
    hide StartsWith, PrefixDetermined;
    forall e: AuthData, y: seq<Byte>, u: seq<Byte> | StartsWith(bytes, len, e, y, u)
      ensures e == d && y == x && u == t
    {
      LayoutIsPrefixFree(bytes, len, d, x, t, e, y, u);
    }
  }

  lemma Assembled(bytes: seq<Byte>, len: ItemLength, d: AuthData, x: seq<Byte>, tail: seq<Byte>)
    requires |bytes| >= 37 && WellFormed(len, d, x)
    requires d.rpIdHash == bytes[..32] && d.flags == bytes[32] && d.signCount == U32(bytes[33..37])
    requires bytes[37..] == VariableBytes(d.attested, x + tail)
    ensures StartsWith(bytes, len, d, x, tail)
  {
    hide U32, U32Bytes, CredentialBytes;
    U32Inverse(bytes[33..37]);
    assert bytes == bytes[..32] + [bytes[32]] + bytes[33..37] + bytes[37..];
    assert bytes[37..] == VariableBytes(d.attested, x) + tail;
  }

  /**
    The parser accepts exactly the layout: what it returns serializes, with the
    extension bytes it skipped, to the whole input; and every well-formed value
    is returned from its serialization. Each refusal has its own cause: trailing
    bytes are reported exactly for a layout followed by more, and malformed CBOR
    for what is left.
   */
  method ParseAuthenticatorData(bytes: seq<Byte>, len: ItemLength) returns (r: Result<AuthData, ParseError>, ghost extensions: seq<Byte>)
    requires PrefixDetermined(len)
    ensures r.Ok? ==> StartsWith(bytes, len, r.value, extensions, [])
    ensures forall d: AuthData, x: seq<Byte>, tail: seq<Byte> :: StartsWith(bytes, len, d, x, tail) ==>
      r == (if tail == [] then Ok(d) else Err(TrailingBytes)) && x == extensions
    ensures r == Err(TrailingBytes) ==>
      exists d: AuthData, x: seq<Byte>, tail: seq<Byte> :: tail != [] && StartsWith(bytes, len, d, x, tail)
    ensures r == Err(TooShort) <==> |bytes| < 37
    ensures r == Err(CredentialTooShort) <==> 37 <= |bytes| < 55 && HasFlag(bytes[32], FLAG_ATTESTED)
    ensures r == Err(MalformedCredentialId) <==>
      |bytes| >= 37 && HasFlag(bytes[32], FLAG_ATTESTED) && BadCredentialId(bytes[37..])
  {
    hide U32, U16, HasFlag, CredentialBytes, CredentialFits, StartsWith;
    extensions := [];
    if |bytes| < 37 {
      NoLayoutWithoutCredential(bytes, len);
      return Err(TooShort), extensions;
    }
    var rpIdHash, flags, signCount := bytes[..32], bytes[32], U32(bytes[33..37]);
    U32Inverse(bytes[33..37]);
    var rest := bytes[37..];
    var attested: Option<Credential> := None;
    if HasFlag(flags, FLAG_ATTESTED) {
      var parsed := ParseCredential(rest, len);
      if parsed.Err? {
        NoLayoutWithoutCredential(bytes, len);
        return Err(parsed.error), extensions;
      }
      attested := Some(parsed.value.0);
      rest := parsed.value.1;
    }
    ghost var variable := rest;
    if HasFlag(flags, FLAG_EXTENSIONS) {
      var skipped := len(rest);
      if skipped.None? {
        NoLayoutWithoutExtensions(bytes, len, attested, variable);
        return Err(MalformedCbor), extensions;
      }
      extensions := rest[..skipped.value];
      rest := rest[skipped.value..];
    }
    assert variable == extensions + rest;
    var data := AuthData(rpIdHash, flags, signCount, attested);
    Assembled(bytes, len, data, extensions, rest);
    OnlyLayout(bytes, len, data, extensions, rest);
    if rest != [] {
      return Err(TrailingBytes), extensions;
    }
    r := Ok(data);
  }
}
