/**
  Well-formed CBOR items (section 3 of RFC 8949) as values: what the item-length
  decoder accepts, and how much of its input it takes.
 */
module CborValues {
  import opened Basics
  import opened CborItems

  /** An argument with the number of bytes it is spelled in after the initial one. */
  datatype Argument = Argument(value: nat, size: nat)

  datatype Chunk = Chunk(length: Argument, content: seq<Byte>)

  /** An item; a map lists keys and values in turn, and floats count as simple values of their bits. */
  datatype Value =
    | Number(major: nat, argument: Argument)
    | String(major: nat, length: Argument, content: seq<Byte>)
    | OpenString(major: nat, chunks: seq<Chunk>)
    | Array(count: Argument, items: seq<Value>)
    | OpenArray(items: seq<Value>)
    | Map(count: Argument, items: seq<Value>)
    | OpenMap(items: seq<Value>)
    | Tagged(tag: Argument, inner: Value)
    | Simple(argument: Argument)

  function Pow256(n: nat): (p: nat)
    ensures p > 0
  {
    if n == 0 then 1 else 256 * Pow256(n - 1)
  }

  predicate Fits(a: Argument) {
    if a.size == 0 then a.value < 24 else a.size in {1, 2, 4, 8} && a.value < Pow256(a.size)
  }

  predicate FitsChunk(c: Chunk) {
    Fits(c.length) && |c.content| == c.length.value
  }

  predicate WellFormed(v: Value) {
    match v
    case Number(major, a) => major < 2 && Fits(a)
    case String(major, length, content) => 2 <= major < 4 && Fits(length) && |content| == length.value
    case OpenString(major, chunks) => 2 <= major < 4 && forall i :: 0 <= i < |chunks| ==> FitsChunk(chunks[i])
    case Array(count, items) => Fits(count) && |items| == count.value && forall i :: 0 <= i < |items| ==> WellFormed(items[i])
    case OpenArray(items) => forall i :: 0 <= i < |items| ==> WellFormed(items[i])
    case Map(count, items) => Fits(count) && |items| == 2 * count.value && forall i :: 0 <= i < |items| ==> WellFormed(items[i])
    case OpenMap(items) => |items| % 2 == 0 && forall i :: 0 <= i < |items| ==> WellFormed(items[i])
    case Tagged(tag, inner) => Fits(tag) && WellFormed(inner)
    case Simple(a) => Fits(a) && !(a.size == 1 && a.value < 32)
  }

  predicate AllWellFormed(items: seq<Value>) {
    forall i :: 0 <= i < |items| ==> WellFormed(items[i])
  }

  // Encoding

  function Digits(n: nat, width: nat): (b: seq<Byte>)
    ensures |b| == width
  {
    if width == 0 then [] else Digits(n / 256, width - 1) + [n % 256]
  }

  function Info(a: Argument): (info: nat)
    requires Fits(a)
    ensures info < 28
  {
    if a.size == 0 then a.value else if a.size == 1 then 24 else if a.size == 2 then 25 else if a.size == 4 then 26 else 27
  }

  function HeadBytes(major: nat, a: Argument): (b: seq<Byte>)
    requires major < 8 && Fits(a)
    ensures |b| == 1 + a.size
  {
    [major * 32 + Info(a)] + Digits(a.value, a.size)
  }

  const BREAK: Byte := 0xff

  /** The initial byte of an item of indefinite length. */
  function OpenByte(major: nat): Byte
    requires major < 8
  {
    major * 32 + 31
  }

  /** The level such an array or map opens. */
  function OpenFrame(major: nat): Frame {
    if major == 4 then UntilBreak else PairsUntilBreak(false)
  }

  function EncodeChunks(major: nat, chunks: seq<Chunk>): seq<Byte>
    requires major < 8 && forall i :: 0 <= i < |chunks| ==> FitsChunk(chunks[i])
  {
    if chunks == [] then []
    else
      assert FitsChunk(chunks[0]);
      HeadBytes(major, chunks[0].length) + chunks[0].content + EncodeChunks(major, chunks[1..])
  }

  function Encode(v: Value): seq<Byte>
    requires WellFormed(v)
    decreases v
  {
    match v
    case Number(major, a) => HeadBytes(major, a)
    case String(major, length, content) => HeadBytes(major, length) + content
    case OpenString(major, chunks) => [OpenByte(major)] + EncodeChunks(major, chunks) + [BREAK]
    case Array(count, items) => HeadBytes(4, count) + EncodeAll(items)
    case OpenArray(items) => [OpenByte(4)] + EncodeAll(items) + [BREAK]
    case Map(count, items) => HeadBytes(5, count) + EncodeAll(items)
    case OpenMap(items) => [OpenByte(5)] + EncodeAll(items) + [BREAK]
    case Tagged(tag, inner) => HeadBytes(6, tag) + Encode(inner)
    case Simple(a) => HeadBytes(7, a)
  }

  function EncodeAll(items: seq<Value>): seq<Byte>
    requires AllWellFormed(items)
    decreases items
  {
    if items == [] then [] else Encode(items[0]) + EncodeAll(items[1..])
  }

  // Heads

  lemma {:induction false} DigitsRead(n: nat, width: nat)
    requires n < Pow256(width)
    ensures BigEndian(Digits(n, width)) == n
  {
    if width > 0 {
      DigitsRead(n / 256, width - 1);
      var b := Digits(n, width);
      assert b[..|b| - 1] == Digits(n / 256, width - 1);
    }
  }

  lemma InfoSize(a: Argument)
    requires Fits(a)
    ensures ArgumentSize(Info(a)) == Some(a.size) && Info(a) != 31 && (a.size == 0 ==> Info(a) == a.value)
    ensures a.size == 1 <==> Info(a) == 24
  {
    hide Pow256;
  }

  lemma FirstByte(major: nat, a: Argument)
    requires major < 8 && Fits(a)
    ensures var first := HeadBytes(major, a)[0]; first / 32 == major && first % 32 == Info(a)
    ensures HeadBytes(major, a)[1..] == Digits(a.value, a.size)
  {
    hide Info, Digits, Fits;
  }

  lemma ReadHeadFrom(b: seq<Byte>, major: nat, info: nat, n: nat, value: nat)
    requires |b| >= 1 + n && b[0] / 32 == major && b[0] % 32 == info && ArgumentSize(info) == Some(n) && info != 31
    requires value == if n == 0 then info else BigEndian(b[1..1 + n])
    requires b[0] == 0xf8 ==> |b| >= 2 && b[1] >= 32
    ensures ReadHead(b) == Some(Head(major, Some(value), 1 + n))
  {
    hide ArgumentSize, BigEndian;
  }

  lemma Front(head: seq<Byte>, tail: seq<Byte>)
    requires head != []
    ensures (head + tail)[0] == head[0] && (head + tail)[1..|head|] == head[1..]
  {
  }

  lemma Rest(head: seq<Byte>, tail: seq<Byte>)
    ensures |head| <= |head + tail| && (head + tail)[|head|..] == tail
  {
  }

  lemma Regroup(a: seq<Byte>, b: seq<Byte>, c: seq<Byte>, d: seq<Byte>)
    ensures a + (b + c) == a + b + c && a + (b + (c + d)) == a + b + c + d
  {
  }

  /** The value of an argument, from the bytes that spell it. */
  lemma ArgumentRead(a: Argument)
    requires Fits(a)
    ensures a.size > 0 ==> BigEndian(Digits(a.value, a.size)) == a.value
    ensures a.size == 1 ==> Digits(a.value, a.size)[0] == a.value
  {
    if a.size > 0 {
      DigitsRead(a.value, a.size);
    }
    if a.size == 1 {
      OneDigit(a.value);
    }
  }

  lemma HeadRead(major: nat, a: Argument, tail: seq<Byte>)
    requires major < 8 && Fits(a) && !(major == 7 && a.size == 1 && a.value < 32)
    ensures ReadHead(HeadBytes(major, a) + tail) == Some(Head(major, Some(a.value), 1 + a.size))
  {
    hide Info, Digits, HeadBytes, ArgumentSize, BigEndian, ReadHead, Fits;
    InfoSize(a);
    FirstByte(major, a);
    ArgumentRead(a);
    var head := HeadBytes(major, a);
    Front(head, tail);
    var b := head + tail;
    assert b[0] == 0xf8 ==> a.size == 1 && b[1] == b[1..2][0];
    ReadHeadFrom(b, major, Info(a), a.size, a.value);
  }

  lemma OneDigit(n: nat)
    requires n < Pow256(1)
    ensures Digits(n, 1) == [n]
  {
    assert Pow256(1) == 256 * Pow256(0);
    assert Digits(n / 256, 0) == [];
  }

  lemma OpenHeadRead(major: nat, tail: seq<Byte>)
    requires major < 8
    ensures ReadHead([OpenByte(major)] + tail) == Some(Head(major, None, 1))
  {
  }

  // Levels

  lemma SameOpen(b: seq<Byte>, frames: seq<Frame>, others: seq<Frame>)
    requires Open(frames) == Open(others)
    ensures ItemsLen(b, frames) == ItemsLen(b, others)
  {
  }

  lemma CompleteLevel(base: seq<Frame>)
    ensures Open(base + [Items(0)]) == Open(base)
  {
    var frames := base + [Items(0)];
    assert frames[..|frames| - 1] == base;
  }

  lemma IncompleteLevel(base: seq<Frame>, frame: Frame)
    requires frame != Items(0)
    ensures Open(base + [frame]) == base + [frame]
  {
  }

  /** A level after `m` items have been read in it. */
  function Advance(frame: Frame, m: nat): Frame
    requires frame.Items? ==> m <= frame.left
  {
    match frame
    case Items(left) => Items(left - m)
    case PairsUntilBreak(halfway) => PairsUntilBreak(if m % 2 == 0 then halfway else !halfway)
    case _ => frame
  }

  lemma AdvanceOne(frame: Frame, m: nat)
    requires m > 0 && (frame.Items? ==> m <= frame.left)
    ensures frame != Items(0) && Advance(Begun(frame), m - 1) == Advance(frame, m)
    ensures Begun(frame).Items? ==> m - 1 <= Begun(frame).left
  {
  }

  /** One head read: where it leads. */
  lemma HeadStep(b: seq<Byte>, frames: seq<Frame>, h: Head, rest: seq<Byte>, next: seq<Frame>, k: nat)
    requires frames != [] && frames[|frames| - 1] != Items(0) && Next(frames, h) == Some(next)
    requires ReadHead(b) == Some(h) && OwnSize(h) <= |b| && b[OwnSize(h)..] == rest && ItemsLen(rest, next) == Some(k)
    ensures ItemsLen(b, frames) == Some(OwnSize(h) + k)
  {
    assert Open(frames) == frames;
    hide ReadHead, OwnSize, Next, ItemsLen, Open;
    ItemsLenStep(b, frames, h, k);
  }

  lemma InnermostLevel(base: seq<Frame>, frame: Frame)
    ensures var frames := base + [frame];
            frames != [] && frames[|frames| - 1] == frame && frames[..|frames| - 1] == base
  {
  }

  /** The head of an item opens the level inside it, if any, in one where an item may begin. */
  lemma ItemHead(base: seq<Frame>, frame: Frame, h: Head)
    requires frame != Items(0) && !frame.Chunks? && !(h.major == 7 && h.argument.None?) && Inside(h).Some?
    ensures Next(base + [frame], h) == Some(base + [Begun(frame)] + Inside(h).value)
  {
    hide Inside;
    var open := base + [frame];
    assert open[..|open| - 1] == base;
  }

  /** A break closes the level it ends. */
  lemma BreakStep(base: seq<Frame>, frame: Frame, tail: seq<Byte>, k: nat)
    requires frame.UntilBreak? || frame.Chunks? || frame == PairsUntilBreak(false)
    requires ItemsLen(tail, base) == Some(k)
    ensures ItemsLen([BREAK] + tail, base + [frame]) == Some(1 + k)
  {
    hide ItemsLen, ReadHead;
    OpenHeadRead(7, tail);
    InnermostLevel(base, frame);
    Rest([BREAK], tail);
    HeadStep([BREAK] + tail, base + [frame], Head(7, None, 1), tail, base, k);
  }

  // The length of an encoding

  /** A head that opens nothing, then its string content if any. */
  lemma LeafRead(major: nat, a: Argument, content: seq<Byte>, tail: seq<Byte>, base: seq<Frame>, frame: Frame, k: nat)
    requires major < 8 && !(4 <= major < 7) && Fits(a) && !(major == 7 && a.size == 1 && a.value < 32)
    requires |content| == if major == 2 || major == 3 then a.value else 0
    requires frame != Items(0) && !frame.Chunks? && ItemsLen(tail, base + [Begun(frame)]) == Some(k)
    ensures ItemsLen(HeadBytes(major, a) + content + tail, base + [frame]) == Some(1 + a.size + |content| + k)
  {
    hide ItemsLen, ReadHead, HeadBytes, Fits, Next, Begun, Inside, OwnSize;
    var h, head := Head(major, Some(a.value), 1 + a.size), HeadBytes(major, a);
    HeadRead(major, a, content + tail);
    LeafHead(h);
    ItemHead(base, frame, h);
    InnermostLevel(base, frame);
    assert base + [Begun(frame)] + [] == base + [Begun(frame)];
    Regroup(head, content, tail, []);
    Rest(head + content, tail);
    HeadStep(head + content + tail, base + [frame], h, tail, base + [Begun(frame)], k);
  }

  lemma LeafHead(h: Head)
    requires !(4 <= h.major < 7) && h.argument.Some?
    ensures Inside(h) == Some([])
    ensures OwnSize(h) == h.size + if h.major == 2 || h.major == 3 then h.argument.value else 0
  {
  }

  lemma OpenHead(major: nat)
    requires 4 <= major < 6
    ensures var h := Head(major, None, 1);
            OwnSize(h) == 1 && Inside(h) == Some([OpenFrame(major)])
  {
  }

  /** A head that opens a level, then what is in it. */
  lemma LevelRead(head: seq<Byte>, h: Head, body: seq<Byte>, frames: seq<Frame>, next: seq<Frame>, k: nat)
    requires ReadHead(head + body) == Some(h) && OwnSize(h) == |head|
    requires frames != [] && frames[|frames| - 1] != Items(0) && Next(frames, h) == Some(next)
    requires ItemsLen(body, next) == Some(k)
    ensures ItemsLen(head + body, frames) == Some(|head| + k)
  {
    hide ItemsLen, ReadHead, OwnSize, Next;
    Rest(head, body);
    HeadStep(head + body, frames, h, body, next, k);
  }

  lemma {:induction false} ChunksRead(major: nat, chunks: seq<Chunk>, tail: seq<Byte>, base: seq<Frame>, k: nat)
    requires 2 <= major < 4 && forall i :: 0 <= i < |chunks| ==> FitsChunk(chunks[i])
    requires ItemsLen(tail, base) == Some(k)
    ensures ItemsLen(EncodeChunks(major, chunks) + [BREAK] + tail, base + [Chunks(major)]) ==
            Some(|EncodeChunks(major, chunks)| + 1 + k)
    decreases |chunks|
  {
    hide ItemsLen, ReadHead, HeadBytes, Fits;
    if chunks == [] {
      assert EncodeChunks(major, chunks) + [BREAK] + tail == [BREAK] + tail;
      BreakStep(base, Chunks(major), tail, k);
    } else {
      ChunksRead(major, chunks[1..], tail, base, k);
      var c, rest := chunks[0], EncodeChunks(major, chunks[1..]) + [BREAK] + tail;
      var head := HeadBytes(major, c.length);
      var b := head + (c.content + rest);
      assert FitsChunk(c);
      HeadRead(major, c.length, c.content + rest);
      assert EncodeChunks(major, chunks) + [BREAK] + tail == b;
      var h := Head(major, Some(c.length.value), 1 + c.length.size);
      assert b[OwnSize(h)..] == rest;
      InnermostLevel(base, Chunks(major));
      HeadStep(b, base + [Chunks(major)], h, rest, base + [Chunks(major)], |EncodeChunks(major, chunks[1..])| + 1 + k);
    }
  }

  lemma OpenStringRead(major: nat, chunks: seq<Chunk>, tail: seq<Byte>, base: seq<Frame>, frame: Frame, k: nat)
    requires 2 <= major < 4 && forall i :: 0 <= i < |chunks| ==> FitsChunk(chunks[i])
    requires frame != Items(0) && !frame.Chunks? && ItemsLen(tail, base + [Begun(frame)]) == Some(k)
    ensures var b := [OpenByte(major)] + EncodeChunks(major, chunks) + [BREAK];
            ItemsLen(b + tail, base + [frame]) == Some(|b| + k)
  {
    hide ItemsLen, ReadHead, EncodeChunks, Begun, FitsChunk, OpenByte, OwnSize, Inside, Next;
    var head, content, h := [OpenByte(major)], EncodeChunks(major, chunks), Head(major, None, 1);
    ChunksRead(major, chunks, tail, base + [Begun(frame)], k);
    Regroup(content, [BREAK], tail, []);
    Regroup(head, content, [BREAK], tail);
    OpenHeadRead(major, content + ([BREAK] + tail));
    ChunksHead(major);
    ItemHead(base, frame, h);
    InnermostLevel(base, frame);
    LevelRead(head, h, content + ([BREAK] + tail), base + [frame], base + [Begun(frame)] + [Chunks(major)], |content| + 1 + k);
  }

  lemma ChunksHead(major: nat)
    requires 2 <= major < 4
    ensures var h := Head(major, None, 1); OwnSize(h) == 1 && Inside(h) == Some([Chunks(major)])
  {
  }

  /** A counted level: array, map or tag, around a body read in it. */
  lemma CountedLevelRead(major: nat, a: Argument, count: nat, body: seq<Byte>, tail: seq<Byte>, base: seq<Frame>, frame: Frame, k: nat)
    requires 4 <= major < 7 && Fits(a) && count == (if major == 4 then a.value else if major == 5 then 2 * a.value else 1)
    requires frame != Items(0) && !frame.Chunks?
    requires ItemsLen(body + tail, base + [Begun(frame)] + [Items(count)]) == Some(|body| + k)
    ensures ItemsLen(HeadBytes(major, a) + body + tail, base + [frame]) == Some(1 + a.size + |body| + k)
  {
    hide ItemsLen, ReadHead, HeadBytes, Fits, Begun, OwnSize, Inside, Next;
    var head, h := HeadBytes(major, a), Head(major, Some(a.value), 1 + a.size);
    HeadRead(major, a, body + tail);
    CountedHead(major, a);
    ItemHead(base, frame, h);
    InnermostLevel(base, frame);
    Regroup(head, body, tail, []);
    LevelRead(head, h, body + tail, base + [frame], base + [Begun(frame)] + [Items(count)], |body| + k);
  }

  lemma CountedHead(major: nat, a: Argument)
    requires 4 <= major < 7
    ensures var h := Head(major, Some(a.value), 1 + a.size);
            && OwnSize(h) == 1 + a.size
            && Inside(h) == Some([Items(if major == 4 then a.value else if major == 5 then 2 * a.value else 1)])
  {
  }

  lemma OpenLevelRead(major: nat, body: seq<Byte>, tail: seq<Byte>, base: seq<Frame>, frame: Frame, k: nat)
    requires 4 <= major < 6 && frame != Items(0) && !frame.Chunks?
    requires ItemsLen(body + ([BREAK] + tail), base + [Begun(frame)] + [OpenFrame(major)]) ==
             Some(|body| + 1 + k)
    ensures ItemsLen([OpenByte(major)] + body + [BREAK] + tail, base + [frame]) == Some(1 + |body| + 1 + k)
  {
    hide ItemsLen, ReadHead, Begun, OwnSize, Inside, OpenByte, OpenFrame, Next;
    var head, h, rest := [OpenByte(major)], Head(major, None, 1), body + ([BREAK] + tail);
    OpenHead(major);
    OpenHeadRead(major, rest);
    ItemHead(base, frame, h);
    InnermostLevel(base, frame);
    Regroup(head, body, [BREAK], tail);
    LevelRead(head, h, rest, base + [frame], base + [Begun(frame)] + [OpenFrame(major)], |body| + 1 + k);
  }

  /** One item, in a level where one may begin. */
  lemma {:induction false} ItemRead(v: Value, tail: seq<Byte>, base: seq<Frame>, frame: Frame, k: nat)
    requires WellFormed(v) && frame != Items(0) && !frame.Chunks? && ItemsLen(tail, base + [Begun(frame)]) == Some(k)
    ensures ItemsLen(Encode(v) + tail, base + [frame]) == Some(|Encode(v)| + k)
    decreases v, 2
  {
    hide ItemsLen, HeadBytes, Fits, Begun, EncodeAll, EncodeChunks, FitsChunk;
    var outer := base + [Begun(frame)];
    match v
    case Number(major, a) =>
      LeafRead(major, a, [], tail, base, frame, k);
      assert HeadBytes(major, a) + [] + tail == Encode(v) + tail;
    case String(major, length, content) =>
      LeafRead(major, length, content, tail, base, frame, k);
    case Simple(a) =>
      LeafRead(7, a, [], tail, base, frame, k);
      assert HeadBytes(7, a) + [] + tail == Encode(v) + tail;
    case OpenString(major, chunks) =>
      OpenStringRead(major, chunks, tail, base, frame, k);
    case Array(count, items) =>
      CountedRead(items, tail, outer, k);
      CountedLevelRead(4, count, |items|, EncodeAll(items), tail, base, frame, k);
    case Map(count, items) =>
      CountedRead(items, tail, outer, k);
      CountedLevelRead(5, count, |items|, EncodeAll(items), tail, base, frame, k);
    case OpenArray(items) =>
      UntilBreakRead(items, UntilBreak, tail, outer, k);
      OpenLevelRead(4, EncodeAll(items), tail, base, frame, k);
    case OpenMap(items) =>
      UntilBreakRead(items, PairsUntilBreak(false), tail, outer, k);
      OpenLevelRead(5, EncodeAll(items), tail, base, frame, k);
    case Tagged(tag, inner) =>
      OneItemLevel(tail, outer, k);
      ItemRead(inner, tail, outer, Items(1), k);
      CountedLevelRead(6, tag, 1, Encode(inner), tail, base, frame, k);
  }

  lemma OneItemLevel(tail: seq<Byte>, base: seq<Frame>, k: nat)
    requires ItemsLen(tail, base) == Some(k)
    ensures ItemsLen(tail, base + [Begun(Items(1))]) == Some(k)
  {
    hide ItemsLen;
    CompleteLevel(base);
    SameOpen(tail, base + [Items(0)], base);
  }

  /** Items in a row, in a level that takes that many. */
  lemma {:induction false} ItemsRead(items: seq<Value>, tail: seq<Byte>, base: seq<Frame>, frame: Frame, k: nat)
    requires AllWellFormed(items) && !frame.Chunks? && (frame.Items? ==> |items| <= frame.left)
    requires ItemsLen(tail, base + [Advance(frame, |items|)]) == Some(k)
    ensures ItemsLen(EncodeAll(items) + tail, base + [frame]) == Some(|EncodeAll(items)| + k)
    decreases items, 0
  {
    hide ItemsLen, Encode, WellFormed;
    if items == [] {
      assert EncodeAll(items) + tail == tail;
      assert Advance(frame, 0) == frame;
    } else {
      var rest := EncodeAll(items[1..]);
      AdvanceOne(frame, |items|);
      ItemsRead(items[1..], tail, base, Begun(frame), k);
      ItemRead(items[0], rest + tail, base, frame, |rest| + k);
      assert EncodeAll(items) + tail == Encode(items[0]) + (rest + tail);
    }
  }

  lemma CountedRead(items: seq<Value>, tail: seq<Byte>, base: seq<Frame>, k: nat)
    requires AllWellFormed(items) && ItemsLen(tail, base) == Some(k)
    ensures ItemsLen(EncodeAll(items) + tail, base + [Items(|items|)]) == Some(|EncodeAll(items)| + k)
    decreases items, 1
  {
    hide ItemsLen, Encode, WellFormed;
    CompleteLevel(base);
    SameOpen(tail, base + [Items(0)], base);
    ItemsRead(items, tail, base, Items(|items|), k);
  }

  lemma UntilBreakRead(items: seq<Value>, frame: Frame, tail: seq<Byte>, base: seq<Frame>, k: nat)
    requires AllWellFormed(items) && ItemsLen(tail, base) == Some(k)
    requires frame == UntilBreak || (frame == PairsUntilBreak(false) && |items| % 2 == 0)
    ensures ItemsLen(EncodeAll(items) + ([BREAK] + tail), base + [frame]) == Some(|EncodeAll(items)| + 1 + k)
    decreases items, 1
  {
    hide ItemsLen, Encode, WellFormed;
    BreakStep(base, Advance(frame, |items|), tail, k);
    ItemsRead(items, [BREAK] + tail, base, frame, 1 + k);
  }

  /** The decoder takes exactly the encoding of an item, whatever follows it. */
  lemma EncodedItemIsRead(v: Value, tail: seq<Byte>)
    requires WellFormed(v)
    ensures ItemLen(Encode(v) + tail) == Some(|Encode(v)|)
  {
    hide ItemsLen, Encode, WellFormed;
    assert ItemsLen(tail, [] + [Begun(Items(1))]) == Some(0) by {
      CompleteLevel([]);
      NoItems(tail, [] + [Items(0)]);
    }
    ItemRead(v, tail, [], Items(1), 0);
    assert [] + [Items(1)] == [Items(1)];
  }

  // Nothing but encodings is accepted

  lemma {:induction false} DigitsOf(b: seq<Byte>)
    ensures BigEndian(b) < Pow256(|b|) && Digits(BigEndian(b), |b|) == b
  {
    if b != [] {
      var front, last := b[..|b| - 1], b[|b| - 1];
      DigitsOf(front);
      var n := BigEndian(b);
      assert n == BigEndian(front) * 256 + last;
      assert n / 256 == BigEndian(front) && n % 256 == last;
      assert b == front + [last];
    }
  }

  function ArgumentFor(b: seq<Byte>): Argument
    requires ReadHead(b).Some? && ReadHead(b).value.argument.Some?
  {
    Argument(ReadHead(b).value.argument.value, ReadHead(b).value.size - 1)
  }

  /** A head that was read is spelled in its own bytes. */
  lemma HeadSpelled(b: seq<Byte>)
    requires ReadHead(b).Some? && ReadHead(b).value.argument.Some?
    ensures var h, a := ReadHead(b).value, ArgumentFor(b);
            && Fits(a) && !(h.major == 7 && a.size == 1 && a.value < 32)
            && b[..h.size] == HeadBytes(h.major, a)
  {
    var h, a := ReadHead(b).value, ArgumentFor(b);
    var digits := b[1..h.size];
    if a.size > 0 {
      DigitsOf(digits);
      OneDigitValue(b, a);
    } else {
      assert Digits(a.value, 0) == digits;
    }
    assert b[0] == h.major * 32 + b[0] % 32;
    hide BigEndian, Digits, Pow256;
    assert Info(a) == b[0] % 32;
    assert b[..h.size] == [b[0]] + digits;
  }

  lemma OneDigitValue(b: seq<Byte>, a: Argument)
    requires |b| >= 2 && a.size > 0
    ensures a.size == 1 ==> BigEndian(b[1..2]) == b[1]
  {
    var one := b[1..2];
    assert one[..0] == [];
  }

  lemma OpenHeadSpelled(b: seq<Byte>)
    requires ReadHead(b).Some? && ReadHead(b).value.argument.None?
    ensures ReadHead(b).value.size == 1 && b[0] == OpenByte(ReadHead(b).value.major)
  {
  }

  /** The first head of what is still to come in a level: read, in place, and what it leads to. */
  lemma LevelHead(b: seq<Byte>, base: seq<Frame>, frame: Frame, n: nat)
    requires frame != Items(0) && ItemsLen(b, base + [frame]) == Some(n)
    ensures ReadHead(b).Some?
    ensures var h := ReadHead(b).value;
            && 1 <= h.size <= OwnSize(h) <= n <= |b| && Next(base + [frame], h).Some?
            && ItemsLen(b[OwnSize(h)..], Next(base + [frame], h).value) == Some(n - OwnSize(h))
  {
    hide ReadHead, OwnSize, Next, ItemsLen, Open;
    IncompleteLevel(base, frame);
    FirstHead(b, base + [frame], n);
  }

  predicate IsBreak(b: seq<Byte>) {
    ReadHead(b).Some? && ReadHead(b).value.major == 7 && ReadHead(b).value.argument.None?
  }

  lemma BreakSpelled(b: seq<Byte>, base: seq<Frame>, frame: Frame, n: nat)
    requires frame != Items(0) && ItemsLen(b, base + [frame]) == Some(n) && IsBreak(b)
    ensures b != [] && b[0] == BREAK && n >= 1 && ItemsLen(b[1..], base) == Some(n - 1)
    ensures frame.UntilBreak? || frame.Chunks? || frame == PairsUntilBreak(false)
  {
    LevelHead(b, base, frame, n);
    OpenHeadSpelled(b);
    var open := base + [frame];
    assert open[..|open| - 1] == base;
    hide ItemsLen, ReadHead;
  }

  lemma ItemHeadInside(base: seq<Frame>, frame: Frame, h: Head)
    requires frame != Items(0) && !frame.Chunks? && !(h.major == 7 && h.argument.None?) && Next(base + [frame], h).Some?
    ensures Inside(h).Some? && Next(base + [frame], h).value == base + [Begun(frame)] + Inside(h).value
  {
    hide Inside;
    var open := base + [frame];
    assert open[..|open| - 1] == base;
  }

  /** The bytes of two stretches in a row. */
  lemma TwoStretches(b: seq<Byte>, x: seq<Byte>, y: seq<Byte>)
    requires |x| <= |b| && b[..|x|] == x && |y| <= |b| - |x| && b[|x|..][..|y|] == y
    ensures |x + y| <= |b| && b[..|x + y|] == x + y && b[|x + y|..] == b[|x|..][|y|..]
  {
    assert b[..|x| + |y|] == b[..|x|] + b[|x|..][..|y|];
  }

  /** A stretch of input spelled by `text`, after which `k` bytes are still to come in the given levels. */
  ghost predicate Spelled(b: seq<Byte>, text: seq<Byte>, frames: seq<Frame>, k: nat) {
    |text| <= |b| && b[..|text|] == text && ItemsLen(b[|text|..], frames) == Some(k)
  }

  lemma SpelledAfter(b: seq<Byte>, x: seq<Byte>, y: seq<Byte>, frames: seq<Frame>, k: nat)
    requires |x| <= |b| && b[..|x|] == x && Spelled(b[|x|..], y, frames, k)
    ensures Spelled(b, x + y, frames, k)
  {
    hide ItemsLen;
    TwoStretches(b, x, y);
  }

  lemma {:induction false} ChunksSpelled(b: seq<Byte>, major: nat, base: seq<Frame>, n: nat) returns (chunks: seq<Chunk>, k: nat)
    requires 2 <= major < 4 && ItemsLen(b, base + [Chunks(major)]) == Some(n)
    ensures forall i :: 0 <= i < |chunks| ==> FitsChunk(chunks[i])
    ensures Spelled(b, EncodeChunks(major, chunks) + [BREAK], base, k)
    ensures n == |EncodeChunks(major, chunks)| + 1 + k
    decreases |b|
  {
    hide ItemsLen, ReadHead, HeadBytes, Fits, BigEndian, Digits;
    LevelHead(b, base, Chunks(major), n);
    if IsBreak(b) {
      BreakSpelled(b, base, Chunks(major), n);
      chunks, k := [], n - 1;
      assert b[..1] == [BREAK] && EncodeChunks(major, chunks) + [BREAK] == [BREAK];
    } else {
      var h, a := ReadHead(b).value, ArgumentFor(b);
      HeadSpelled(b);
      var content := b[h.size..OwnSize(h)];
      var rest := b[OwnSize(h)..];
      var more: seq<Chunk>;
      more, k := ChunksSpelled(rest, major, base, n - OwnSize(h));
      chunks := [Chunk(a, content)] + more;
      assert chunks[1..] == more && chunks[0] == Chunk(a, content) && FitsChunk(chunks[0]);
      var first := HeadBytes(major, a) + content;
      assert b[..|first|] == first;
      SpelledAfter(b, first, EncodeChunks(major, more) + [BREAK], base, k);
      assert first + (EncodeChunks(major, more) + [BREAK]) == EncodeChunks(major, chunks) + [BREAK];
    }
  }

  /** What is read where an item may begin is the encoding of one. */
  lemma {:induction false} ItemSpelled(b: seq<Byte>, base: seq<Frame>, frame: Frame, n: nat) returns (v: Value, k: nat)
    requires frame != Items(0) && !frame.Chunks? && ItemsLen(b, base + [frame]) == Some(n) && !IsBreak(b)
    ensures WellFormed(v) && Spelled(b, Encode(v), base + [Begun(frame)], k) && n == |Encode(v)| + k
    decreases |b|, 1
  {
    hide ItemsLen, ReadHead, HeadBytes, Fits, Begun, Next, BigEndian, Digits, EncodeAll, EncodeChunks;
    LevelHead(b, base, frame, n);
    var h := ReadHead(b).value;
    ItemHeadInside(base, frame, h);
    var outer := base + [Begun(frame)];
    if h.argument.None? {
      OpenHeadSpelled(b);
      v, k := OpenItemSpelled(b, outer, n);
    } else {
      HeadSpelled(b);
      v, k := ClosedItemSpelled(b, outer, n);
    }
  }

  /** The same past the head of an item of indefinite length. */
  lemma OpenItemSpelled(b: seq<Byte>, outer: seq<Frame>, n: nat) returns (v: Value, k: nat)
    requires ReadHead(b).Some? && ReadHead(b).value.argument.None? && ReadHead(b).value.size == 1
    requires var h := ReadHead(b).value;
             && b[0] == OpenByte(h.major) && Inside(h).Some? && 1 <= n <= |b|
             && ItemsLen(b[1..], outer + Inside(h).value) == Some(n - 1)
    ensures WellFormed(v) && Spelled(b, Encode(v), outer, k) && n == |Encode(v)| + k
    decreases |b|, 0
  {
    hide ItemsLen, ReadHead, HeadBytes, Fits, OpenByte, EncodeChunks, EncodeAll;
    var h := ReadHead(b).value;
    var head, rest := [OpenByte(h.major)], b[1..];
    assert b[..1] == head;
    if h.major == 2 || h.major == 3 {
      var chunks: seq<Chunk>;
      chunks, k := ChunksSpelled(rest, h.major, outer, n - 1);
      v := OpenString(h.major, chunks);
      SpelledAfter(b, head, EncodeChunks(h.major, chunks) + [BREAK], outer, k);
      Regroup(head, EncodeChunks(h.major, chunks), [BREAK], []);
    } else {
      var items: seq<Value>;
      items, k := LevelSpelled(rest, outer, OpenFrame(h.major), n - 1);
      v := if h.major == 4 then OpenArray(items) else OpenMap(items);
      SpelledAfter(b, head, EncodeAll(items) + [BREAK], outer, k);
      Regroup(head, EncodeAll(items), [BREAK], []);
    }
  }

  /** The same past a head with an argument. */
  lemma ClosedItemSpelled(b: seq<Byte>, outer: seq<Frame>, n: nat) returns (v: Value, k: nat)
    requires ReadHead(b).Some? && ReadHead(b).value.argument.Some?
    requires var h, a := ReadHead(b).value, ArgumentFor(b);
             && Fits(a) && !(h.major == 7 && a.size == 1 && a.value < 32) && b[..h.size] == HeadBytes(h.major, a)
             && 1 <= h.size <= OwnSize(h) <= n <= |b| && Inside(h).Some?
             && ItemsLen(b[OwnSize(h)..], outer + Inside(h).value) == Some(n - OwnSize(h))
    ensures WellFormed(v) && Spelled(b, Encode(v), outer, k) && n == |Encode(v)| + k
    decreases |b|, 0
  {
    hide ItemsLen, ReadHead, HeadBytes, Fits, EncodeAll;
    var h, a := ReadHead(b).value, ArgumentFor(b);
    var head, rest := HeadBytes(h.major, a), b[OwnSize(h)..];
    if 4 <= h.major < 6 {
      var items: seq<Value>;
      items, k := LevelSpelled(rest, outer, Items(if h.major == 4 then a.value else 2 * a.value), n - OwnSize(h));
      v := if h.major == 4 then Array(a, items) else Map(a, items);
      SpelledAfter(b, head, EncodeAll(items), outer, k);
    } else if h.major == 6 {
      var items: seq<Value>;
      items, k := LevelSpelled(rest, outer, Items(1), n - OwnSize(h));
      v := Tagged(a, items[0]);
      assert EncodeAll(items) == Encode(items[0]) by { OneEncoded(items); }
      SpelledAfter(b, head, Encode(items[0]), outer, k);
    } else {
      assert outer + [] == outer;
      k := n - OwnSize(h);
      if h.major == 2 || h.major == 3 {
        var content := b[h.size..OwnSize(h)];
        v := String(h.major, a, content);
        assert b[..OwnSize(h)] == head + content;
      } else {
        v := if h.major == 7 then Simple(a) else Number(h.major, a);
      }
    }
  }

  lemma OneEncoded(items: seq<Value>)
    requires AllWellFormed(items) && |items| == 1
    ensures EncodeAll(items) == Encode(items[0])
  {
    hide Encode;
    assert EncodeAll(items[1..]) == [];
  }

  /** A level to its end: so many items, or items and a break. */
  lemma {:induction false} LevelSpelled(b: seq<Byte>, base: seq<Frame>, frame: Frame, n: nat) returns (items: seq<Value>, k: nat)
    requires !frame.Chunks? && ItemsLen(b, base + [frame]) == Some(n)
    ensures AllWellFormed(items)
    ensures frame.Items? ==> |items| == frame.left
    ensures frame.PairsUntilBreak? ==> |items| % 2 == if frame.halfway then 1 else 0
    ensures var text := if frame.Items? then EncodeAll(items) else EncodeAll(items) + [BREAK];
            Spelled(b, text, base, k) && n == |text| + k
    decreases |b|, 2
  {
    hide ItemsLen, ReadHead, Encode, WellFormed;
    if frame == Items(0) {
      CompleteLevel(base);
      SameOpen(b, base + [Items(0)], base);
      items, k := [], n;
    } else if IsBreak(b) {
      BreakSpelled(b, base, frame, n);
      items, k := [], n - 1;
      assert b[..1] == [BREAK] && EncodeAll(items) + [BREAK] == [BREAK];
    } else {
      var v, left := ItemSpelled(b, base, frame, n);
      var first := Encode(v);
      EncodingsAreNotEmpty(v);
      var more: seq<Value>;
      more, k := LevelSpelled(b[|first|..], base, Begun(frame), left);
      items := [v] + more;
      assert items[1..] == more && EncodeAll(items) == first + EncodeAll(more);
      var rest := if frame.Items? then EncodeAll(more) else EncodeAll(more) + [BREAK];
      SpelledAfter(b, first, rest, base, k);
      Regroup(first, EncodeAll(more), [BREAK], []);
    }
  }

  lemma EncodingsAreNotEmpty(v: Value)
    requires WellFormed(v)
    ensures Encode(v) != []
  {
  }

  /** The decoder reads an item of `n` bytes exactly when those bytes are the encoding of one. */
  lemma ItemLenIff(b: seq<Byte>, n: nat)
    ensures ItemLen(b) == Some(n) <==> exists v :: WellFormed(v) && |Encode(v)| == n <= |b| && b[..n] == Encode(v)
  {
    hide ItemsLen, Encode, WellFormed, ReadHead;
    assert [] + [Items(1)] == [Items(1)];
    if ItemLen(b) == Some(n) {
      var items, k := LevelSpelled(b, [], Items(1), n);
      OneEncoded(items);
      NoItems(b[n - k..], []);
      assert WellFormed(items[0]) && |Encode(items[0])| == n <= |b| && b[..n] == Encode(items[0]);
    }
    if v :| WellFormed(v) && |Encode(v)| == n <= |b| && b[..n] == Encode(v) {
      EncodedItemIsRead(v, b[n..]);
      assert b == Encode(v) + b[n..];
    }
  }
}
