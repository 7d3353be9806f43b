/**
  An item-length decoder for well-formed CBOR (section 3 and appendix C of RFC
  8949), indefinite lengths included: an instance of what the authenticator data
  parser asks for.
 */
module CborItems {
  import opened Basics
  import opened AuthenticatorData

  /** An initial byte with its argument: major type, argument unless indefinite, and bytes taken. */
  datatype Head = Head(major: nat, argument: Option<nat>, size: nat)

  function BigEndian(b: seq<Byte>): nat {
    if b == [] then 0 else BigEndian(b[..|b| - 1]) * 256 + b[|b| - 1]
  }

  function ArgumentSize(info: nat): Option<nat> {
    if info < 24 || info == 31 then Some(0)
    else if info == 24 then Some(1)
    else if info == 25 then Some(2)
    else if info == 26 then Some(4)
    else if info == 27 then Some(8)
    else None
  }

  /** A simple value below 32 has no two-byte form. */
  function ReadHead(b: seq<Byte>): (head: Option<Head>)
    ensures head.Some? ==> 1 <= head.value.size <= |b| && head.value.major < 8
  {
    if b == [] then None
    else
      var major, info := b[0] / 32, b[0] % 32;
      match ArgumentSize(info)
      case None => None
      case Some(n) =>
        if |b| < 1 + n || (b[0] == 0xf8 && b[1] < 32) then None
        else
          var argument := if info == 31 then None else Some(if n == 0 then info else BigEndian(b[1..1 + n]));
          Some(Head(major, argument, 1 + n))
  }

  /** Bytes the item's own head and string content take; what it contains is read next. */
  function OwnSize(h: Head): nat {
    if (h.major == 2 || h.major == 3) && h.argument.Some? then h.size + h.argument.value else h.size
  }

  /** What is still to come at one level: so many items, items or pairs until a break, or chunks of a string. */
  datatype Frame = Items(left: nat) | UntilBreak | PairsUntilBreak(halfway: bool) | Chunks(major: nat)

  /** The levels still open, innermost last, without those complete. */
  function Open(frames: seq<Frame>): (open: seq<Frame>)
    ensures open != [] ==> open[|open| - 1] != Items(0)
  {
    if frames != [] && frames[|frames| - 1] == Items(0) then Open(frames[..|frames| - 1]) else frames
  }

  /** The level once one more item begins in it. */
  function Begun(frame: Frame): Frame
    requires frame != Items(0)
  {
    match frame
    case Items(left) => Items(left - 1)
    case PairsUntilBreak(halfway) => PairsUntilBreak(!halfway)
    case _ => frame
  }

  /** The level an item opens inside itself, if any; `None` for a head no item starts with. */
  function Inside(h: Head): Option<seq<Frame>> {
    match h.argument
    case Some(n) =>
      if h.major == 4 then Some([Items(n)])
      else if h.major == 5 then Some([Items(2 * n)])
      else if h.major == 6 then Some([Items(1)])
      else Some([])
    case None =>
      if h.major == 2 || h.major == 3 then Some([Chunks(h.major)])
      else if h.major == 4 then Some([UntilBreak])
      else if h.major == 5 then Some([PairsUntilBreak(false)])
      else None
  }

  /** The open levels after a head is read; `None` where it is out of place. */
  function Next(open: seq<Frame>, h: Head): Option<seq<Frame>>
    requires open != [] && open[|open| - 1] != Items(0)
  {
    var outer, inner := open[..|open| - 1], open[|open| - 1];
    if h.major == 7 && h.argument.None? then
      if inner.UntilBreak? || inner.Chunks? || inner == PairsUntilBreak(false) then Some(outer) else None
    else if inner.Chunks? then
      if h.major == inner.major && h.argument.Some? then Some(open) else None
    else
      match Inside(h)
      case None => None
      case Some(inside) => Some(outer + [Begun(inner)] + inside)
  }

  /** The length of what is still to come. */
  function ItemsLen(b: seq<Byte>, frames: seq<Frame>): (n: Option<nat>)
    ensures n.Some? ==> n.value <= |b|
    decreases |b|
  {
    var open := Open(frames);
    if open == [] then Some(0)
    else
      match ReadHead(b)
      case None => None
      case Some(h) =>
        if OwnSize(h) > |b| || Next(open, h).None? then None
        else
          match ItemsLen(b[OwnSize(h)..], Next(open, h).value)
          case None => None
          case Some(n) => Some(OwnSize(h) + n)
  }

  function ItemLen(b: seq<Byte>): Option<nat> {
    ItemsLen(b, [Items(1)])
  }

  lemma SameHead(b: seq<Byte>, c: seq<Byte>)
    requires ReadHead(b).Some? && ReadHead(b).value.size <= |c|
    requires c[..ReadHead(b).value.size] == b[..ReadHead(b).value.size]
    ensures ReadHead(c) == ReadHead(b)
  {
    var size := ReadHead(b).value.size;
    assert b[0] == b[..size][0] == c[..size][0] == c[0];
    assert b[1..size] == b[..size][1..] == c[..size][1..] == c[1..size];
    if size > 1 {
      assert b[1] == b[1..size][0] && c[1] == c[1..size][0];
    }
  }

  lemma SharedPrefix(b: seq<Byte>, c: seq<Byte>, m: nat, n: nat)
    requires m <= n <= |b| && n <= |c| && c[..n] == b[..n]
    ensures c[..m] == b[..m] && c[m..][..n - m] == b[m..][..n - m]
  {
    assert c[..m] == c[..n][..m] == b[..n][..m];
    assert c[m..][..n - m] == c[..n][m..] == b[..n][m..];
  }

  lemma NoItems(b: seq<Byte>, frames: seq<Frame>)
    requires Open(frames) == []
    ensures ItemsLen(b, frames) == Some(0)
  {
  }

  lemma FirstHead(b: seq<Byte>, frames: seq<Frame>, n: nat)
    requires Open(frames) != [] && ItemsLen(b, frames) == Some(n)
    ensures ReadHead(b).Some?
    ensures var h := ReadHead(b).value;
            && 1 <= h.size <= OwnSize(h) <= n <= |b| && Next(Open(frames), h).Some?
            && ItemsLen(b[OwnSize(h)..], Next(Open(frames), h).value) == Some(n - OwnSize(h))
  {
    hide ReadHead, Next, Open;
  }

  lemma ItemsLenStep(b: seq<Byte>, frames: seq<Frame>, h: Head, k: nat)
    requires Open(frames) != [] && ReadHead(b) == Some(h) && OwnSize(h) <= |b| && Next(Open(frames), h).Some?
    requires ItemsLen(b[OwnSize(h)..], Next(Open(frames), h).value) == Some(k)
    ensures ItemsLen(b, frames) == Some(OwnSize(h) + k)
  {
    hide ReadHead, Next, Open, OwnSize;
  }

  /** Items are read from their own bytes: any string starting with them starts with the same items. */
  lemma {:induction false} ItemsLenOfPrefix(b: seq<Byte>, c: seq<Byte>, frames: seq<Frame>, n: nat)
    requires ItemsLen(b, frames) == Some(n) && n <= |c| && c[..n] == b[..n]
    ensures ItemsLen(c, frames) == Some(n)
    decreases |b|
  {
    hide ReadHead, Next, Open, OwnSize, ItemsLen;
    if Open(frames) == [] {
      NoItems(b, frames);
      NoItems(c, frames);
    } else {
      FirstHead(b, frames, n);
      var h := ReadHead(b).value;
      var own := OwnSize(h);
      SharedPrefix(b, c, own, n);
      SharedPrefix(b, c, h.size, n);
      SameHead(b, c);
      ItemsLenOfPrefix(b[own..], c[own..], Next(Open(frames), h).value, n - own);
      ItemsLenStep(c, frames, h, n - own);
    }
  }

  /** The decoder fits the parser: its assumption is not empty. */
  lemma CborIsPrefixDetermined()
    ensures PrefixDetermined(ItemLen)
  {
    forall b: seq<Byte> | ItemLen(b).Some?
      ensures IsItem(ItemLen, b[..ItemLen(b).value])
    {
      var n := ItemLen(b).value;
      assert b[..n][..n] == b[..n];
      ItemsLenOfPrefix(b, b[..n], [Items(1)], n);
    }
    forall item: seq<Byte>, tail: seq<Byte> | IsItem(ItemLen, item)
      ensures ItemLen(item + tail) == Some(|item|)
    {
      assert (item + tail)[..|item|] == item == item[..|item|];
      ItemsLenOfPrefix(item, item + tail, [Items(1)], |item|);
    }
  }
}
