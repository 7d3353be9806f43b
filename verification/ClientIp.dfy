/**
  The client address behind trusted reverse proxies.

  Parsing an address and telling white space are parameters; an address is its
  bits, and a header line is `None` when it is not visible ASCII.
 */
module ClientIp {
  import opened Basics
  import opened Text

  const TWO_32: nat := 0x1_0000_0000

  datatype IpAddr = V4(bits: nat) | V6(bits: nat)

  datatype Cidr = CidrV4(network: nat, length: nat) | CidrV6(network: nat, length: nat)

  datatype Headers = Headers(forwardedFor: seq<Option<string>>, realIp: Option<Option<string>>)

  datatype Setting = Setting(parse: string -> Option<IpAddr>, blank: char -> bool, trusted: seq<Cidr>)

  /** An IPv4-mapped IPv6 address (`::ffff:0:0/96`) as the IPv4 address it carries. */
  function Canonical(ip: IpAddr): IpAddr {
    match ip
    case V6(bits) => if bits / TWO_32 == 0xffff then V4(bits % TWO_32) else ip
    case V4(_) => ip
  }

  /** The bits of an address without its last `n`. */
  function Shifted(bits: nat, n: nat): nat {
    if n == 0 then bits else Shifted(bits, n - 1) / 2
  }

  predicate SamePrefix(a: nat, b: nat, width: nat, length: nat) {
    var host := if length <= width then width - length else 0;
    Shifted(a, host) == Shifted(b, host)
  }

  predicate Contains(cidr: Cidr, ip: IpAddr) {
    match (cidr, ip)
    case (CidrV4(network, length), V4(bits)) => SamePrefix(network, bits, 32, length)
    case (CidrV6(network, length), V6(bits)) => SamePrefix(network, bits, 128, length)
    case _ => false
  }

  predicate IsTrustedProxy(ip: IpAddr, trusted: seq<Cidr>) {
    exists i :: 0 <= i < |trusted| && Contains(trusted[i], Canonical(ip))
  }

  predicate TrustedHop(hop: string, at: Setting) {
    at.parse(hop).Some? && IsTrustedProxy(at.parse(hop).value, at.trusted)
  }

  // The forwarded list

  predicate Readable(lines: seq<Option<string>>) {
    forall i :: 0 <= i < |lines| ==> lines[i].Some?
  }

  /** The comma-separated hops of one readable line, each trimmed. */
  function LineHops(line: Option<string>, blank: char -> bool): seq<string> {
    if line.None? then [] else Trimmed(Split(line.value, ','), blank)
  }

  function Trimmed(parts: seq<string>, blank: char -> bool): seq<string> {
    seq(|parts|, i requires 0 <= i < |parts| => Trim(parts[i], blank))
  }

  /** Every hop of every line, as one list. */
  function Hops(lines: seq<Option<string>>, blank: char -> bool): (hops: seq<string>)
  {
    if lines == [] then []
    else Hops(lines[..|lines| - 1], blank) + LineHops(lines[|lines| - 1], blank)
  }

  /** The walk from the right over a list of hops. */
  function Walk(hops: seq<string>, at: Setting): Option<IpAddr> {
    if hops == [] then None
    else
      var last := hops[|hops| - 1];
      if TrustedHop(last, at) && |hops| > 1 then Walk(hops[..|hops| - 1], at) else at.parse(last)
  }

  /** The client the forwarding headers of a trusted proxy name. */
  function Forwarded(headers: Headers, at: Setting): Option<IpAddr> {
    if headers.forwardedFor == [] then
      match headers.realIp
      case Some(Some(text)) => at.parse(Trim(text, at.blank))
      case _ => None
    else if Readable(headers.forwardedFor) then Walk(Hops(headers.forwardedFor, at.blank), at)
    else None
  }

  function Resolve(peer: Option<IpAddr>, headers: Headers, at: Setting): Option<IpAddr> {
    match peer
    case None => None
    case Some(ip) =>
      var direct := Canonical(ip);
      if !IsTrustedProxy(direct, at.trusted) then Some(direct)
      else
        match Forwarded(headers, at)
        case Some(client) => Some(client)
        case None => Some(direct)
  }

  /** The hops of every line in order; nothing as soon as one line is unreadable. */
  method GatherHops(lines: seq<Option<string>>, blank: char -> bool) returns (hops: Option<seq<string>>)
    ensures hops == if Readable(lines) then Some(Hops(lines, blank)) else None
  {
    hide LineHops;
    var gathered: seq<string> := [];
    for i := 0 to |lines|
      invariant Readable(lines[..i]) && gathered == Hops(lines[..i], blank)
    {
      if lines[i].None? {
        return None;
      }
      assert lines[..i + 1][..i] == lines[..i];
      gathered := gathered + LineHops(lines[i], blank);
    }
    assert lines[..|lines|] == lines;
    return Some(gathered);
  }

  /** The reverse loop over the hops, remembering the leftmost trusted one. */
  method WalkFromRight(hops: seq<string>, at: Setting) returns (client: Option<IpAddr>)
    ensures client == Walk(hops, at)
  {
    hide IsTrustedProxy;
    var leftmostTrusted: Option<IpAddr> := None;
    assert hops[..|hops|] == hops;
    for i := |hops| downto 0
      invariant i > 0 ==> Walk(hops, at) == Walk(hops[..i], at)
      invariant i == 0 ==> Walk(hops, at) == leftmostTrusted
    {
      assert hops[..i + 1][..i] == hops[..i];
      var ip := at.parse(hops[i]);
      if ip.None? {
        return None;
      }
      if !IsTrustedProxy(ip.value, at.trusted) {
        return ip;
      }
      leftmostTrusted := ip;
    }
    return leftmostTrusted;
  }

  /** The forwarding headers as the middleware reads them. */
  method ForwardedClientIp(headers: Headers, at: Setting) returns (client: Option<IpAddr>)
    ensures client == Forwarded(headers, at)
  {
    if headers.forwardedFor == [] {
      match headers.realIp
      case Some(Some(text)) => return at.parse(Trim(text, at.blank));
      case _ => return None;
    }
    var hops := GatherHops(headers.forwardedFor, at.blank);
    if hops.None? {
      return None;
    }
    client := WalkFromRight(hops.value, at);
  }

  /** The walk against its specification: the rightmost hop that is not a trusted proxy decides, else the leftmost hop. */
  lemma {:induction false} WalkMeetsSpecification(hops: seq<string>, at: Setting, i: nat)
    requires i < |hops|
    requires !TrustedHop(hops[i], at) || i == 0
    requires forall j :: i < j < |hops| ==> TrustedHop(hops[j], at)
    ensures Walk(hops, at) == at.parse(hops[i])
  {
    if i < |hops| - 1 {
      WalkMeetsSpecification(hops[..|hops| - 1], at, i);
    }
  }

  /** What stands to the left matters only when everything to its right is trusted. */
  lemma {:induction false} WalkOfConcatenation(left: seq<string>, right: seq<string>, at: Setting)
    ensures Walk(left + right, at) ==
            if left != [] && forall i :: 0 <= i < |right| ==> TrustedHop(right[i], at) then Walk(left, at)
            else Walk(right, at)
  {
    var all := left + right;
    if right == [] {
      assert all == left;
    } else {
      var front, last := right[..|right| - 1], right[|right| - 1];
      assert all[..|all| - 1] == left + front;
      if left == [] {
        assert all == right;
      } else if TrustedHop(last, at) {
        WalkOfConcatenation(left, front, at);
        if front == [] {
          assert forall i :: 0 <= i < |right| ==> right[i] == last;
        } else {
          assert forall i :: 0 <= i < |right| ==> right[i] == if i < |front| then front[i] else last;
          assert forall i :: 0 <= i < |front| ==> front[i] == right[i];
        }
      }
    }
  }

  lemma {:induction false} HopsOfConcatenation(left: seq<Option<string>>, right: seq<Option<string>>, blank: char -> bool)
    ensures Hops(left + right, blank) == Hops(left, blank) + Hops(right, blank)
  {
    hide LineHops;
    if right == [] {
      assert left + right == left;
    } else {
      var all, front, last := left + right, right[..|right| - 1], right[|right| - 1];
      HopsOfConcatenation(left, front, blank);
      assert all[..|all| - 1] == left + front && all[|all| - 1] == last;
      var a, b, c := Hops(left, blank), Hops(front, blank), LineHops(last, blank);
      assert (a + b) + c == a + (b + c);
    }
  }

  lemma ReadableConcatenation(left: seq<Option<string>>, right: seq<Option<string>>)
    requires Readable(right)
    ensures Readable(left + right) <==> Readable(left)
  {
    if Readable(left + right) {
      assert forall i :: 0 <= i < |left| ==> (left + right)[i] == left[i];
    }
  }

  lemma ForwardedBehindExtraLines(extra: seq<Option<string>>, headers: Headers, at: Setting, i: nat)
    requires Readable(headers.forwardedFor)
    requires i < |Hops(headers.forwardedFor, at.blank)| && !TrustedHop(Hops(headers.forwardedFor, at.blank)[i], at)
    ensures Forwarded(headers.(forwardedFor := extra + headers.forwardedFor), at) ==
            if Readable(extra) then Forwarded(headers, at) else None
  {
    var lines := headers.forwardedFor;
    assert lines != [];
    hide Hops, Walk, TrustedHop, Readable;
    ReadableConcatenation(extra, lines);
    HopsOfConcatenation(extra, lines, at.blank);
    WalkOfConcatenation(Hops(extra, at.blank), Hops(lines, at.blank), at);
  }

  /**
    Once a line the proxies wrote names a hop that is not one of theirs, header
    lines a client puts in front change the answer only by being unreadable,
    and then only to the peer itself.
   */
  lemma PrependedLinesChangeNothingIff(peer: IpAddr, extra: seq<Option<string>>, headers: Headers, at: Setting, i: nat)
    requires Readable(headers.forwardedFor)
    requires i < |Hops(headers.forwardedFor, at.blank)| && !TrustedHop(Hops(headers.forwardedFor, at.blank)[i], at)
    ensures var spoofed := Resolve(Some(peer), headers.(forwardedFor := extra + headers.forwardedFor), at);
            var honest := Resolve(Some(peer), headers, at);
            && (spoofed == honest <==> Readable(extra) || honest == Some(Canonical(peer)))
            && spoofed in {honest, Some(Canonical(peer))}
  {
    hide Forwarded, IsTrustedProxy;
    ForwardedBehindExtraLines(extra, headers, at, i);
  }

  lemma JoinedLineHops(a: string, b: string, blank: char -> bool)
    ensures LineHops(Some(a + "," + b), blank) == LineHops(Some(a), blank) + LineHops(Some(b), blank)
  {
    hide Split, Trimmed, Join;
    SplitConcatenation(a, ',', b);
    TrimmedBoth(Split(a, ','), Split(b, ','), blank);
  }

  lemma TrimmedBoth(a: seq<string>, b: seq<string>, blank: char -> bool)
    ensures Trimmed(a + b, blank) == Trimmed(a, blank) + Trimmed(b, blank)
  {
    hide Trim;
  }

  lemma TwoLines(a: string, b: string, blank: char -> bool)
    ensures Hops([Some(a), Some(b)], blank) == LineHops(Some(a), blank) + LineHops(Some(b), blank)
    ensures Hops([Some(a)], blank) == LineHops(Some(a), blank)
  {
    hide LineHops;
    var two := [Some(a), Some(b)];
    assert two[..1] == [Some(a)] && [Some(a)][..0] == [] && Hops([], blank) == [];
  }

  /** A proxy may append to the last line or send its own: a comma inside a line and a new line read the same. */
  lemma JoinedLinesReadAsTwo(peer: Option<IpAddr>, before: seq<Option<string>>, a: string, b: string,
                             after: seq<Option<string>>, headers: Headers, at: Setting)
    ensures Resolve(peer, headers.(forwardedFor := before + [Some(a + "," + b)] + after), at) ==
            Resolve(peer, headers.(forwardedFor := before + [Some(a), Some(b)] + after), at)
  {
    var one, two := [Some(a + "," + b)], [Some(a), Some(b)];
    SameHops(before, a, b, after, at.blank);
    SameReadability(before, one, two, after);
    hide Hops, Walk, IsTrustedProxy, Readable;
    assert before + one + after != [] && before + two + after != [];
  }

  lemma SameHops(before: seq<Option<string>>, a: string, b: string, after: seq<Option<string>>, blank: char -> bool)
    ensures Hops(before + [Some(a + "," + b)] + after, blank) == Hops(before + [Some(a), Some(b)] + after, blank)
  {
    hide Hops, LineHops;
    JoinedLineHops(a, b, blank);
    TwoLines(a, b, blank);
    TwoLines(a + "," + b, b, blank);
    HopsOfConcatenation(before, [Some(a + "," + b)], blank);
    HopsOfConcatenation(before, [Some(a), Some(b)], blank);
    HopsOfConcatenation(before + [Some(a + "," + b)], after, blank);
    HopsOfConcatenation(before + [Some(a), Some(b)], after, blank);
  }

  lemma SameReadability(before: seq<Option<string>>, one: seq<Option<string>>, two: seq<Option<string>>, after: seq<Option<string>>)
    requires Readable(one) && Readable(two)
    ensures Readable(before + one + after) <==> Readable(before + two + after)
  {
    AllReadable(before + one, after);
    AllReadable(before + two, after);
    AllReadable(before, one);
    AllReadable(before, two);
  }

  lemma AllReadable(left: seq<Option<string>>, right: seq<Option<string>>)
    ensures Readable(left + right) <==> Readable(left) && Readable(right)
  {
    if Readable(left + right) {
      assert forall i :: 0 <= i < |left| ==> (left + right)[i] == left[i];
      assert forall i :: 0 <= i < |right| ==> (left + right)[|left| + i] == right[i];
    }
  }

  /**
    The same for text a client puts in front inside the line a proxy appends to:
    readable, it changes nothing; making the line unreadable, it leaves the peer.
   */
  lemma PrependedTextChangesNothing(peer: IpAddr, spoof: string, line: string, rest: seq<Option<string>>,
                                    headers: Headers, at: Setting, i: nat)
    requires headers.forwardedFor == [Some(line)] + rest && Readable(headers.forwardedFor)
    requires i < |Hops(headers.forwardedFor, at.blank)| && !TrustedHop(Hops(headers.forwardedFor, at.blank)[i], at)
    ensures Resolve(Some(peer), headers.(forwardedFor := [Some(spoof + "," + line)] + rest), at) == Resolve(Some(peer), headers, at)
    ensures Resolve(Some(peer), headers.(forwardedFor := [None] + rest), at) == Some(Canonical(peer))
  {
    hide Hops, Walk, TrustedHop, IsTrustedProxy, Readable, Resolve;
    JoinedLinesReadAsTwo(Some(peer), [], spoof, line, rest, headers, at);
    PrependedLinesChangeNothingIff(peer, [Some(spoof)], headers, at, i);
    assert Readable([Some(spoof)]) by { OneReadable(spoof); }
    assert [] + [Some(spoof + "," + line)] + rest == [Some(spoof + "," + line)] + rest;
    assert [] + [Some(spoof), Some(line)] + rest == [Some(spoof)] + headers.forwardedFor;
    NoneIsUnreadable(rest);
    UnreadableLinesLeavePeer(peer, headers.(forwardedFor := [None] + rest), at);
  }

  lemma OneReadable(line: string)
    ensures Readable([Some(line)])
  {
  }

  lemma NoneIsUnreadable(rest: seq<Option<string>>)
    ensures !Readable([None] + rest)
  {
    assert ([None] + rest)[0].None?;
  }

  /** Forwarded lines that cannot all be read leave the peer, trusted or not. */
  lemma UnreadableLinesLeavePeer(peer: IpAddr, headers: Headers, at: Setting)
    requires !Readable(headers.forwardedFor)
    ensures Resolve(Some(peer), headers, at) == Some(Canonical(peer))
  {
    hide Hops, Walk, IsTrustedProxy, Canonical;
  }

  // Whose word is taken

  /** Without a peer there is no address; a peer outside the trusted networks is the client, whatever the headers say. */
  lemma UntrustedPeerIsTheClient(peer: IpAddr, headers: Headers, at: Setting)
    requires !IsTrustedProxy(peer, at.trusted)
    ensures Resolve(Some(peer), headers, at) == Some(Canonical(peer))
    ensures Resolve(None, headers, at) == None
  {
    CanonicalOnce(peer, at.trusted);
    hide Forwarded, Canonical, IsTrustedProxy;
  }

  /** A hop decides the walk: not a trusted proxy, or the leftmost, with nothing but trusted proxies to its right. */
  predicate Decides(hops: seq<string>, i: nat, at: Setting) {
    && i < |hops| && (i == 0 || !TrustedHop(hops[i], at))
    && forall j :: i < j < |hops| ==> TrustedHop(hops[j], at)
  }

  /** Behind a trusted peer, the deciding hop of the forwarded lines is the client; if it is no address, the peer. */
  lemma TrustedPeerForwards(peer: IpAddr, headers: Headers, at: Setting, i: nat)
    requires IsTrustedProxy(peer, at.trusted) && headers.forwardedFor != [] && Readable(headers.forwardedFor)
    requires Decides(Hops(headers.forwardedFor, at.blank), i, at)
    ensures var named := at.parse(Hops(headers.forwardedFor, at.blank)[i]);
            Resolve(Some(peer), headers, at) == if named.Some? then named else Some(Canonical(peer))
  {
    CanonicalOnce(peer, at.trusted);
    hide Hops, Walk, TrustedHop, Canonical, IsTrustedProxy;
    WalkMeetsSpecification(Hops(headers.forwardedFor, at.blank), at, i);
  }

  /** Forwarded lines always hold a hop, and one that decides. */
  lemma SomeHopDecides(hops: seq<string>, at: Setting) returns (i: nat)
    requires hops != []
    ensures Decides(hops, i, at)
  {
    hide TrustedHop;
    i := |hops| - 1;
    while i > 0 && TrustedHop(hops[i], at)
      invariant i < |hops| && forall j :: i < j < |hops| ==> TrustedHop(hops[j], at)
    {
      i := i - 1;
    }
  }

  lemma LinesHoldHops(lines: seq<Option<string>>, blank: char -> bool)
    requires lines != [] && Readable(lines)
    ensures Hops(lines, blank) != []
  {
    hide Trim, Join;
    var last := lines[|lines| - 1];
    assert |LineHops(last, blank)| == |Split(last.value, ',')| > 0;
  }

  /** Behind a trusted peer without forwarded lines, the trimmed `X-Real-IP` is the client if it is an address. */
  lemma TrustedPeerWithRealIp(peer: IpAddr, headers: Headers, at: Setting)
    requires IsTrustedProxy(peer, at.trusted) && headers.forwardedFor == []
    ensures Resolve(Some(peer), headers, at) ==
            if headers.realIp.Some? && headers.realIp.value.Some? && at.parse(Trim(headers.realIp.value.value, at.blank)).Some?
            then at.parse(Trim(headers.realIp.value.value, at.blank)) else Some(Canonical(peer))
  {
    CanonicalOnce(peer, at.trusted);
    hide Trim, Canonical, IsTrustedProxy;
  }

  lemma CanonicalOnce(ip: IpAddr, trusted: seq<Cidr>)
    ensures Canonical(Canonical(ip)) == Canonical(ip)
    ensures IsTrustedProxy(Canonical(ip), trusted) <==> IsTrustedProxy(ip, trusted)
  {
    hide Contains;
  }

  /** The IPv6 address `::ffff:a.b.c.d` that carries an IPv4 one. */
  function Mapped(bits: nat): IpAddr {
    V6(0xffff * TWO_32 + bits)
  }

  /** A mapped address is judged, and answered, as the IPv4 address it carries; no other address is changed. */
  lemma MappedIsIpv4(bits: nat, trusted: seq<Cidr>, other: IpAddr)
    requires bits < TWO_32
    ensures Canonical(Mapped(bits)) == V4(bits)
    ensures IsTrustedProxy(Mapped(bits), trusted) <==> IsTrustedProxy(V4(bits), trusted)
    ensures Canonical(other) != other ==> exists low: nat :: low < TWO_32 && other == Mapped(low)
  {
    hide Contains;
    if Canonical(other) != other {
      var low := other.bits % TWO_32;
      assert low < TWO_32 && other == Mapped(low);
    }
  }

  // Networks

  function Pow2(n: nat): (p: nat)
    ensures p > 0
  {
    if n == 0 then 1 else 2 * Pow2(n - 1)
  }

  /** Bit `i` of an address of `width` bits, the first being the most significant. */
  function Bit(bits: nat, width: nat, i: nat): nat
    requires i < width
  {
    Shifted(bits, width - 1 - i) % 2
  }

  lemma {:induction false} ShiftedOut(bits: nat, width: nat, n: nat)
    requires bits < Pow2(width) && n <= width
    ensures Shifted(bits, n) < Pow2(width - n)
  {
    if n > 0 {
      ShiftedOut(bits, width, n - 1);
      assert Pow2(width - n + 1) == 2 * Pow2(width - n);
    }
  }

  /** A prefix one bit longer agrees exactly when the prefix and that bit do. */
  lemma OneBitLonger(a: nat, b: nat, width: nat, length: nat)
    requires length < width
    ensures SamePrefix(a, b, width, length + 1) <==>
            SamePrefix(a, b, width, length) && Bit(a, width, length) == Bit(b, width, length)
  {
    var x, y := Shifted(a, width - length - 1), Shifted(b, width - length - 1);
    assert Shifted(a, width - length) == x / 2 && Shifted(b, width - length) == y / 2;
  }

  /** Addresses share a prefix exactly when they agree on each of its bits. */
  lemma {:induction false} SamePrefixIff(a: nat, b: nat, width: nat, length: nat)
    requires a < Pow2(width) && b < Pow2(width) && length <= width
    ensures SamePrefix(a, b, width, length) <==> forall i :: 0 <= i < length ==> Bit(a, width, i) == Bit(b, width, i)
  {
    hide Bit;
    if length == 0 {
      ShiftedOut(a, width, width);
      ShiftedOut(b, width, width);
    } else {
      SamePrefixIff(a, b, width, length - 1);
      OneBitLonger(a, b, width, length - 1);
    }
  }

  /** A network holds exactly the addresses of its own kind that agree with it on its first `length` bits. */
  lemma ContainsIff(cidr: Cidr, ip: IpAddr)
    requires var width := if cidr.CidrV4? then 32 else 128;
             cidr.length <= width && cidr.network < Pow2(width)
    requires ip.bits < Pow2(if ip.V4? then 32 else 128)
    ensures var width := if cidr.CidrV4? then 32 else 128;
            Contains(cidr, ip) <==>
              && cidr.CidrV4? == ip.V4?
              && forall i :: 0 <= i < cidr.length ==> Bit(cidr.network, width, i) == Bit(ip.bits, width, i)
  {
    hide Pow2, Bit, SamePrefix;
    if cidr.CidrV4? == ip.V4? {
      SamePrefixIff(cidr.network, ip.bits, if cidr.CidrV4? then 32 else 128, cidr.length);
    }
  }

  // What a line says

  /** Hops written with commas between them and any white space around them are read back. */
  lemma WrittenHopsAreRead(parts: seq<string>, hops: seq<string>, blank: char -> bool)
    requires parts != [] && |parts| == |hops|
    requires forall i :: 0 <= i < |parts| ==> ',' !in parts[i] && Padded(parts[i], hops[i], blank)
    requires forall i :: 0 <= i < |hops| ==> hops[i] != "" && !blank(hops[i][0]) && !blank(hops[i][|hops[i]| - 1])
    ensures LineHops(Some(Join(parts, ',')), blank) == hops
  {
    hide Split, Join, Trim, Padded;
    SplitJoin(parts, ',');
    forall i | 0 <= i < |parts|
      ensures Trim(parts[i], blank) == hops[i]
    {
      TrimIsUnique(parts[i], hops[i], blank);
    }
  }
}
