/**
 * Network address instances: an IP endpoint (IPv4 or IPv6 address bytes
 * and a port) or a local pipe path, with the constructors, accessors, the
 * nullable probe parseInternetAddress, and the port-insensitive comparison
 * the address tests use.
 */
module Address {
  import opened Wrappers
  import opened Text
  import opened Ipv4Text
  import opened Ipv6Text

  /** A TCP/UDP port: an unsigned 16-bit value. */
  type Port = x: int | 0 <= x < 65536

  datatype IpVersion = V4 | V6

  /** Which variant an instance is: Type::Ip or Type::Pipe. */
  datatype AddressType = IpType | PipeType

  /** What the strict constructors fail with, naming the offending text. */
  datatype Error = InvalidAddress(text: string)

  /** The number of address bytes of each version. */
  function Width(v: IpVersion): nat {
    if v == V4 then 4 else 16
  }

  /** The address text of a version, parsed to bytes. */
  function ParseText(v: IpVersion, s: string): (r: Option<seq<Byte>>)
    ensures r.Some? ==> |r.value| == Width(v)
  {
    if v == V4 then ParseV4(s) else ParseV6(s)
  }

  /** The canonical text of the address bytes of a version. */
  function RenderText(v: IpVersion, b: seq<Byte>): string
    requires |b| == Width(v)
  {
    if v == V4 then RenderV4(b) else RenderV6(b)
  }

  /** The all-zero ("any", wildcard) address of a version. */
  function AnyBytes(v: IpVersion): (b: seq<Byte>)
    ensures |b| == Width(v)
  {
    seq(Width(v), _ => 0)
  }

  datatype IpAddress = IpAddress(version: IpVersion, bytes: seq<Byte>, port: Port) {

    /** v4 holds 4 bytes, v6 holds 16. */
    predicate Valid() {
      |bytes| == Width(version)
    }

    /** addressAsString(): the address without its port. */
    function AddressAsString(): string
      requires Valid()
    {
      RenderText(version, bytes)
    }

    /** isAnyAddress(): the address is INADDR_ANY or in6addr_any. */
    predicate IsAnyAddress()
      requires Valid()
    {
      bytes == AnyBytes(version)
    }
  }

  type ValidIpAddress = a: IpAddress | a.Valid() witness IpAddress(V4, [0, 0, 0, 0], 0)

  datatype Instance = Ip(ip: ValidIpAddress) | Pipe(path: string) {

    /** type() */
    function Type(): AddressType {
      if Ip? then IpType else PipeType
    }

    /** ip(): the IP view, absent (a null pointer) for a pipe. */
    function IpView(): Option<ValidIpAddress> {
      if Ip? then Some(ip) else None
    }

    /** asString(): "a.b.c.d:port", "[v6 text]:port", or the pipe path. */
    function AsString(): string {
      match this
      case Pipe(p) => p
      case Ip(a) =>
        if a.version == V4 then a.AddressAsString() + ":" + NatToDecimal(a.port)
        else "[" + a.AddressAsString() + "]:" + NatToDecimal(a.port)
    }
  }

  // ---------------------------------------------------------------------
  // Constructors
  // ---------------------------------------------------------------------

  /** Ipv4Instance(const sockaddr_in*): bytes and port taken as they are, no text involved. */
  function Ipv4FromNative(bytes: seq<Byte>, port: Port): (r: Instance)
    requires |bytes| == 4
    ensures r.Type() == IpType && r.ip.version == V4 && r.ip.port == port
    ensures r.AsString() == RenderV4(bytes) + ":" + NatToDecimal(port)
  {
    Ip(IpAddress(V4, bytes, port))
  }

  /** Ipv6Instance(const sockaddr_in6&): bytes and port taken as they are, no text involved. */
  function Ipv6FromNative(bytes: seq<Byte>, port: Port): (r: Instance)
    requires |bytes| == 16
    ensures r.Type() == IpType && r.ip.version == V6 && r.ip.port == port
    ensures r.AsString() == "[" + RenderV6(bytes) + "]:" + NatToDecimal(port)
  {
    Ip(IpAddress(V6, bytes, port))
  }

  /**
   * Ipv4Instance(address, port = 0): fails with InvalidAddress exactly when
   * the text is not a dotted quad; on success the canonical text is the
   * input itself.
   */
  function Ipv4FromText(text: string, port: Port := 0): (r: Result<Instance, Error>)
    ensures r.Failure? <==> ParseV4(text).None?
    ensures r.Failure? ==> r.error == InvalidAddress(text)
    ensures r.Success? ==> r.value.Type() == IpType && r.value.ip.version == V4 && r.value.ip.port == port
    ensures r.Success? ==> r.value.ip.AddressAsString() == text
    ensures r.Success? ==> r.value.AsString() == text + ":" + NatToDecimal(port)
  {
    match ParseV4(text)
    case None => Failure(InvalidAddress(text))
    case Some(b) =>
      ParseV4Iff(text, b);
      Success(Ip(IpAddress(V4, b, port)))
  }

  /**
   * Ipv6Instance(address, port = 0): fails with InvalidAddress exactly when
   * the text is not an IPv6 literal; on success the canonical text denotes
   * the same address as the input.
   */
  function Ipv6FromText(text: string, port: Port := 0): (r: Result<Instance, Error>)
    ensures r.Failure? <==> ParseV6(text).None?
    ensures r.Failure? ==> r.error == InvalidAddress(text)
    ensures r.Success? ==> r.value.Type() == IpType && r.value.ip.version == V6 && r.value.ip.port == port
    ensures r.Success? ==> ParseV6(r.value.ip.AddressAsString()) == ParseV6(text)
  {
    match ParseV6(text)
    case None => Failure(InvalidAddress(text))
    case Some(b) =>
      ParseRenderV6(b);
      Success(Ip(IpAddress(V6, b, port)))
  }

  /** Ipv4Instance(port): the any-address 0.0.0.0 on the given port. */
  function Ipv4AnyAddress(port: Port): (r: Instance)
    ensures r.Type() == IpType && r.ip.version == V4 && r.ip.port == port && r.ip.IsAnyAddress()
  {
    Ip(IpAddress(V4, AnyBytes(V4), port))
  }

  /** Ipv6Instance(port): the any-address :: on the given port. */
  function Ipv6AnyAddress(port: Port): (r: Instance)
    ensures r.Type() == IpType && r.ip.version == V6 && r.ip.port == port && r.ip.IsAnyAddress()
  {
    Ip(IpAddress(V6, AnyBytes(V6), port))
  }

  /** PipeInstance(path) */
  function PipeFromPath(path: string): (r: Instance)
    ensures r.Type() == PipeType && r.IpView().None? && r.AsString() == path
  {
    Pipe(path)
  }

  /**
   * parseInternetAddress(text): the address as IPv4 if it is a dotted quad,
   * else as IPv6 if it is an IPv6 literal, on port 0; absence otherwise.
   * The two forms never overlap, so the order of the attempts is immaterial.
   */
  function ParseInternetAddress(text: string): (r: Option<Instance>)
    ensures r.None? <==> ParseV4(text).None? && ParseV6(text).None?
    ensures r.Some? ==> r.value.Type() == IpType && r.value.ip.port == 0
    ensures r.Some? ==> ParseText(r.value.ip.version, text) == Some(r.value.ip.bytes)
  {
    match ParseV4(text)
    case Some(b) => Some(Ip(IpAddress(V4, b, 0)))
    case None =>
      match ParseV6(text)
      case Some(b) => Some(Ip(IpAddress(V6, b, 0)))
      case None => None
  }

  /**
   * addressesEqual(a, b) of the address tests: false when a is absent or
   * either side is not an IP address, else whether the address texts
   * (without ports) agree.
   */
  function AddressesEqual(a: Option<Instance>, b: Instance): bool
  {
    if a.None? || a.value.Type() != IpType || b.Type() != IpType then false
    else a.value.IpView().value.AddressAsString() == b.IpView().value.AddressAsString()
  }

  // ---------------------------------------------------------------------
  // Properties
  // ---------------------------------------------------------------------

  /** The canonical text of 0.0.0.0 is "0.0.0.0". */
  lemma RenderV4OfAny()
    ensures RenderV4(AnyBytes(V4)) == "0.0.0.0"
  {
    assert AnyBytes(V4) == [0, 0, 0, 0];
    assert RenderV4([0, 0, 0, 0]) == "0.0.0.0";
  }

  /** The canonical text of :: is "::". */
  lemma RenderV6OfZeros(b: seq<Byte>)
    requires |b| == 16 && forall k :: 0 <= k < 16 ==> b[k] == 0
    ensures RenderV6(b) == "::"
  {
    var g := BytesToGroups(b);
    assert g == Zeros(8);
    var run := LongestZeroRunFrom(g, 0);
    assert IsZeroRun(g, 0, 8);
    ZeroRunAtIsLongest(g, 0, 8);
    assert run.start == 0 && run.len == 8;
    assert g[..0] == [] && g[8..] == [];
  }

  lemma RenderV6OfAny()
    ensures RenderV6(AnyBytes(V6)) == "::"
  {
    RenderV6OfZeros(AnyBytes(V6));
  }

  /** A text that is a dotted quad is never an IPv6 literal, and conversely. */
  lemma V4AndV6TextsAreDisjoint(s: string)
    ensures !(ParseV4(s).Some? && ParseV6(s).Some?)
  {
    ParsedV4HasNoColon(s);
    ParsedV6HasColon(s);
  }

  /** Address texts of the two versions never coincide: only IPv6 text has a ':'. */
  lemma RenderTextVersion(v: IpVersion, b: seq<Byte>)
    requires |b| == Width(v)
    ensures (':' in RenderText(v, b)) <==> v == V6
  {
    if v == V4 {
      RenderV4Chars(b);
    } else {
      RenderV6Shape(BytesToGroups(b));
    }
  }

  /** The canonical text determines the version and the address bytes. */
  lemma RenderTextInjective(v1: IpVersion, b1: seq<Byte>, v2: IpVersion, b2: seq<Byte>)
    requires |b1| == Width(v1) && |b2| == Width(v2)
    ensures RenderText(v1, b1) == RenderText(v2, b2) <==> v1 == v2 && b1 == b2
  {
    RenderTextVersion(v1, b1);
    RenderTextVersion(v2, b2);
    if v1 == v2 == V4 {
      ParseV4Iff(RenderV4(b1), b1);
      ParseV4Iff(RenderV4(b2), b2);
    } else if v1 == v2 == V6 {
      RenderV6Injective(b1, b2);
    }
  }

  /**
   * addressesEqual holds exactly when both sides are IP addresses of the same
   * version with the same bytes; the ports play no part.
   */
  lemma AddressesEqualIff(a: Option<Instance>, b: Instance)
    ensures AddressesEqual(a, b) <==>
      a.Some? && a.value.Ip? && b.Ip? && a.value.ip.version == b.ip.version && a.value.ip.bytes == b.ip.bytes
  {
    if a.Some? && a.value.Ip? && b.Ip? {
      RenderTextInjective(a.value.ip.version, a.value.ip.bytes, b.ip.version, b.ip.bytes);
    }
  }

  /**
   * Comparing an instance with the probe's parse of a text holds exactly when
   * the instance is an IP address and the text, in any of its spellings,
   * denotes that instance's address in that instance's version.
   */
  lemma ProbeEqualIff(s: string, b: Instance)
    ensures AddressesEqual(ParseInternetAddress(s), b) <==>
      b.Ip? && ParseText(b.ip.version, s) == Some(b.ip.bytes)
  {
    V4AndV6TextsAreDisjoint(s);
    AddressesEqualIff(ParseInternetAddress(s), b);
  }

  /**
   * Two texts that spell the same address of one version, however they
   * differ (leading zeros, case, "::"), compare equal to the same
   * instances: the IP instances of that version with those bytes.
   */
  lemma SpellingsAreInterchangeable(v: IpVersion, s1: string, s2: string, x: seq<Byte>, b: Instance)
    requires ParseText(v, s1) == Some(x) && ParseText(v, s2) == Some(x)
    ensures AddressesEqual(ParseInternetAddress(s1), b) <==> AddressesEqual(ParseInternetAddress(s2), b)
    ensures AddressesEqual(ParseInternetAddress(s1), b) <==> b.Ip? && b.ip.version == v && b.ip.bytes == x
  {
    V4AndV6TextsAreDisjoint(s1);
    V4AndV6TextsAreDisjoint(s2);
    ProbeEqualIff(s1, b);
    ProbeEqualIff(s2, b);
  }

  /** The strict constructors accept the canonical text of an instance and rebuild it. */
  lemma FromTextOfAddressAsString(x: Instance)
    requires x.Ip?
    ensures x.ip.version == V4 ==> Ipv4FromText(x.ip.AddressAsString(), x.ip.port) == Success(x)
    ensures x.ip.version == V6 ==> Ipv6FromText(x.ip.AddressAsString(), x.ip.port) == Success(x)
  {
    if x.ip.version == V4 {
      ParseV4Iff(x.ip.AddressAsString(), x.ip.bytes);
    } else {
      ParseRenderV6(x.ip.bytes);
    }
  }

  /** The port-only constructors build what the text constructors build from "0.0.0.0" and "::". */
  lemma AnyAddressFromText(port: Port)
    ensures Ipv4FromText("0.0.0.0", port) == Success(Ipv4AnyAddress(port))
    ensures Ipv6FromText("::", port) == Success(Ipv6AnyAddress(port))
  {
    RenderV4OfAny();
    ParseV4Iff("0.0.0.0", AnyBytes(V4));
    RenderV6OfAny();
    ParseRenderV6(AnyBytes(V6));
  }

  /** The IPv4 port-only constructor renders as "0.0.0.0:port". */
  lemma Ipv4AnyAddressAsString(port: Port)
    ensures Ipv4AnyAddress(port).AsString() == "0.0.0.0:" + NatToDecimal(port)
  {
    RenderV4OfAny();
    assert Ipv4AnyAddress(port).ip.AddressAsString() == "0.0.0.0";
  }

  /** The IPv6 port-only constructor renders as "[::]:port". */
  lemma Ipv6AnyAddressAsString(port: Port)
    ensures Ipv6AnyAddress(port).AsString() == "[::]:" + NatToDecimal(port)
  {
    Ipv6AnyAddressText(port);
    BracketedAny(Ipv6AnyAddress(port).ip.AddressAsString(), NatToDecimal(port));
  }

  lemma BracketedAny(s: string, n: string)
    requires s == "::"
    ensures "[" + s + "]:" + n == "[::]:" + n
  {
    assert "[" + "::" + "]:" == "[::]:";
  }

  lemma Ipv6AnyAddressText(port: Port)
    ensures Ipv6AnyAddress(port).ip.AddressAsString() == "::"
  {
    RenderV6OfAny();
  }

  lemma IsAnyAddressV4Text(a: ValidIpAddress)
    requires a.version == V4
    ensures a.IsAnyAddress() <==> a.AddressAsString() == "0.0.0.0"
  {
    RenderV4OfAny();
    RenderV4Injective(a.bytes, AnyBytes(V4));
  }

  lemma IsAnyAddressV6Text(a: ValidIpAddress)
    requires a.version == V6
    ensures a.IsAnyAddress() <==> a.AddressAsString() == "::"
  {
    RenderV6OfAny();
    RenderV6Injective(a.bytes, AnyBytes(V6));
  }

  /**
   * isAnyAddress holds exactly when every byte is zero, which is exactly when
   * the address text is "0.0.0.0" (v4) or "::" (v6).
   */
  lemma IsAnyAddressIff(a: ValidIpAddress)
    ensures a.IsAnyAddress() <==> forall k :: 0 <= k < |a.bytes| ==> a.bytes[k] == 0
    ensures a.IsAnyAddress() <==> a.AddressAsString() == (if a.version == V4 then "0.0.0.0" else "::")
  {
    if a.version == V4 {
      IsAnyAddressV4Text(a);
    } else {
      IsAnyAddressV6Text(a);
    }
  }
}
