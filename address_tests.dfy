/**
 * The assertions of the address tests, each TEST case stated as a few
 * lemmas about the model: one for what the instance renders as and reports,
 * one for how it compares with the probe's parse of a text, one per
 * rejected input.
 */
module AddressTests {
  import opened Wrappers
  import opened Text
  import opened Ipv4Text
  import opened Ipv6Text
  import opened Address

  // ---------------------------------------------------------------------
  // IPv4
  // ---------------------------------------------------------------------

  /** inet_pton reads "1.2.3.4" as the bytes 1, 2, 3, 4. */
  lemma ParseV4Example()
    ensures ParseV4("1.2.3.4") == Some([1, 2, 3, 4])
  {
    assert RenderV4([1, 2, 3, 4]) == "1.2.3.4";
    ParseV4Iff("1.2.3.4", [1, 2, 3, 4]);
  }

  /** Ipv4InstanceTest.SocketAddress: what the instance reports. */
  lemma Ipv4SocketAddress()
    ensures var a := Ipv4FromNative([1, 2, 3, 4], 6502);
      && a.AsString() == "1.2.3.4:6502"
      && a.Type() == IpType
      && a.IpView().Some?
      && a.ip.AddressAsString() == "1.2.3.4"
      && a.ip.port == 6502
      && a.ip.version == V4
  {
    assert RenderV4([1, 2, 3, 4]) == "1.2.3.4";
    assert NatToDecimal(6502) == "6502";
  }

  /** Ipv4InstanceTest.SocketAddress: the probe of "1.2.3.4" compares equal. */
  lemma Ipv4SocketAddressProbe()
    ensures AddressesEqual(ParseInternetAddress("1.2.3.4"), Ipv4FromNative([1, 2, 3, 4], 6502))
  {
    ParseV4Example();
    ProbeEqualIff("1.2.3.4", Ipv4FromNative([1, 2, 3, 4], 6502));
  }

  /** Ipv4InstanceTest.AddressOnly: the text constructor builds 3.4.5.6 on port 0. */
  lemma Ipv4AddressOnly()
    ensures Ipv4FromText("3.4.5.6") == Success(Ipv4FromNative([3, 4, 5, 6], 0))
  {
    assert RenderV4([3, 4, 5, 6]) == "3.4.5.6";
    ParseV4Iff("3.4.5.6", [3, 4, 5, 6]);
  }

  /** Ipv4InstanceTest.AddressOnly: what the instance reports. */
  lemma Ipv4AddressOnlyReports()
    ensures var a := Ipv4FromNative([3, 4, 5, 6], 0);
      && a.AsString() == "3.4.5.6:0"
      && a.ip.AddressAsString() == "3.4.5.6"
  {
    assert RenderV4([3, 4, 5, 6]) == "3.4.5.6";
    assert NatToDecimal(0) == "0";
  }

  /** Ipv4InstanceTest.AddressOnly: the probe of "3.4.5.6" compares equal. */
  lemma Ipv4AddressOnlyProbe()
    ensures AddressesEqual(ParseInternetAddress("3.4.5.6"), Ipv4FromNative([3, 4, 5, 6], 0))
  {
    assert RenderV4([3, 4, 5, 6]) == "3.4.5.6";
    ParseV4Iff("3.4.5.6", [3, 4, 5, 6]);
    ProbeEqualIff("3.4.5.6", Ipv4FromNative([3, 4, 5, 6], 0));
  }

  /** inet_pton reads "127.0.0.1" as the bytes 127, 0, 0, 1. */
  lemma ParseLoopbackExample()
    ensures ParseV4("127.0.0.1") == Some([127, 0, 0, 1])
  {
    assert RenderV4([127, 0, 0, 1]) == "127.0.0.1";
    ParseV4Iff("127.0.0.1", [127, 0, 0, 1]);
  }

  /** Ipv4InstanceTest.AddressAndPort: the text constructor builds 127.0.0.1 on port 80. */
  lemma Ipv4AddressAndPort()
    ensures Ipv4FromText("127.0.0.1", 80) == Success(Ipv4FromNative([127, 0, 0, 1], 80))
  {
    ParseLoopbackExample();
  }

  /** Ipv4InstanceTest.AddressAndPort: what the instance reports; it is not the any-address. */
  lemma Ipv4AddressAndPortReports()
    ensures var a := Ipv4FromNative([127, 0, 0, 1], 80);
      && a.AsString() == "127.0.0.1:80"
      && a.ip.AddressAsString() == "127.0.0.1"
      && !a.ip.IsAnyAddress()
  {
    RenderLoopbackV4();
    PortTexts();
    V4Reports([127, 0, 0, 1], 80, "127.0.0.1", "80");
    LoopbackV4EndpointText();
  }

  lemma LoopbackV4EndpointText()
    ensures "127.0.0.1" + ":" + "80" == "127.0.0.1:80"
  {
  }

  lemma RenderLoopbackV4()
    ensures RenderV4([127, 0, 0, 1]) == "127.0.0.1"
  {
  }

  /** What an IPv4 instance reports, given its canonical text and the numeral of its port. */
  lemma V4Reports(b: seq<Byte>, port: Port, t: string, n: string)
    requires |b| == 4 && RenderV4(b) == t && NatToDecimal(port) == n
    ensures var a := Ipv4FromNative(b, port);
      && a.AsString() == t + ":" + n
      && a.ip.AddressAsString() == t
      && (a.ip.IsAnyAddress() <==> t == "0.0.0.0")
  {
    IsAnyAddressV4Text(Ipv4FromNative(b, port).ip);
  }

  /** Ipv4InstanceTest.AddressAndPort: the probe of "127.0.0.1" compares equal. */
  lemma Ipv4AddressAndPortProbe()
    ensures AddressesEqual(ParseInternetAddress("127.0.0.1"), Ipv4FromNative([127, 0, 0, 1], 80))
  {
    ParseLoopbackExample();
    ProbeEqualIff("127.0.0.1", Ipv4FromNative([127, 0, 0, 1], 80));
  }

  /** Ipv4InstanceTest.PortOnly: what the instance reports. */
  lemma Ipv4PortOnly()
    ensures var a := Ipv4AnyAddress(443);
      && a.AsString() == "0.0.0.0:443"
      && a.ip.AddressAsString() == "0.0.0.0"
      && a.ip.IsAnyAddress()
      && a.ip.port == 443
  {
    Ipv4AnyAddressAsString(443);
    IsAnyAddressV4Text(Ipv4AnyAddress(443).ip);
    assert NatToDecimal(443) == "443";
  }

  /** Ipv4InstanceTest.PortOnly: the probe of "0.0.0.0" compares equal. */
  lemma Ipv4PortOnlyProbe()
    ensures AddressesEqual(ParseInternetAddress("0.0.0.0"), Ipv4AnyAddress(443))
  {
    AnyAddressFromText(0);
    ProbeEqualIff("0.0.0.0", Ipv4AnyAddress(443));
  }

  /** Ipv4InstanceTest.BadAddress: the strict constructor rejects "foo" and "bar". */
  lemma Ipv4BadAddress()
    ensures Ipv4FromText("foo") == Failure(InvalidAddress("foo"))
    ensures Ipv4FromText("bar", 1) == Failure(InvalidAddress("bar"))
  {
    ParsedV4Chars("foo");
    assert "foo"[0] == 'f';
    ParsedV4Chars("bar");
    assert "bar"[0] == 'b';
  }

  /** A text that is not a dotted quad and has no colon is neither IPv4 nor IPv6. */
  lemma ProbeRejects(s: string)
    requires ParseV4(s).None? && ':' !in s
    ensures ParseInternetAddress(s).None?
  {
    ParsedV6HasColon(s);
  }

  /** Ipv4InstanceTest.BadAddress: the probe rejects the empty text. */
  lemma ProbeRejectsEmpty()
    ensures ParseInternetAddress("").None?
  {
    assert Split("", '.') == [""];
    ParsedV6HasColon("");
  }

  /** Ipv4InstanceTest.BadAddress: the probe rejects three octets. */
  lemma ProbeRejectsThreeOctets()
    ensures ParseInternetAddress("1.2.3").None?
  {
    ThreeOctetsV4();
    assert ':' !in "1.2.3";
    ProbeRejects("1.2.3");
  }

  /** "1.2.3" splits into three pieces, one too few for a dotted quad. */
  lemma ThreeOctetsV4()
    ensures ParseV4("1.2.3").None?
  {
    assert Join(["1", "2", "3"], '.') == "1.2.3";
    SplitJoin(["1", "2", "3"], '.');
  }

  /** Ipv4InstanceTest.BadAddress: the probe rejects five octets. */
  lemma ProbeRejectsFiveOctets()
    ensures ParseInternetAddress("1.2.3.4.5").None?
  {
    FiveOctetsV4();
    NoColonInFiveOctets();
    ProbeRejects("1.2.3.4.5");
  }

  lemma NoColonInFiveOctets()
    ensures ':' !in "1.2.3.4.5"
  {
  }

  /** "1.2.3.4.5" splits into five pieces, one too many for a dotted quad. */
  lemma FiveOctetsV4()
    ensures ParseV4("1.2.3.4.5").None?
  {
    JoinFiveOctets();
    SplitJoin(["1", "2", "3", "4", "5"], '.');
  }

  lemma JoinFiveOctets()
    ensures Join(["1", "2", "3", "4", "5"], '.') == "1.2.3.4.5"
  {
  }

  /** A dotted quad one of whose pieces is not an octet is rejected. */
  lemma RejectsOctet(s: string, parts: seq<string>, k: nat)
    requires Split(s, '.') == parts && |parts| == 4 && k < 4
    requires ParseOctet(parts[k]).None?
    ensures ParseV4(s).None?
  {
  }

  /** 256 does not fit an octet. */
  lemma OctetAbove255()
    ensures ParseOctet("256").None?
  {
    assert NatToDecimal(256) == "256";
  }

  lemma DottedQuadAbove255()
    ensures ParseV4("1.2.3.256").None?
  {
    SplitOctet256();
    OctetAbove255();
    RejectsOctet("1.2.3.256", ["1", "2", "3", "256"], 3);
  }

  lemma SplitOctet256()
    ensures Split("1.2.3.256", '.') == ["1", "2", "3", "256"]
  {
    JoinOctet256();
    SplitJoin(["1", "2", "3", "256"], '.');
  }

  lemma JoinOctet256()
    ensures Join(["1", "2", "3", "256"], '.') == "1.2.3.256"
  {
  }

  /** Ipv4InstanceTest.BadAddress: the probe rejects an octet above 255. */
  lemma ProbeRejectsOctet256()
    ensures ParseInternetAddress("1.2.3.256").None?
  {
    DottedQuadAbove255();
    NoColonInOctet256();
    ProbeRejects("1.2.3.256");
  }

  lemma NoColonInOctet256()
    ensures ':' !in "1.2.3.256"
  {
  }

  /** Ipv4InstanceTest.BadAddress and Ipv6InstanceTest.BadAddress: the probe rejects "foo". */
  lemma ProbeRejectsFoo()
    ensures ParseInternetAddress("foo").None?
  {
    ParsedV4Chars("foo");
    assert "foo"[0] == 'f';
    ParsedV6HasColon("foo");
  }

  // ---------------------------------------------------------------------
  // IPv6
  // ---------------------------------------------------------------------

  /** A compressed text whose pieces are group texts denotes these groups. */
  lemma ParseCompressedText(s: string, lp: seq<string>, rp: seq<string>, g: seq<Group>)
    requires s == Join(lp, ':') + "::" + Join(rp, ':')
    requires AllGroupTexts(lp) && AllGroupTexts(rp) && |lp| + |rp| <= 7
    requires GroupValues(lp) + Zeros(8 - |lp| - |rp|) + GroupValues(rp) == g
    ensures ParseV6(s) == Some(GroupsToBytes(g))
  {
    ParseV6Compressed(lp, rp);
  }

  /** A text of eight group texts and no "::" denotes these groups. */
  lemma ParseFullText(s: string, ps: seq<string>, g: seq<Group>)
    requires s == Join(ps, ':')
    requires AllGroupTexts(ps) && |ps| == 8 && GroupValues(ps) == g
    ensures ParseV6(s) == Some(GroupsToBytes(g))
  {
    ParseV6Full(ps);
  }

  /** The canonical text of the bytes of some groups is the RFC 5952 text of those groups. */
  lemma RenderOfGroups(g: seq<Group>)
    requires |g| == 8
    ensures RenderV6(GroupsToBytes(g)) == RenderV6Groups(g)
  {
    GroupsBytesRoundTrip(g);
  }

  /** What an IPv6 instance reports, given its canonical text and the numeral of its port. */
  lemma V6Reports(b: seq<Byte>, port: Port, t: string, n: string)
    requires |b| == 16 && RenderV6(b) == t && NatToDecimal(port) == n
    ensures var a := Ipv6FromNative(b, port);
      && a.AsString() == "[" + t + "]:" + n
      && a.ip.AddressAsString() == t
      && (a.ip.IsAnyAddress() <==> t == "::")
  {
    IsAnyAddressV6Text(Ipv6FromNative(b, port).ip);
  }

  /** The decimal texts of the ports the tests use. */
  lemma PortTexts()
    ensures NatToDecimal(0) == "0" && NatToDecimal(80) == "80" && NatToDecimal(443) == "443"
    ensures NatToDecimal(6502) == "6502" && NatToDecimal(32000) == "32000"
  {
  }

  /** The address of Ipv6InstanceTest.SocketAddress: 1:23::ef. */
  const Groups1: seq<Group> := [0x1, 0x23, 0, 0, 0, 0, 0, 0xef]

  /** inet_pton reads "01:023::00Ef" as 1:23::ef. */
  lemma ParseV6Example()
    ensures ParseV6("01:023::00Ef") == Some(GroupsToBytes(Groups1))
  {
    ExampleText1();
    ExampleValues1();
    ParseCompressedText("01:023::00Ef", ["01", "023"], ["00Ef"], Groups1);
  }

  lemma ExampleText1()
    ensures "01:023::00Ef" == Join(["01", "023"], ':') + "::" + Join(["00Ef"], ':')
  {
  }

  lemma ExampleValues1()
    ensures AllGroupTexts(["01", "023"]) && AllGroupTexts(["00Ef"])
    ensures GroupValues(["01", "023"]) + Zeros(5) + GroupValues(["00Ef"]) == Groups1
  {
    HexValueDigits("01");
    HexValueDigits("023");
    HexValueDigits("00Ef");
    assert Zeros(5) == [0, 0, 0, 0, 0];
  }

  /** The probe text "1:0023::0Ef" also denotes 1:23::ef. */
  lemma ParseV6ExampleRespelled()
    ensures ParseV6("1:0023::0Ef") == Some(GroupsToBytes(Groups1))
  {
    RespelledText1();
    RespelledValues1();
    ParseCompressedText("1:0023::0Ef", ["1", "0023"], ["0Ef"], Groups1);
  }

  lemma RespelledText1()
    ensures "1:0023::0Ef" == Join(["1", "0023"], ':') + "::" + Join(["0Ef"], ':')
  {
  }

  lemma RespelledValues1()
    ensures AllGroupTexts(["1", "0023"]) && AllGroupTexts(["0Ef"])
    ensures GroupValues(["1", "0023"]) + Zeros(5) + GroupValues(["0Ef"]) == Groups1
  {
    HexValueDigits("1");
    HexValueDigits("0023");
    HexValueDigits("0Ef");
    assert Zeros(5) == [0, 0, 0, 0, 0];
  }

  /** The five zero groups 2 .. 6 are compressed. */
  lemma ZeroRunOfGroups1()
    ensures LongestZeroRunFrom(Groups1, 0) == Run(2, 5)
  {
    var g := Groups1;
    assert ZeroRunAt(g, 7) == 0;
    assert ZeroRunAt(g, 6) == 1;
    assert ZeroRunAt(g, 5) == 2;
    assert ZeroRunAt(g, 4) == 3;
    assert ZeroRunAt(g, 3) == 4;
    assert ZeroRunAt(g, 2) == 5;
    assert ZeroRunAt(g, 1) == 0;
    assert ZeroRunAt(g, 0) == 0;
    assert LongestZeroRunFrom(g, 7) == Run(7, 0);
    assert LongestZeroRunFrom(g, 6) == Run(6, 1);
    assert LongestZeroRunFrom(g, 5) == Run(5, 2);
    assert LongestZeroRunFrom(g, 4) == Run(4, 3);
    assert LongestZeroRunFrom(g, 3) == Run(3, 4);
    assert LongestZeroRunFrom(g, 2) == Run(2, 5);
    assert LongestZeroRunFrom(g, 1) == Run(2, 5);
  }

  lemma RenderV6Groups1()
    ensures RenderV6Groups(Groups1) == "1:23::ef"
  {
    var g := Groups1;
    ZeroRunOfGroups1();
    assert g[..2] == [1, 0x23];
    assert g[7..] == [0xef];
    assert NatToHex(1) == "1";
    assert NatToHex(0x23) == "23";
    assert NatToHex(0xef) == "ef";
    assert HexParts([1, 0x23]) == ["1", "23"];
    assert HexParts([0xef]) == ["ef"];
    assert Join(["1", "23"], ':') == "1:23";
  }

  lemma RenderGroups1()
    ensures RenderV6(GroupsToBytes(Groups1)) == "1:23::ef"
  {
    RenderOfGroups(Groups1);
    RenderV6Groups1();
  }

  /** Ipv6InstanceTest.SocketAddress: what the instance reports. */
  lemma Ipv6SocketAddress()
    ensures var a := Ipv6FromNative(GroupsToBytes(Groups1), 32000);
      && a.AsString() == "[1:23::ef]:32000"
      && a.ip.AddressAsString() == "1:23::ef"
      && a.ip.port == 32000
      && a.ip.version == V6
  {
    RenderGroups1();
    PortTexts();
    V6Reports(GroupsToBytes(Groups1), 32000, "1:23::ef", "32000");
    SocketEndpointText();
  }

  lemma SocketEndpointText()
    ensures "[" + "1:23::ef" + "]:" + "32000" == "[1:23::ef]:32000"
  {
  }

  /** Ipv6InstanceTest.SocketAddress: 1:23::ef is not the any-address. */
  lemma Ipv6SocketAddressNotAny()
    ensures !Ipv6FromNative(GroupsToBytes(Groups1), 32000).ip.IsAnyAddress()
  {
    RenderGroups1();
    IsAnyAddressV6Text(Ipv6FromNative(GroupsToBytes(Groups1), 32000).ip);
  }

  /** Ipv6InstanceTest.SocketAddress: the probe of "1:0023::0Ef" compares equal. */
  lemma Ipv6SocketAddressProbe()
    ensures AddressesEqual(ParseInternetAddress("1:0023::0Ef"), Ipv6FromNative(GroupsToBytes(Groups1), 32000))
  {
    ParseV6ExampleRespelled();
    ProbeEqualIff("1:0023::0Ef", Ipv6FromNative(GroupsToBytes(Groups1), 32000));
  }

  /**
   * Ipv6InstanceTest.SocketAddress: "01:023::00Ef", the text the instance
   * was built from, and "1:0023::0Ef", the probe, match the same instances.
   */
  lemma Ipv6SocketAddressSpellings(b: Instance)
    ensures AddressesEqual(ParseInternetAddress("01:023::00Ef"), b) <==>
      AddressesEqual(ParseInternetAddress("1:0023::0Ef"), b)
  {
    ParseV6Example();
    ParseV6ExampleRespelled();
    SpellingsAreInterchangeable(V6, "01:023::00Ef", "1:0023::0Ef", GroupsToBytes(Groups1), b);
  }

  /** The address of Ipv6InstanceTest.AddressOnly: 2001:db8:85a3::8a2e:370:7334. */
  const Groups2: seq<Group> := [0x2001, 0xdb8, 0x85a3, 0, 0, 0x8a2e, 0x370, 0x7334]

  /** The eight pieces of the uncompressed text and the groups they denote. */
  const Pieces2: seq<string> := ["2001", "0db8", "85a3", "0000", "0000", "8a2e", "0370", "7334"]

  lemma HexValues2()
    ensures IsGroupText("2001") && HexValue("2001") == 0x2001
    ensures IsGroupText("0db8") && HexValue("0db8") == 0xdb8
    ensures IsGroupText("db8") && HexValue("db8") == 0xdb8
    ensures IsGroupText("85a3") && HexValue("85a3") == 0x85a3
    ensures IsGroupText("0000") && HexValue("0000") == 0
    ensures IsGroupText("8a2e") && HexValue("8a2e") == 0x8a2e
    ensures IsGroupText("0370") && HexValue("0370") == 0x370
    ensures IsGroupText("7334") && HexValue("7334") == 0x7334
  {
    HexValuesLeft2();
    HexValuesRight2();
  }

  lemma HexValuesLeft2()
    ensures IsGroupText("2001") && HexValue("2001") == 0x2001
    ensures IsGroupText("0db8") && HexValue("0db8") == 0xdb8
    ensures IsGroupText("db8") && HexValue("db8") == 0xdb8
    ensures IsGroupText("85a3") && HexValue("85a3") == 0x85a3
  {
    HexValueDigits("2001");
    HexValueDigits("0db8");
    HexValueDigits("db8");
    HexValueDigits("85a3");
  }

  lemma HexValuesRight2()
    ensures IsGroupText("0000") && HexValue("0000") == 0
    ensures IsGroupText("8a2e") && HexValue("8a2e") == 0x8a2e
    ensures IsGroupText("0370") && HexValue("0370") == 0x370
    ensures IsGroupText("7334") && HexValue("7334") == 0x7334
  {
    HexValueDigits("0000");
    HexValueDigits("8a2e");
    HexValueDigits("0370");
    HexValueDigits("7334");
  }

  lemma GroupValues2()
    ensures AllGroupTexts(Pieces2) && GroupValues(Pieces2) == Groups2
  {
    HexValues2();
  }

  lemma JoinPieces2()
    ensures Join(Pieces2, ':') == "2001:0db8:85a3:0000:0000:8a2e:0370:7334"
  {
    assert Pieces2 == Pieces2[..4] + Pieces2[4..];
    JoinAppend(Pieces2[..4], Pieces2[4..], ':');
    JoinHalvesOfPieces2();
  }

  lemma JoinHalvesOfPieces2()
    ensures Join(Pieces2[..4], ':') + ":" + Join(Pieces2[4..], ':') == "2001:0db8:85a3:0000:0000:8a2e:0370:7334"
  {
    JoinLeftPieces2();
    JoinRightPieces2();
    assert "2001:0db8:85a3:0000" + ":" + "0000:8a2e:0370:7334" == "2001:0db8:85a3:0000:0000:8a2e:0370:7334";
  }

  lemma JoinLeftPieces2()
    ensures Join(Pieces2[..4], ':') == "2001:0db8:85a3:0000"
  {
    assert Pieces2[..4] == ["2001", "0db8", "85a3", "0000"];
    JoinFour("2001", "0db8", "85a3", "0000");
  }

  lemma JoinRightPieces2()
    ensures Join(Pieces2[4..], ':') == "0000:8a2e:0370:7334"
  {
    assert Pieces2[4..] == ["0000", "8a2e", "0370", "7334"];
    JoinFour("0000", "8a2e", "0370", "7334");
  }

  lemma JoinFour(a: string, b: string, c: string, d: string)
    ensures Join([a, b, c, d], ':') == a + ":" + b + ":" + c + ":" + d
  {
    assert [a, b, c, d][1..] == [b, c, d];
    JoinThree(b, c, d);
  }

  /** Joining two non-empty lists puts one separator between their joins. */
  lemma {:induction false} JoinAppend(a: seq<string>, b: seq<string>, sep: char)
    requires |a| >= 1 && |b| >= 1
    ensures Join(a + b, sep) == Join(a, sep) + [sep] + Join(b, sep)
  {
    if |a| > 1 {
      assert (a + b)[1..] == a[1..] + b;
      JoinAppend(a[1..], b, sep);
    } else {
      assert (a + b)[1..] == b;
    }
  }

  lemma ParseFullExample()
    ensures ParseV6("2001:0db8:85a3:0000:0000:8a2e:0370:7334") == Some(GroupsToBytes(Groups2))
  {
    GroupValues2();
    JoinPieces2();
    ParseFullText("2001:0db8:85a3:0000:0000:8a2e:0370:7334", Pieces2, Groups2);
  }

  /** The pieces either side of the "::" of the compressed text. */
  const Left2: seq<string> := ["2001", "db8", "85a3"]
  const Right2: seq<string> := ["8a2e", "0370", "7334"]

  lemma GroupValuesCompressed2()
    ensures AllGroupTexts(Left2) && AllGroupTexts(Right2)
    ensures GroupValues(Left2) + Zeros(2) + GroupValues(Right2) == Groups2
  {
    HexValues2();
    assert GroupValues(Left2) == [0x2001, 0xdb8, 0x85a3];
    assert GroupValues(Right2) == [0x8a2e, 0x370, 0x7334];
    assert Zeros(2) == [0, 0];
  }

  lemma JoinCompressed2()
    ensures Join(Left2, ':') + "::" + Join(Right2, ':') == "2001:db8:85a3::8a2e:0370:7334"
  {
  }

  lemma ParseFullExampleCompressed()
    ensures ParseV6("2001:db8:85a3::8a2e:0370:7334") == Some(GroupsToBytes(Groups2))
  {
    GroupValuesCompressed2();
    JoinCompressed2();
    ParseCompressedText("2001:db8:85a3::8a2e:0370:7334", Left2, Right2, Groups2);
  }

  /** The two zero groups 3 and 4 are compressed. */
  lemma ZeroRunOfGroups2()
    ensures LongestZeroRunFrom(Groups2, 0) == Run(3, 2)
  {
    var g := Groups2;
    assert ZeroRunAt(g, 7) == 0;
    assert ZeroRunAt(g, 6) == 0;
    assert ZeroRunAt(g, 5) == 0;
    assert ZeroRunAt(g, 4) == 1;
    assert ZeroRunAt(g, 3) == 2;
    assert ZeroRunAt(g, 2) == 0;
    assert ZeroRunAt(g, 1) == 0;
    assert ZeroRunAt(g, 0) == 0;
    assert LongestZeroRunFrom(g, 7) == Run(7, 0);
    assert LongestZeroRunFrom(g, 6) == Run(6, 0);
    assert LongestZeroRunFrom(g, 5) == Run(5, 0);
    assert LongestZeroRunFrom(g, 4) == Run(4, 1);
    assert LongestZeroRunFrom(g, 3) == Run(3, 2);
    assert LongestZeroRunFrom(g, 2) == Run(3, 2);
    assert LongestZeroRunFrom(g, 1) == Run(3, 2);
  }

  lemma HexTextsLeft2()
    ensures NatToHex(0x2001) == "2001" && NatToHex(0xdb8) == "db8" && NatToHex(0x85a3) == "85a3"
  {
  }

  lemma HexTextsRight2()
    ensures NatToHex(0x8a2e) == "8a2e" && NatToHex(0x370) == "370" && NatToHex(0x7334) == "7334"
  {
    HexText8a2e();
    HexText7334();
  }

  lemma HexText8a2e()
    ensures NatToHex(0x8a2e) == "8a2e"
  {
  }

  lemma HexText7334()
    ensures NatToHex(0x7334) == "7334"
  {
  }

  lemma JoinThree(a: string, b: string, c: string)
    ensures Join([a, b, c], ':') == a + ":" + b + ":" + c
  {
    assert [a, b, c][1..] == [b, c];
    assert [b, c][1..] == [c];
    assert Join([b, c], ':') == b + [':'] + c;
    assert Join([a, b, c], ':') == a + [':'] + (b + [':'] + c);
  }

  lemma HexPartsThree(g: seq<Group>)
    requires |g| == 3
    ensures Join(HexParts(g), ':') == NatToHex(g[0]) + ":" + NatToHex(g[1]) + ":" + NatToHex(g[2])
  {
    assert HexParts(g) == [NatToHex(g[0]), NatToHex(g[1]), NatToHex(g[2])];
    JoinThree(NatToHex(g[0]), NatToHex(g[1]), NatToHex(g[2]));
  }

  lemma RenderLeft2()
    ensures Join(HexParts(Groups2[..3]), ':') == "2001:db8:85a3"
  {
    HexTextsLeft2();
    assert Groups2[..3] == [0x2001, 0xdb8, 0x85a3];
    HexPartsThree(Groups2[..3]);
  }

  lemma RenderRight2()
    ensures Join(HexParts(Groups2[5..]), ':') == "8a2e:370:7334"
  {
    HexTextsRight2();
    assert Groups2[5..] == [0x8a2e, 0x370, 0x7334];
    HexPartsThree(Groups2[5..]);
  }

  lemma RenderV6Groups2()
    ensures RenderV6Groups(Groups2) == "2001:db8:85a3::8a2e:370:7334"
  {
    ZeroRunOfGroups2();
    RenderLeft2();
    RenderRight2();
    RenderCompressedAs(Groups2, 3, 2, "2001:db8:85a3", "8a2e:370:7334");
    CompressedText2();
  }

  lemma CompressedText2()
    ensures "2001:db8:85a3" + "::" + "8a2e:370:7334" == "2001:db8:85a3::8a2e:370:7334"
  {
  }

  /** Groups whose longest zero run has the given place render as the texts around it. */
  lemma RenderCompressedAs(g: seq<Group>, start: nat, len: nat, l: string, r: string)
    requires |g| == 8 && LongestZeroRunFrom(g, 0) == Run(start, len) && len >= 2
    requires start + len <= 8
    requires Join(HexParts(g[..start]), ':') == l && Join(HexParts(g[start + len..]), ':') == r
    ensures RenderV6Groups(g) == l + "::" + r
  {
  }

  lemma RenderGroups2()
    ensures RenderV6(GroupsToBytes(Groups2)) == "2001:db8:85a3::8a2e:370:7334"
  {
    RenderOfGroups(Groups2);
    RenderV6Groups2();
  }

  /** Ipv6InstanceTest.AddressOnly: the text constructor builds the address on port 0. */
  lemma Ipv6AddressOnly()
    ensures Ipv6FromText("2001:0db8:85a3:0000:0000:8a2e:0370:7334") == Success(Ipv6FromNative(GroupsToBytes(Groups2), 0))
  {
    ParseFullExample();
  }

  /** Ipv6InstanceTest.AddressOnly: what the instance reports. */
  lemma Ipv6AddressOnlyReports()
    ensures var a := Ipv6FromNative(GroupsToBytes(Groups2), 0);
      && a.AsString() == "[2001:db8:85a3::8a2e:370:7334]:0"
      && a.ip.AddressAsString() == "2001:db8:85a3::8a2e:370:7334"
  {
    RenderGroups2();
    AddressOnlyText();
  }

  lemma AddressOnlyText()
    ensures "[" + "2001:db8:85a3::8a2e:370:7334" + "]:" + NatToDecimal(0) == "[2001:db8:85a3::8a2e:370:7334]:0"
  {
  }

  /** Ipv6InstanceTest.AddressOnly: the probe of "2001:db8:85a3::8a2e:0370:7334" compares equal. */
  lemma Ipv6AddressOnlyProbe()
    ensures AddressesEqual(ParseInternetAddress("2001:db8:85a3::8a2e:0370:7334"), Ipv6FromNative(GroupsToBytes(Groups2), 0))
  {
    ParseFullExampleCompressed();
    ProbeEqualIff("2001:db8:85a3::8a2e:0370:7334", Ipv6FromNative(GroupsToBytes(Groups2), 0));
  }

  /** The address of Ipv6InstanceTest.AddressAndPort: ::1. */
  const Groups3: seq<Group> := [0, 0, 0, 0, 0, 0, 0, 1]

  lemma ParseLoopbackV6()
    ensures ParseV6("::0001") == Some(GroupsToBytes(Groups3))
  {
    LoopbackText3();
    LoopbackValues3();
    ParseCompressedText("::0001", [], ["0001"], Groups3);
  }

  lemma LoopbackText3()
    ensures "::0001" == Join([], ':') + "::" + Join(["0001"], ':')
  {
  }

  lemma LoopbackValues3()
    ensures AllGroupTexts([]) && AllGroupTexts(["0001"])
    ensures GroupValues([]) + Zeros(7) + GroupValues(["0001"]) == Groups3
  {
    HexValueDigits("0001");
    assert Zeros(7) == [0, 0, 0, 0, 0, 0, 0];
  }

  /** The eight pieces of the uncompressed loopback text. */
  const Pieces3: seq<string> := ["0", "0", "0", "0", "0", "0", "0", "1"]

  lemma ParseLoopbackV6Full()
    ensures ParseV6("0:0:0:0:0:0:0:1") == Some(GroupsToBytes(Groups3))
  {
    LoopbackFullText3();
    LoopbackFullValues3();
    ParseFullText("0:0:0:0:0:0:0:1", Pieces3, Groups3);
  }

  lemma LoopbackFullText3()
    ensures "0:0:0:0:0:0:0:1" == Join(Pieces3, ':')
  {
  }

  lemma LoopbackFullValues3()
    ensures AllGroupTexts(Pieces3) && GroupValues(Pieces3) == Groups3
  {
    HexValueDigits("0");
    HexValueDigits("1");
  }

  /** The seven leading zero groups are compressed. */
  lemma ZeroRunOfGroups3()
    ensures LongestZeroRunFrom(Groups3, 0) == Run(0, 7)
  {
    var g := Groups3;
    assert ZeroRunAt(g, 7) == 0;
    assert ZeroRunAt(g, 6) == 1;
    assert ZeroRunAt(g, 5) == 2;
    assert ZeroRunAt(g, 4) == 3;
    assert ZeroRunAt(g, 3) == 4;
    assert ZeroRunAt(g, 2) == 5;
    assert ZeroRunAt(g, 1) == 6;
    assert ZeroRunAt(g, 0) == 7;
    assert LongestZeroRunFrom(g, 7) == Run(7, 0);
    assert LongestZeroRunFrom(g, 6) == Run(6, 1);
    assert LongestZeroRunFrom(g, 5) == Run(5, 2);
    assert LongestZeroRunFrom(g, 4) == Run(4, 3);
    assert LongestZeroRunFrom(g, 3) == Run(3, 4);
    assert LongestZeroRunFrom(g, 2) == Run(2, 5);
    assert LongestZeroRunFrom(g, 1) == Run(1, 6);
  }

  lemma RenderV6Groups3()
    ensures RenderV6Groups(Groups3) == "::1"
  {
    var g := Groups3;
    ZeroRunOfGroups3();
    assert g[..0] == [];
    assert g[7..] == [1];
    assert NatToHex(1) == "1";
    assert HexParts([]) == [];
    assert HexParts([1]) == ["1"];
  }

  lemma RenderGroups3()
    ensures RenderV6(GroupsToBytes(Groups3)) == "::1"
  {
    RenderOfGroups(Groups3);
    RenderV6Groups3();
  }

  /** Ipv6InstanceTest.AddressAndPort: the text constructor builds ::1 on port 80. */
  lemma Ipv6AddressAndPort()
    ensures Ipv6FromText("::0001", 80) == Success(Ipv6FromNative(GroupsToBytes(Groups3), 80))
  {
    ParseLoopbackV6();
  }

  /** Ipv6InstanceTest.AddressAndPort: what the instance reports; it is not the any-address. */
  lemma Ipv6AddressAndPortReports()
    ensures var a := Ipv6FromNative(GroupsToBytes(Groups3), 80);
      && a.AsString() == "[::1]:80"
      && a.ip.AddressAsString() == "::1"
      && !a.ip.IsAnyAddress()
  {
    RenderGroups3();
    PortTexts();
    V6Reports(GroupsToBytes(Groups3), 80, "::1", "80");
    LoopbackEndpointText();
  }

  lemma LoopbackEndpointText()
    ensures "[" + "::1" + "]:" + "80" == "[::1]:80"
  {
  }

  /** Ipv6InstanceTest.AddressAndPort: the probe of "0:0:0:0:0:0:0:1" compares equal. */
  lemma Ipv6AddressAndPortProbe()
    ensures AddressesEqual(ParseInternetAddress("0:0:0:0:0:0:0:1"), Ipv6FromNative(GroupsToBytes(Groups3), 80))
  {
    ParseLoopbackV6Full();
    ProbeEqualIff("0:0:0:0:0:0:0:1", Ipv6FromNative(GroupsToBytes(Groups3), 80));
  }

  /** Ipv6InstanceTest.PortOnly: what the instance reports. */
  lemma Ipv6PortOnly()
    ensures var a := Ipv6AnyAddress(443);
      && a.AsString() == "[::]:443"
      && a.ip.AddressAsString() == "::"
      && a.ip.IsAnyAddress()
      && a.ip.port == 443
  {
    Ipv6AnyAddressAsString(443);
    IsAnyAddressV6Text(Ipv6AnyAddress(443).ip);
    AnyAddressText();
  }

  lemma AnyAddressText()
    ensures "[::]:" + NatToDecimal(443) == "[::]:443"
  {
  }

  lemma ParseAnyV6()
    ensures ParseV6("::0000") == Some(AnyBytes(V6))
  {
    AnyText();
    AnyValues();
    ParseCompressedText("::0000", [], ["0000"], Zeros(8));
    AnyGroupsBytes();
  }

  lemma AnyText()
    ensures "::0000" == Join([], ':') + "::" + Join(["0000"], ':')
  {
  }

  lemma AnyValues()
    ensures AllGroupTexts([]) && AllGroupTexts(["0000"])
    ensures GroupValues([]) + Zeros(7) + GroupValues(["0000"]) == Zeros(8)
  {
    HexValueDigits("0000");
    assert GroupValues(["0000"]) == [0];
  }

  /** Eight zero groups are the sixteen zero bytes of the IPv6 any-address. */
  lemma AnyGroupsBytes()
    ensures GroupsToBytes(Zeros(8)) == AnyBytes(V6)
  {
  }

  /** Ipv6InstanceTest.PortOnly: the probe of "::0000" compares equal. */
  lemma Ipv6PortOnlyProbe()
    ensures AddressesEqual(ParseInternetAddress("::0000"), Ipv6AnyAddress(443))
  {
    ParseAnyV6();
    ProbeEqualIff("::0000", Ipv6AnyAddress(443));
  }

  /** Ipv6InstanceTest.BadAddress: the strict constructor rejects "foo" and "bar". */
  lemma Ipv6BadAddress()
    ensures Ipv6FromText("foo") == Failure(InvalidAddress("foo"))
    ensures Ipv6FromText("bar", 1) == Failure(InvalidAddress("bar"))
  {
    WordsAreNotV6();
  }

  lemma WordsAreNotV6()
    ensures ParseV6("foo").None? && ParseV6("bar").None?
  {
    ParsedV6HasColon("foo");
    ParsedV6HasColon("bar");
  }

  lemma FourGroupsV6()
    ensures ParseV6("0:0:0:0").None?
  {
    var ps := ["0", "0", "0", "0"];
    HexValueDigits("0");
    assert Join(ps, ':') == "0:0:0:0";
    ParseV6Full(ps);
  }

  /** Ipv6InstanceTest.BadAddress: the probe rejects four groups. */
  lemma ProbeRejectsFourGroups()
    ensures ParseInternetAddress("0:0:0:0").None?
  {
    FourGroupsV6();
    ParsedV4HasNoColon("0:0:0:0");
  }

  lemma FiveDigitGroupV6()
    ensures ParseV6("fffff::").None?
  {
    var s := "fffff::";
    FirstDoubleColon(s, 5);
    assert s[..5] == "fffff";
    assert Split("fffff", ':') == ["fffff"];
  }

  /** Ipv6InstanceTest.BadAddress: the probe rejects a five-digit group. */
  lemma ProbeRejectsFiveDigitGroup()
    ensures ParseInternetAddress("fffff::").None?
  {
    FiveDigitGroupV6();
    ParsedV4HasNoColon("fffff::");
  }

  /** Ipv6InstanceTest.BadAddress: the probe rejects a path. */
  lemma ProbeRejectsPath()
    ensures ParseInternetAddress("/foo").None?
  {
    ParsedV4Chars("/foo");
    assert "/foo"[0] == '/';
    ParsedV6HasColon("/foo");
  }

  // ---------------------------------------------------------------------
  // Pipe
  // ---------------------------------------------------------------------

  /** PipeInstanceTest.Basic */
  lemma PipeBasic()
    ensures var a := PipeFromPath("/foo");
      a.AsString() == "/foo" && a.Type() == PipeType && a.IpView() == None
  {
  }
}
