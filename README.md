# Network address values of Envoy, modelled in Dafny

This project models the value layer of Envoy's `Network::Address` as its
unit tests exercise it (`test/common/network/address_impl_test.cc`):

- an address `Instance` is either an IP address (version, address bytes,
  port) or a pipe (a path);
- IPv4 text is parsed strictly as a dotted quad, the way `inet_pton(AF_INET)`
  does it: exactly four decimal octets, each at most 255, a leading zero only
  in the octet `0`;
- IPv6 text is parsed as in section 2.2 of RFC 4291, the way
  `inet_pton(AF_INET6)` does it: one to four hex digits per group, in either
  case; the first `::` stands for one or more zero groups, a second `::` is
  rejected; an embedded dotted quad may end the text and stands for the last
  two groups;
- IPv6 addresses are rendered in the canonical text of section 4 of RFC 5952:
  lower-case hex without leading zeros, and the longest run of two or more
  zero groups (the first of equally long runs) shortened to `::`;
- `asString()` is `a.b.c.d:port` for IPv4, `[text]:port` for IPv6 and the
  path for a pipe;
- the strict constructors `Ipv4Instance(text, port)` and
  `Ipv6Instance(text, port)` fail with `InvalidAddress(text)` where the C++
  throws `EnvoyException`; the native constructors take bytes and port as they
  are; the port-only constructors build the any-address (`0.0.0.0`, `::`);
- `parseInternetAddress(text)` returns the address as IPv4 if the text is a
  dotted quad, else as IPv6 if it is an IPv6 literal, on port 0, and nothing
  otherwise;
- the test helper `addressesEqual(a, b)` holds when both sides are IP
  addresses whose address texts (ports ignored) agree.

Files. Each file is one module.

- `wrappers.dfy`: `Option` and `Result`.
- `text.dfy`: decimal and hex numerals, splitting and joining on a separator.
- `ipv4.dfy`: the dotted-quad parser and renderer.
- `ipv6.dfy`: the IPv6 parser, the zero-run choice and the canonical renderer.
- `address.dfy`: the `Instance` value, its constructors and accessors, the
  probe and the comparison helper.
- `address_tests.dfy`: every assertion of the address tests stated as lemmas.

The central results:

- Parsing is the inverse of rendering, for both versions:
  - `ParseV4Iff`;
  - `ParseRenderV6` together with `RenderV6Injective`.
- The IPv6 text chosen is the one RFC 5952 prescribes (`LongestZeroRunIsFirstLongest`).
- A text without a dot is an IPv6 literal exactly when it has one of the two forms of RFC 4291 section 2.2 (`ParseV6Full`, `ParseV6Compressed` and their converse `ParsedV6Form`); in particular a second `::` or a group of five or more digits is rejected (`SecondDoubleColonRejected`, `LongGroupRejected`).
- IPv4 and IPv6 texts never overlap (`V4AndV6TextsAreDisjoint`), so the order
  of the probe's attempts does not matter.
- `addressesEqual` compares exactly version and address bytes (`AddressesEqualIff`, `ProbeEqualIff`).

The implementation sources (`common/network/address_impl.h` and
`address_impl.cc`) are not part of this model. Their behaviour is taken from
what the tests assert and from the two RFCs above. The tests themselves call
only `inet_pton` (lines 64 and 127), to build native addresses; the
rendering is the one `inet_ntop` produces, which the implementation is
assumed to use.

## Model

| member | source | states |
|---|---|---|
| Address.AddressesEqualIff | test/common/network/address_impl_test.cc:14-20 | addressesEqual holds exactly when both sides are IP with the same version and the same address bytes; ports play no part |
| Address.ProbeEqualIff | test/common/network/address_impl_test.cc:14-20 | addressesEqual(parseInternetAddress(s), b) holds exactly when b is IP and s parses, in b's version, to b's bytes |
| Address.SpellingsAreInterchangeable | test/common/network/address_impl_test.cc:127-137 | two texts that parse, in one version, to the same bytes (such as 01:023::00Ef and 1:0023::0Ef) compare alike against every instance: equal exactly to the IP instances of that version with those bytes |
| Address.AddressesEqual | test/common/network/address_impl_test.cc:14-20 | the comparison helper; its contract is stated by AddressesEqualIff and ProbeEqualIff |
| Address.Instance.AsString | test/common/network/address_impl_test.cc:68 | asString(); see Ipv4FromNative, Ipv6FromNative, Ipv4AnyAddressAsString, Ipv6AnyAddressAsString and PipeFromPath |
| Address.Instance.Type | test/common/network/address_impl_test.cc:69 | type(); see ParseInternetAddress, the constructors and PipeFromPath |
| Address.Instance.IpView | test/common/network/address_impl_test.cc:70 | ip(), null for a pipe; see PipeFromPath and the constructors |
| Address.IpAddress.AddressAsString | test/common/network/address_impl_test.cc:70 | addressAsString(); see FromTextOfAddressAsString, RenderTextInjective, Ipv4FromText and Ipv6FromText |
| Address.IpAddress.IsAnyAddress | test/common/network/address_impl_test.cc:91 | isAnyAddress(); see IsAnyAddressIff |
| Address.Ipv4FromNative | test/common/network/address_impl_test.cc:62-72 | the instance built from a sockaddr_in is IP, version 4, with the given port, and renders as the dotted quad, a colon and the decimal port |
| Address.Ipv6FromNative | test/common/network/address_impl_test.cc:125-136 | the instance built from a sockaddr_in6 is IP, version 6, with the given port, and renders as the bracketed canonical text, a colon and the port |
| Address.Ipv4FromText | test/common/network/address_impl_test.cc:77-82 | fails with InvalidAddress(text) exactly when the text is not a dotted quad; on success the address text is the input itself and asString appends the port |
| Address.Ipv6FromText | test/common/network/address_impl_test.cc:141-146 | fails with InvalidAddress(text) exactly when the text is not an IPv6 literal; on success the canonical text denotes the same address as the input |
| Address.FromTextOfAddressAsString | test/common/network/address_impl_test.cc:77-82 | building from an instance's own address text and port gives that instance back, for both versions |
| Address.Ipv4AnyAddress | test/common/network/address_impl_test.cc:98-104 | the port-only IPv4 constructor is IP, version 4, with the port, and is the any-address |
| Address.Ipv6AnyAddress | test/common/network/address_impl_test.cc:161-167 | the port-only IPv6 constructor is IP, version 6, with the port, and is the any-address |
| Address.AnyAddressFromText | test/common/network/address_impl_test.cc:98-105 | the port-only constructors equal the text constructors applied to 0.0.0.0 and :: |
| Address.Ipv4AnyAddressAsString | test/common/network/address_impl_test.cc:99 | the IPv4 any-address on port p renders as 0.0.0.0:p |
| Address.Ipv6AnyAddressAsString | test/common/network/address_impl_test.cc:162 | the IPv6 any-address on port p renders as [::]:p |
| Address.IsAnyAddressIff | test/common/network/address_impl_test.cc:91 | isAnyAddress holds exactly when every address byte is zero, and exactly when the address text is 0.0.0.0 or :: |
| Address.PipeFromPath | test/common/network/address_impl_test.cc:186-189 | a pipe is of pipe type, has no IP view and renders as its path |
| Address.ParseInternetAddress | test/common/network/address_impl_test.cc:111-115 | absent exactly when the text is neither a dotted quad nor an IPv6 literal; when present it is IP on port 0 and holds the bytes the text parses to |
| Address.V4AndV6TextsAreDisjoint | test/common/network/address_impl_test.cc:73 | no text is both a dotted quad and an IPv6 literal |
| Address.RenderTextInjective | test/common/network/address_impl_test.cc:14-20 | two address texts agree exactly when version and bytes agree |
| Ipv4Text.ParseOctets | test/common/network/address_impl_test.cc:114 | a list of pieces parses exactly when every piece is an octet, and then piece k gives byte k |
| Ipv4Text.ParseV4 | test/common/network/address_impl_test.cc:64 | inet_pton(AF_INET); see ParseOctets, ParseV4Iff and ParsedV4HasNoColon |
| Ipv4Text.RenderV4 | test/common/network/address_impl_test.cc:70 | the dotted-quad text; see ParseV4Iff and RenderV4Injective |
| Ipv4Text.ParseV4Iff | test/common/network/address_impl_test.cc:64 | a text parses to four bytes exactly when it is the dotted-quad rendering of those bytes |
| Ipv4Text.RenderV4Injective | test/common/network/address_impl_test.cc:70 | distinct byte quadruples render as distinct texts |
| Ipv4Text.ParsedV4HasNoColon | test/common/network/address_impl_test.cc:115 | a dotted quad never contains a colon |
| Ipv6Text.GroupsBytesRoundTrip | test/common/network/address_impl_test.cc:126-127 | splitting the big-endian bytes of some groups gives those groups back |
| Ipv6Text.BytesGroupsRoundTrip | test/common/network/address_impl_test.cc:126-127 | joining byte pairs into groups and splitting them again gives the bytes back |
| Ipv6Text.FindDoubleColon | test/common/network/address_impl_test.cc:127 | the position found is the first place where two colons meet, and none means there is none |
| Ipv6Text.ParseV6Compressed | test/common/network/address_impl_test.cc:127 | a text of group texts around one :: parses to the left groups, as many zero groups as are missing, and the right groups; ParsedV6Form is the converse |
| Ipv6Text.ParseV6 | test/common/network/address_impl_test.cc:127 | inet_pton(AF_INET6); see ParseV6Compressed, ParseV6Full, ParsedV6Form, SecondDoubleColonRejected and LongGroupRejected |
| Ipv6Text.RenderV6 | test/common/network/address_impl_test.cc:131-133 | the canonical text; see ParseRenderV6, RenderV6Injective and RenderV6Shape |
| Ipv6Text.ParsedV6Form | test/common/network/address_impl_test.cc:174-175 | the converse of ParseV6Full and ParseV6Compressed: a text without a dot that parses is eight group texts joined by colons, or at most seven group texts around its first ::, and denotes what those lemmas say |
| Ipv6Text.PiecesOfParsedV6 | test/common/network/address_impl_test.cc:175 | every piece between colons of a text that parses is at most four hex digits, or contains a dot and is the last piece |
| Ipv6Text.SecondDoubleColonRejected | test/common/network/address_impl_test.cc:174-175 | a text with two separate :: is rejected |
| Ipv6Text.LongGroupRejected | test/common/network/address_impl_test.cc:175 | a text with a dot-free piece of five or more characters between colons is rejected |
| Ipv6Text.ParseV6Full | test/common/network/address_impl_test.cc:141 | group texts joined by single colons parse exactly when there are eight of them, to their values; ParsedV6Form is the converse |
| Ipv6Text.ZeroRunAt | test/common/network/address_impl_test.cc:131 | the count returned is a run of zero groups that cannot be extended |
| Ipv6Text.LongestZeroRunIsFirstLongest | test/common/network/address_impl_test.cc:142-144 | the run chosen for :: is a zero run, no zero run is longer, and no run of its length starts earlier |
| Ipv6Text.ParseRenderV6 | test/common/network/address_impl_test.cc:131-137 | the canonical text of any sixteen bytes parses back to those bytes |
| Ipv6Text.RenderV6Injective | test/common/network/address_impl_test.cc:133 | distinct addresses render as distinct canonical texts |
| Ipv6Text.RenderV6Shape | test/common/network/address_impl_test.cc:133 | the canonical text holds only colons and lower-case hex digits, always has a colon, and has :: exactly when two neighbouring groups are zero |
| Ipv6Text.ParsedV6HasColon | test/common/network/address_impl_test.cc:176 | every IPv6 literal contains a colon |
| Text.NatToHexIsNumeral | test/common/network/address_impl_test.cc:131 | a group's hex text is lower-case, has one to four digits, no leading zero, and denotes the group |
| Text.JoinSplit | test/common/network/address_impl_test.cc:112-113 | joining the pieces of a split restores the text |
| Text.SplitJoin | test/common/network/address_impl_test.cc:112-113 | splitting a join of separator-free pieces gives the pieces back |
| Text.DecimalCanonical | test/common/network/address_impl_test.cc:64 | a canonical decimal numeral is the decimal text of its value |
| AddressTests.Ipv4SocketAddress | test/common/network/address_impl_test.cc:61-72 | the instance built from 1.2.3.4 and 6502 renders as 1.2.3.4:6502 and reports IP, its address text, port and version |
| AddressTests.Ipv4SocketAddressProbe | test/common/network/address_impl_test.cc:73 | the probe of 1.2.3.4 compares equal to it |
| AddressTests.Ipv4AddressOnly | test/common/network/address_impl_test.cc:77 | the text constructor builds 3.4.5.6 on port 0 |
| AddressTests.Ipv4AddressOnlyReports | test/common/network/address_impl_test.cc:78-82 | it renders as 3.4.5.6:0 with address text 3.4.5.6 |
| AddressTests.Ipv4AddressOnlyProbe | test/common/network/address_impl_test.cc:83 | the probe of 3.4.5.6 compares equal to it |
| AddressTests.Ipv4AddressAndPort | test/common/network/address_impl_test.cc:87 | the text constructor builds 127.0.0.1 on port 80 |
| AddressTests.Ipv4AddressAndPortReports | test/common/network/address_impl_test.cc:88-93 | it renders as 127.0.0.1:80 and is not the any-address |
| AddressTests.Ipv4AddressAndPortProbe | test/common/network/address_impl_test.cc:94 | the probe of 127.0.0.1 compares equal to it |
| AddressTests.Ipv4PortOnly | test/common/network/address_impl_test.cc:98-104 | the port-only constructor renders as 0.0.0.0:443, is the any-address and keeps port 443 |
| AddressTests.Ipv4PortOnlyProbe | test/common/network/address_impl_test.cc:105 | the probe of 0.0.0.0 compares equal to it |
| AddressTests.Ipv4BadAddress | test/common/network/address_impl_test.cc:109-110 | the strict constructor fails on foo and on bar |
| AddressTests.ProbeRejectsEmpty | test/common/network/address_impl_test.cc:111 | the probe of the empty text is absent |
| AddressTests.ProbeRejectsThreeOctets | test/common/network/address_impl_test.cc:112 | the probe of 1.2.3 is absent |
| AddressTests.ProbeRejectsFiveOctets | test/common/network/address_impl_test.cc:113 | the probe of 1.2.3.4.5 is absent |
| AddressTests.ProbeRejectsOctet256 | test/common/network/address_impl_test.cc:114 | the probe of 1.2.3.256 is absent |
| AddressTests.ProbeRejectsFoo | test/common/network/address_impl_test.cc:115 | the probe of foo is absent |
| AddressTests.ParseV6Example | test/common/network/address_impl_test.cc:127 | inet_pton reads 01:023::00Ef as the groups 1, 23, five zeros, ef |
| AddressTests.Ipv6SocketAddress | test/common/network/address_impl_test.cc:130-136 | that instance on port 32000 renders as [1:23::ef]:32000 with address text 1:23::ef |
| AddressTests.Ipv6SocketAddressNotAny | test/common/network/address_impl_test.cc:134 | it is not the any-address |
| AddressTests.Ipv6SocketAddressProbe | test/common/network/address_impl_test.cc:137 | the probe of 1:0023::0Ef compares equal to it |
| AddressTests.Ipv6AddressOnly | test/common/network/address_impl_test.cc:141 | the text constructor reads the full eight-group text on port 0 |
| AddressTests.Ipv6AddressOnlyReports | test/common/network/address_impl_test.cc:142-144 | it renders as [2001:db8:85a3::8a2e:370:7334]:0 with the compressed address text |
| AddressTests.Ipv6AddressOnlyProbe | test/common/network/address_impl_test.cc:147 | the probe of 2001:db8:85a3::8a2e:0370:7334 compares equal to it |
| AddressTests.Ipv6AddressAndPort | test/common/network/address_impl_test.cc:151 | the text constructor reads ::0001 as the loopback address on port 80 |
| AddressTests.Ipv6AddressAndPortReports | test/common/network/address_impl_test.cc:152-154 | it renders as [::1]:80 with address text ::1, and is not the any-address |
| AddressTests.Ipv6AddressAndPortProbe | test/common/network/address_impl_test.cc:157 | the probe of 0:0:0:0:0:0:0:1 compares equal to it |
| AddressTests.Ipv6PortOnly | test/common/network/address_impl_test.cc:161-166 | the port-only constructor renders as [::]:443 with address text ::, is the any-address and keeps port 443 |
| AddressTests.Ipv6PortOnlyProbe | test/common/network/address_impl_test.cc:168 | the probe of ::0000 compares equal to it |
| AddressTests.Ipv6BadAddress | test/common/network/address_impl_test.cc:172-173 | the strict constructor fails on foo and on bar |
| AddressTests.ProbeRejectsFourGroups | test/common/network/address_impl_test.cc:174 | the probe of 0:0:0:0 is absent: four groups and no :: |
| AddressTests.ProbeRejectsFiveDigitGroup | test/common/network/address_impl_test.cc:175 | the probe of fffff:: is absent: a group has five digits |
| AddressTests.ProbeRejectsPath | test/common/network/address_impl_test.cc:176 | the probe of /foo is absent |
| AddressTests.PipeBasic | test/common/network/address_impl_test.cc:186-189 | the pipe /foo renders as /foo, is of pipe type and has no IP view |

## Left out

- Sockets (`socket`, `bind`, `connect`, `listen`), `fcntl` and the free-port lookup of the bind-and-connect tests (lines 22-58, 118-122, 179-183): these are system calls, outside a value model.
- `configs/configgen.py` is not part of this model: it generates JSON configuration and does not touch addresses.
- The `sockaddr_in`/`sockaddr_in6` layout and `htons`: the native constructors take the address bytes and the port directly.
- Exceptions: the throwing constructors and the null result of the probe become `Result` and `Option` values.
- Hashing, the `==` operator of `Instance` and the socket type enumeration: the tests do not exercise them.
- IPv6 zone identifiers (`%eth0`) and scope ids: the tests do not exercise them, and `inet_pton` rejects them.
- Address.Ipv6FromNative: the canonical text is always the hex form. `inet_ntop` writes two kinds of address with a dotted tail instead, and neither is modelled: IPv4-mapped addresses as `::ffff:a.b.c.d`, and IPv4-compatible addresses (first six groups zero, the seventh nonzero) as `::a.b.c.d`. For example the groups 0, 0, 0, 0, 0, 0, 0x102, 0x304 render here as `::102:304`, where `inet_ntop` writes `::1.2.3.4`. The parser does accept a dotted tail.
- Address.Ipv4FromText: the port is a 16-bit value (`Port`); the C++ signature takes a `uint32_t` and narrows it, and that narrowing is not modelled.
- Address.Ipv6FromText: it states that the canonical text denotes the same address as the input. The two texts are equal only when the input is already canonical.
