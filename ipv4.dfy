/**
 * The IPv4 dotted-quad text form: parsing "a.b.c.d" into four bytes and
 * rendering four bytes back into that form.
 *
 * The parser accepts what inet_pton(AF_INET, ...) accepts: exactly four
 * decimal octets separated by '.', each at most 255, a leading zero only in
 * the octet "0" itself, and no other character (no sign, no space, no
 * empty octet).
 */
module Ipv4Text {
  import opened Wrappers
  import opened Text

  type Byte = x: int | 0 <= x < 256

  /** One octet of a dotted quad. */
  function ParseOctet(s: string): Option<Byte>
  {
    if AllDecimal(s) && NoLeadingZero(s) && DecimalValue(s) <= 255 then Some(DecimalValue(s))
    else None
  }

  /** Every piece is an octet; the octets in order. */
  function ParseOctets(parts: seq<string>): (r: Option<seq<Byte>>)
    ensures r.Some? ==> |r.value| == |parts|
    ensures r.Some? <==> forall k :: 0 <= k < |parts| ==> ParseOctet(parts[k]).Some?
    ensures r.Some? ==> forall k :: 0 <= k < |parts| ==> ParseOctet(parts[k]) == Some(r.value[k])
  {
    if |parts| == 0 then Some([])
    else
      match ParseOctet(parts[0])
      case None => None
      case Some(b) =>
        match ParseOctets(parts[1..])
        case None => None
        case Some(rest) => Some([b] + rest)
  }

  /** The four bytes a dotted quad denotes, or None if the text is not one. */
  function ParseV4(s: string): (r: Option<seq<Byte>>)
    ensures r.Some? ==> |r.value| == 4
  {
    var parts := Split(s, '.');
    if |parts| != 4 then None else ParseOctets(parts)
  }

  /** The decimal numeral of each byte. */
  function DecimalParts(b: seq<Byte>): (r: seq<string>)
    ensures |r| == |b|
  {
    seq(|b|, k requires 0 <= k < |b| => NatToDecimal(b[k]))
  }

  /** The dotted-quad text of four bytes, in the form inet_ntop produces. */
  function RenderV4(b: seq<Byte>): string
    requires |b| == 4
  {
    Join(DecimalParts(b), '.')
  }

  lemma {:induction false} ParseOctetsOfDecimalParts(b: seq<Byte>)
    ensures ParseOctets(DecimalParts(b)) == Some(b)
  {
    if |b| > 0 {
      assert DecimalParts(b)[1..] == DecimalParts(b[1..]);
      ParseOctetsOfDecimalParts(b[1..]);
      assert [b[0]] + b[1..] == b;
    }
  }

  lemma {:induction false} DecimalPartsOfParseOctets(parts: seq<string>, b: seq<Byte>)
    requires ParseOctets(parts) == Some(b)
    ensures DecimalParts(b) == parts
  {
    if |parts| > 0 {
      ParseOctetsCons(parts, b);
      OctetCanonical(parts[0], b[0]);
      DecimalPartsOfParseOctets(parts[1..], b[1..]);
      DecimalPartsCons(b);
      assert parts == [parts[0]] + parts[1..];
    }
  }

  /** A list of octets parses as its first octet followed by the rest. */
  lemma ParseOctetsCons(parts: seq<string>, b: seq<Byte>)
    requires |parts| > 0 && ParseOctets(parts) == Some(b)
    ensures ParseOctet(parts[0]) == Some(b[0]) && ParseOctets(parts[1..]) == Some(b[1..])
  {
    var r := ParseOctets(parts[1..]).value;
    assert b == [b[0]] + r;
    assert b[1..] == r;
  }

  /** An octet is the decimal numeral of its value. */
  lemma OctetCanonical(s: string, v: Byte)
    requires ParseOctet(s) == Some(v)
    ensures NatToDecimal(v) == s
  {
    DecimalCanonical(s);
  }

  lemma DecimalPartsCons(b: seq<Byte>)
    requires |b| > 0
    ensures DecimalParts(b) == [NatToDecimal(b[0])] + DecimalParts(b[1..])
  {
    var d := DecimalParts(b);
    assert d[1..] == DecimalParts(b[1..]);
    assert d == [d[0]] + d[1..];
  }

  /** Rendered text contains only decimal digits and dots. */
  lemma RenderV4Chars(b: seq<Byte>)
    requires |b| == 4
    ensures forall j :: 0 <= j < |RenderV4(b)| ==> RenderV4(b)[j] == '.' || IsDecimalDigit(RenderV4(b)[j])
  {
    var parts := DecimalParts(b);
    forall k, j | 0 <= k < |parts| && 0 <= j < |parts[k]|
      ensures parts[k][j] == '.' || IsDecimalDigit(parts[k][j])
    {
    }
    JoinChars(parts, '.', c => c == '.' || IsDecimalDigit(c));
  }

  /**
   * Dotted-quad text is canonical: a string parses to the bytes b exactly
   * when it is the rendering of b. So parsing and rendering are inverse in
   * both directions, and two different strings never denote the same address.
   */
  lemma ParseV4Iff(s: string, b: seq<Byte>)
    ensures ParseV4(s) == Some(b) <==> |b| == 4 && s == RenderV4(b)
  {
    if ParseV4(s) == Some(b) {
      DecimalPartsOfParseOctets(Split(s, '.'), b);
      JoinSplit(s, '.');
    }
    if |b| == 4 && s == RenderV4(b) {
      var parts := DecimalParts(b);
      forall k | 0 <= k < |parts| ensures '.' !in parts[k] {
        assert AllDecimal(parts[k]);
      }
      SplitJoin(parts, '.');
      ParseOctetsOfDecimalParts(b);
    }
  }

  /** Different addresses have different dotted-quad texts. */
  lemma RenderV4Injective(b1: seq<Byte>, b2: seq<Byte>)
    requires |b1| == 4 && |b2| == 4
    ensures RenderV4(b1) == RenderV4(b2) <==> b1 == b2
  {
    ParseV4Iff(RenderV4(b1), b1);
    ParseV4Iff(RenderV4(b1), b2);
  }

  /** Text that parses as a dotted quad holds only decimal digits and dots. */
  lemma ParsedV4Chars(s: string)
    ensures ParseV4(s).Some? ==> forall j :: 0 <= j < |s| ==> s[j] == '.' || IsDecimalDigit(s[j])
  {
    if ParseV4(s).Some? {
      var b := ParseV4(s).value;
      ParseV4Iff(s, b);
      RenderV4Chars(b);
    }
  }

  /** Text that parses as a dotted quad has no colon in it. */
  lemma ParsedV4HasNoColon(s: string)
    ensures ParseV4(s).Some? ==> ':' !in s
  {
    ParsedV4Chars(s);
  }
}
