/**
 * The IPv6 text form. Parsing follows section 2.2 of RFC 4291 (the way
 * inet_pton(AF_INET6, ...) reads it): eight groups of one to four hex digits
 * in either case, separated by ':'; one "::" may stand for a run of one or
 * more zero groups; the last piece of the text may be a dotted quad standing
 * for the last two groups. Rendering follows section 4 of RFC 5952: leading
 * zeros suppressed, lower-case digits, and the longest run of two or more
 * zero groups (the first one on a tie) replaced by "::".
 */
module Ipv6Text {
  import opened Wrappers
  import opened Text
  import opened Ipv4Text

  /** A 16-bit group of an IPv6 address. */
  type Group = x: int | 0 <= x < 65536

  // ---------------------------------------------------------------------
  // Bytes and groups (network byte order: high byte first)
  // ---------------------------------------------------------------------

  function BytesToGroups(b: seq<Byte>): (g: seq<Group>)
    requires |b| % 2 == 0
    ensures |g| == |b| / 2
  {
    seq(|b| / 2, k requires 0 <= k < |b| / 2 => (b[2 * k] as int) * 256 + b[2 * k + 1])
  }

  function GroupsToBytes(g: seq<Group>): (b: seq<Byte>)
    ensures |b| == 2 * |g|
  {
    seq(2 * |g|, k requires 0 <= k < 2 * |g| => if k % 2 == 0 then g[k / 2] / 256 else g[k / 2] % 256)
  }

  lemma BytesGroupsRoundTrip(b: seq<Byte>)
    requires |b| % 2 == 0
    ensures GroupsToBytes(BytesToGroups(b)) == b
  {
    var g := BytesToGroups(b);
    var b' := GroupsToBytes(g);
    forall k | 0 <= k < |b| ensures b'[k] == b[k] {
      var h := k / 2;
      assert g[h] == (b[2 * h] as int) * 256 + b[2 * h + 1];
      ByteSplit(b[2 * h], b[2 * h + 1]);
      if k % 2 == 0 {
        assert k == 2 * h;
      } else {
        assert k == 2 * h + 1;
      }
    }
  }

  /** The high and low byte of a group are recovered by division and remainder. */
  lemma ByteSplit(hi: Byte, lo: Byte)
    ensures (hi as int * 256 + lo) / 256 == hi && (hi as int * 256 + lo) % 256 == lo
  {
  }

  lemma GroupsBytesRoundTrip(g: seq<Group>)
    ensures BytesToGroups(GroupsToBytes(g)) == g
  {
    var b := GroupsToBytes(g);
    var g' := BytesToGroups(b);
    forall k | 0 <= k < |g| ensures g'[k] == g[k] {
      assert b[2 * k] == g[k] / 256 && b[2 * k + 1] == g[k] % 256;
    }
  }

  // ---------------------------------------------------------------------
  // Parsing
  // ---------------------------------------------------------------------

  /** One group: one to four hex digits, either case. */
  function ParseHexGroup(s: string): Option<Group>
  {
    if 1 <= |s| <= 4 && AllHex(s) then Some(HexValue(s)) else None
  }

  /**
   * The groups the colon-separated pieces stand for. When dottedTail holds,
   * a final piece containing '.' is read as a dotted quad (two groups).
   */
  function ParsePieces(pieces: seq<string>, dottedTail: bool): (r: Option<seq<Group>>)
    ensures r.Some? ==> |pieces| <= |r.value| <= 2 * |pieces|
  {
    if |pieces| == 0 then Some([])
    else if |pieces| == 1 && dottedTail && '.' in pieces[0] then
      match ParseV4(pieces[0])
      case None => None
      case Some(q) => Some([(q[0] as int) * 256 + q[1], (q[2] as int) * 256 + q[3]])
    else
      match ParseHexGroup(pieces[0])
      case None => None
      case Some(h) =>
        match ParsePieces(pieces[1..], dottedTail)
        case None => None
        case Some(rest) => Some([h] + rest)
  }

  /** A possibly empty colon-separated list of groups. */
  function ParseGroupList(s: string, dottedTail: bool): Option<seq<Group>>
  {
    if s == "" then Some([]) else ParsePieces(Split(s, ':'), dottedTail)
  }

  /** The first position at or after i where "::" starts. */
  function FindDoubleColonFrom(s: string, i: nat): (r: Option<nat>)
    requires i <= |s|
    ensures r.Some? ==> i <= r.value && PairAt(s, ':', r.value)
    ensures r.Some? ==> forall j :: i <= j < r.value ==> !PairAt(s, ':', j)
    ensures r.None? ==> forall j :: i <= j ==> !PairAt(s, ':', j)
    decreases |s| - i
  {
    if i + 1 >= |s| then None
    else if s[i] == ':' && s[i + 1] == ':' then Some(i)
    else FindDoubleColonFrom(s, i + 1)
  }

  function FindDoubleColon(s: string): (r: Option<nat>)
    ensures r.Some? ==> PairAt(s, ':', r.value) && forall j :: 0 <= j < r.value ==> !PairAt(s, ':', j)
    ensures r.None? ==> forall j :: !PairAt(s, ':', j)
  {
    FindDoubleColonFrom(s, 0)
  }

  function Zeros(n: nat): (z: seq<Group>)
    ensures |z| == n && forall k :: 0 <= k < n ==> z[k] == 0
  {
    seq(n, k => 0)
  }

  /** The eight groups an IPv6 literal denotes, or None if it is malformed. */
  function ParseV6Groups(s: string): (r: Option<seq<Group>>)
    ensures r.Some? ==> |r.value| == 8
  {
    match FindDoubleColon(s)
    case None =>
      (match ParseGroupList(s, true)
       case Some(g) => if |g| == 8 then Some(g) else None
       case None => None)
    case Some(i) =>
      var left, right := s[..i], s[i + 2..];
      if FindDoubleColon(right).Some? then None
      else
        match (ParseGroupList(left, false), ParseGroupList(right, true))
        case (Some(l), Some(r)) =>
          if |l| + |r| <= 7 then Some(l + Zeros(8 - |l| - |r|) + r) else None
        case _ => None
  }

  /** The sixteen bytes an IPv6 literal denotes, or None if it is malformed. */
  function ParseV6(s: string): (r: Option<seq<Byte>>)
    ensures r.Some? ==> |r.value| == 16
  {
    match ParseV6Groups(s)
    case None => None
    case Some(g) => Some(GroupsToBytes(g))
  }

  // ---------------------------------------------------------------------
  // The zero run to compress
  // ---------------------------------------------------------------------

  /** Groups start .. start + len - 1 exist and are all zero. */
  predicate IsZeroRun(g: seq<Group>, start: nat, len: nat) {
    start + len <= |g| && forall k :: start <= k < start + len ==> g[k] == 0
  }

  /** The number of consecutive zero groups starting at position i. */
  function ZeroRunAt(g: seq<Group>, i: nat): (n: nat)
    requires i <= |g|
    ensures IsZeroRun(g, i, n)
    ensures i + n == |g| || g[i + n] != 0
    decreases |g| - i
  {
    if i == |g| || g[i] != 0 then 0 else 1 + ZeroRunAt(g, i + 1)
  }

  /** No zero run starting at i is longer than ZeroRunAt(g, i). */
  lemma {:induction false} ZeroRunAtIsLongest(g: seq<Group>, i: nat, len: nat)
    ensures IsZeroRun(g, i, len) ==> len <= ZeroRunAt(g, i)
    decreases len
  {
    if IsZeroRun(g, i, len) && len > 0 {
      assert IsZeroRun(g, i + 1, len - 1);
      ZeroRunAtIsLongest(g, i + 1, len - 1);
    }
  }

  datatype Run = Run(start: nat, len: nat)

  /** The longest zero run starting at or after i, the first one on a tie. */
  function LongestZeroRunFrom(g: seq<Group>, i: nat): (r: Run)
    requires i <= |g|
    ensures i <= r.start <= |g| && r.len == ZeroRunAt(g, r.start)
    ensures forall k :: i <= k <= |g| ==> ZeroRunAt(g, k) <= r.len
    ensures forall k :: i <= k < r.start ==> ZeroRunAt(g, k) < r.len
    decreases |g| - i
  {
    if i == |g| then Run(i, 0)
    else
      var rest := LongestZeroRunFrom(g, i + 1);
      var here := ZeroRunAt(g, i);
      if here >= rest.len then Run(i, here) else rest
  }

  /**
   * The run RFC 5952 section 4.2.3 picks: it is a zero run, no zero run
   * anywhere is longer, and no zero run of the same length starts earlier.
   */
  lemma LongestZeroRunIsFirstLongest(g: seq<Group>)
    ensures IsZeroRun(g, LongestZeroRunFrom(g, 0).start, LongestZeroRunFrom(g, 0).len)
    ensures forall s: nat, l: nat :: IsZeroRun(g, s, l) ==> l <= LongestZeroRunFrom(g, 0).len
    ensures forall s: nat :: s < LongestZeroRunFrom(g, 0).start && LongestZeroRunFrom(g, 0).len > 0 ==>
      !IsZeroRun(g, s, LongestZeroRunFrom(g, 0).len)
  {
    var r := LongestZeroRunFrom(g, 0);
    forall s: nat, l: nat ensures IsZeroRun(g, s, l) ==> l <= r.len {
      ZeroRunAtIsLongest(g, s, l);
    }
    forall s: nat | s < r.start ensures !IsZeroRun(g, s, r.len) {
      ZeroRunAtIsLongest(g, s, r.len);
    }
  }

  // ---------------------------------------------------------------------
  // Rendering
  // ---------------------------------------------------------------------

  /** The shortest lower-case hex numeral of each group. */
  function HexParts(g: seq<Group>): (r: seq<string>)
    ensures |r| == |g|
  {
    seq(|g|, k requires 0 <= k < |g| => NatToHex(g[k]))
  }

  /** The groups lg and rg, with "::" between them standing for zero groups. */
  function CompressedParts(lg: seq<Group>, rg: seq<Group>): string {
    Join(HexParts(lg), ':') + "::" + Join(HexParts(rg), ':')
  }

  /** The groups with the zero run at start .. start + len - 1 written as "::". */
  function CompressedText(g: seq<Group>, start: nat, len: nat): string
    requires start + len <= |g|
  {
    CompressedParts(g[..start], g[start + len..])
  }

  /** The RFC 5952 text of eight groups. */
  function RenderV6Groups(g: seq<Group>): string
    requires |g| == 8
  {
    var run := LongestZeroRunFrom(g, 0);
    if run.len >= 2 then CompressedText(g, run.start, run.len)
    else Join(HexParts(g), ':')
  }

  /** The RFC 5952 text of sixteen bytes. */
  function RenderV6(b: seq<Byte>): string
    requires |b| == 16
  {
    RenderV6Groups(BytesToGroups(b))
  }

  // ---------------------------------------------------------------------
  // What the parser reads: groups written out, with or without one "::"
  // ---------------------------------------------------------------------

  /** One to four hex digits, in either case, with or without leading zeros. */
  predicate IsGroupText(p: string) {
    1 <= |p| <= 4 && AllHex(p)
  }

  predicate AllGroupTexts(ps: seq<string>) {
    forall k :: 0 <= k < |ps| ==> IsGroupText(ps[k])
  }

  /** The groups the group texts spell. */
  function GroupValues(ps: seq<string>): (g: seq<Group>)
    requires AllGroupTexts(ps)
    ensures |g| == |ps|
  {
    seq(|ps|, k requires 0 <= k < |ps| => HexValue(ps[k]))
  }

  lemma {:induction false} ParsePiecesOfGroupTexts(ps: seq<string>, dottedTail: bool)
    requires AllGroupTexts(ps)
    ensures ParsePieces(ps, dottedTail) == Some(GroupValues(ps))
  {
    if |ps| > 0 {
      assert '.' !in ps[0] by {
        assert AllHex(ps[0]);
      }
      assert GroupValues(ps)[1..] == GroupValues(ps[1..]);
      ParsePiecesOfGroupTexts(ps[1..], dottedTail);
      assert [GroupValues(ps)[0]] + GroupValues(ps)[1..] == GroupValues(ps);
    }
  }

  /** Joined group texts: no "::", and no ':' at either end. */
  lemma GroupTextsJoinShape(ps: seq<string>)
    requires AllGroupTexts(ps)
    ensures forall j :: !PairAt(Join(ps, ':'), ':', j)
    ensures |ps| >= 1 ==> |Join(ps, ':')| >= 1
    ensures |ps| >= 1 ==> Join(ps, ':')[0] != ':'
    ensures |ps| >= 1 ==> Join(ps, ':')[|Join(ps, ':')| - 1] != ':'
  {
    forall k | 0 <= k < |ps| ensures |ps[k]| >= 1 && ':' !in ps[k] {
      assert AllHex(ps[k]);
    }
    JoinShape(ps, ':');
  }

  lemma ParseGroupListOfGroupTexts(ps: seq<string>, dottedTail: bool)
    requires AllGroupTexts(ps)
    ensures ParseGroupList(Join(ps, ':'), dottedTail) == Some(GroupValues(ps))
  {
    if |ps| > 0 {
      GroupTextsJoinShape(ps);
      forall k | 0 <= k < |ps| ensures ':' !in ps[k] {
        assert AllHex(ps[k]);
      }
      SplitJoin(ps, ':');
      ParsePiecesOfGroupTexts(ps, dottedTail);
    }
  }

  /** The first "::" of s starts at i. */
  lemma FirstDoubleColon(s: string, i: nat)
    requires PairAt(s, ':', i)
    requires forall j :: 0 <= j < i ==> !PairAt(s, ':', j)
    ensures FindDoubleColon(s) == Some(i)
  {
  }

  /** In l + "::" + r, with l and r joined group texts, the first "::" is after l. */
  lemma CompressedDoubleColon(lp: seq<string>, rp: seq<string>)
    requires AllGroupTexts(lp)
    ensures var l := Join(lp, ':');
      FindDoubleColon(l + "::" + Join(rp, ':')) == Some(|l|)
  {
    var l, r := Join(lp, ':'), Join(rp, ':');
    var text := l + "::" + r;
    GroupTextsJoinShape(lp);
    forall j | 0 <= j < |l| ensures !PairAt(text, ':', j) {
      if j + 1 < |l| {
        assert text[j] == l[j] && text[j + 1] == l[j + 1];
        assert !PairAt(l, ':', j);
      } else {
        assert text[j] == l[|l| - 1];
      }
    }
    FirstDoubleColon(text, |l|);
  }

  /** How ParseV6Groups reads a text whose only "::" starts at i. */
  lemma ParseV6GroupsWithDoubleColon(s: string, i: nat, lg: seq<Group>, rg: seq<Group>)
    requires FindDoubleColon(s) == Some(i)
    requires FindDoubleColon(s[i + 2..]).None?
    requires ParseGroupList(s[..i], false) == Some(lg)
    requires ParseGroupList(s[i + 2..], true) == Some(rg)
    requires |lg| + |rg| <= 7
    ensures ParseV6Groups(s) == Some(lg + Zeros(8 - |lg| - |rg|) + rg)
  {
  }

  /**
   * RFC 4291 section 2.2, form 2: hex groups before and after one "::",
   * seven or fewer in all, denote those groups with the gap between them
   * filled by zero groups.
   */
  lemma ParseV6Compressed(lp: seq<string>, rp: seq<string>)
    requires AllGroupTexts(lp) && AllGroupTexts(rp) && |lp| + |rp| <= 7
    ensures ParseV6Groups(Join(lp, ':') + "::" + Join(rp, ':')) ==
      Some(GroupValues(lp) + Zeros(8 - |lp| - |rp|) + GroupValues(rp))
  {
    var l, r := Join(lp, ':'), Join(rp, ':');
    var text := l + "::" + r;
    CompressedDoubleColon(lp, rp);
    assert text[..|l|] == l;
    assert text[|l| + 2..] == r;
    GroupTextsJoinShape(rp);
    assert FindDoubleColon(r).None?;
    ParseGroupListOfGroupTexts(lp, false);
    ParseGroupListOfGroupTexts(rp, true);
    ParseV6GroupsWithDoubleColon(text, |l|, GroupValues(lp), GroupValues(rp));
  }

  /**
   * RFC 4291 section 2.2, form 1: eight hex groups separated by ':' denote
   * those groups; any other number of them, without "::", denotes nothing.
   */
  lemma ParseV6Full(ps: seq<string>)
    requires AllGroupTexts(ps)
    ensures ParseV6Groups(Join(ps, ':')) == if |ps| == 8 then Some(GroupValues(ps)) else None
  {
    GroupTextsJoinShape(ps);
    ParseGroupListOfGroupTexts(ps, true);
  }

  // ---------------------------------------------------------------------
  // What the parser accepts, conversely
  // ---------------------------------------------------------------------

  /** The colon-separated pieces ParseGroupList reads: none for empty text. */
  function GroupPieces(s: string): (ps: seq<string>)
    ensures Join(ps, ':') == s
  {
    if s == "" then [] else JoinSplit(s, ':'); Split(s, ':')
  }

  /** Eight group texts joined by ':' spell s (RFC 4291 section 2.2, form 1). */
  predicate IsFullForm(s: string, ps: seq<string>) {
    AllGroupTexts(ps) && |ps| == 8 && Join(ps, ':') == s
  }

  /** At most seven group texts around one "::" spell s (form 2). */
  predicate IsCompressedForm(s: string, lp: seq<string>, rp: seq<string>) {
    AllGroupTexts(lp) && AllGroupTexts(rp) && |lp| + |rp| <= 7 &&
    Join(lp, ':') + "::" + Join(rp, ':') == s
  }

  /** g is what the eight group texts of s, joined by ':', denote. */
  predicate DenotesFullForm(s: string, g: seq<Group>) {
    IsFullForm(s, Split(s, ':')) && g == GroupValues(Split(s, ':'))
  }

  /** g is what the group texts either side of the "::" at i in s denote, with zeros between. */
  predicate DenotesCompressedForm(s: string, i: nat, g: seq<Group>)
    requires i + 2 <= |s|
  {
    var lp, rp := GroupPieces(s[..i]), GroupPieces(s[i + 2..]);
    IsCompressedForm(s, lp, rp) && g == GroupValues(lp) + Zeros(8 - |lp| - |rp|) + GroupValues(rp)
  }

  /** A piece without '.' that ParsePieces accepts is one to four hex digits. */
  lemma {:induction false} ParsedPieceIsGroupText(ps: seq<string>, dottedTail: bool, k: nat)
    requires ParsePieces(ps, dottedTail).Some? && k < |ps| && '.' !in ps[k]
    ensures IsGroupText(ps[k])
  {
    if k > 0 {
      assert ps[1..][k - 1] == ps[k];
      ParsedPieceIsGroupText(ps[1..], dottedTail, k - 1);
    }
  }

  /** A piece with '.' that ParsePieces accepts is the last one, and a dotted tail is allowed. */
  lemma {:induction false} ParsedDottedPieceIsLast(ps: seq<string>, dottedTail: bool, k: nat)
    requires ParsePieces(ps, dottedTail).Some? && k < |ps|
    ensures '.' in ps[k] ==> dottedTail && k == |ps| - 1
  {
    if k == 0 {
      if !(|ps| == 1 && dottedTail && '.' in ps[0]) {
        assert AllHex(ps[0]);
      }
    } else {
      assert ps[1..][k - 1] == ps[k];
      ParsedDottedPieceIsLast(ps[1..], dottedTail, k - 1);
    }
  }

  /** Dot-free pieces that ParsePieces accepts are group texts, read as such. */
  lemma ParsePiecesShape(ps: seq<string>, dottedTail: bool)
    requires ParsePieces(ps, dottedTail).Some?
    requires forall k :: 0 <= k < |ps| ==> '.' !in ps[k]
    ensures AllGroupTexts(ps) && ParsePieces(ps, dottedTail).value == GroupValues(ps)
  {
    forall k | 0 <= k < |ps| ensures IsGroupText(ps[k]) {
      ParsedPieceIsGroupText(ps, dottedTail, k);
    }
    ParsePiecesOfGroupTexts(ps, dottedTail);
  }

  /** A dot-free list ParseGroupList accepts is joined group texts. */
  lemma GroupListShape(x: string, dottedTail: bool)
    requires '.' !in x && ParseGroupList(x, dottedTail).Some?
    ensures AllGroupTexts(GroupPieces(x))
    ensures ParseGroupList(x, dottedTail).value == GroupValues(GroupPieces(x))
  {
    if x != "" {
      SplitAvoids(x, ':', '.');
      ParsePiecesShape(Split(x, ':'), dottedTail);
    }
  }

  /** What ParseV6Groups requires of a text without "::". */
  lemma AcceptedWithoutDoubleColon(s: string)
    requires FindDoubleColon(s).None? && ParseV6Groups(s).Some?
    ensures s != "" && ParsePieces(Split(s, ':'), true) == ParseV6Groups(s)
  {
  }

  /** What ParseV6Groups requires of a text whose first "::" is at i. */
  lemma AcceptedWithDoubleColon(s: string, i: nat)
    requires FindDoubleColon(s) == Some(i) && ParseV6Groups(s).Some?
    ensures ParseGroupList(s[..i], false).Some? && ParseGroupList(s[i + 2..], true).Some?
    ensures var l, r := ParseGroupList(s[..i], false).value, ParseGroupList(s[i + 2..], true).value;
      |l| + |r| <= 7 && ParseV6Groups(s).value == l + Zeros(8 - |l| - |r|) + r
  {
  }

  /**
   * The converse of ParseV6Full for a text without '.' or "::": one that
   * parses is eight group texts joined by ':'.
   */
  lemma ParsedFullForm(s: string)
    requires '.' !in s && FindDoubleColon(s).None? && ParseV6Groups(s).Some?
    ensures DenotesFullForm(s, ParseV6Groups(s).value)
  {
    AcceptedWithoutDoubleColon(s);
    SplitAvoids(s, ':', '.');
    ParsePiecesShape(Split(s, ':'), true);
    JoinSplit(s, ':');
  }

  /** A text without '.' cut around a "::" at i: two texts without '.'. */
  lemma CutAtDoubleColon(s: string, i: nat)
    requires '.' !in s && PairAt(s, ':', i)
    ensures s == s[..i] + "::" + s[i + 2..] && '.' !in s[..i] && '.' !in s[i + 2..]
  {
    assert s == s[..i] + "::" + s[i + 2..];
    AbsentFromSlice(s, '.', 0, i);
    AbsentFromSlice(s, '.', i + 2, |s|);
    assert s[0..i] == s[..i] && s[i + 2..|s|] == s[i + 2..];
  }

  /** Lists of group texts either side of a "::" denote their values with zeros between. */
  lemma CompressedFormOfLists(s: string, left: string, right: string, l: seq<Group>, r: seq<Group>)
    requires s == left + "::" + right && '.' !in left && '.' !in right
    requires ParseGroupList(left, false) == Some(l) && ParseGroupList(right, true) == Some(r)
    requires |l| + |r| <= 7
    ensures DenotesCompressedForm(s, |left|, l + Zeros(8 - |l| - |r|) + r)
  {
    assert s[..|left|] == left && s[|left| + 2..] == right;
    GroupListShape(left, false);
    GroupListShape(right, true);
  }

  /**
   * The converse of ParseV6Compressed for a text without '.': one that
   * parses and has its first "::" at i is at most seven group texts around it.
   */
  lemma ParsedCompressedForm(s: string, i: nat)
    requires '.' !in s && FindDoubleColon(s) == Some(i) && ParseV6Groups(s).Some?
    ensures i + 2 <= |s| && DenotesCompressedForm(s, i, ParseV6Groups(s).value)
  {
    var left, right := s[..i], s[i + 2..];
    CutAtDoubleColon(s, i);
    AcceptedWithDoubleColon(s, i);
    CompressedFormOfLists(s, left, right, ParseGroupList(left, false).value, ParseGroupList(right, true).value);
  }

  /** A text without '.' that parses is in form 1 or in form 2. */
  lemma ParsedV6Form(s: string)
    requires '.' !in s && ParseV6Groups(s).Some?
    ensures FindDoubleColon(s).None? ==> DenotesFullForm(s, ParseV6Groups(s).value)
    ensures FindDoubleColon(s).Some? ==>
      FindDoubleColon(s).value + 2 <= |s| &&
      DenotesCompressedForm(s, FindDoubleColon(s).value, ParseV6Groups(s).value)
  {
    match FindDoubleColon(s)
    case None => ParsedFullForm(s);
    case Some(i) => ParsedCompressedForm(s, i);
  }

  /** Each piece of a parsed text without "::": short hex, or a dotted last piece. */
  lemma PiecesWithoutDoubleColon(s: string)
    requires FindDoubleColon(s).None? && ParseV6Groups(s).Some?
    ensures forall k :: 0 <= k < |Split(s, ':')| ==> PieceFits(Split(s, ':'), k)
  {
    AcceptedWithoutDoubleColon(s);
    var ps := Split(s, ':');
    forall k | 0 <= k < |ps| ensures PieceFits(ps, k) {
      ParsedDottedPieceIsLast(ps, true, k);
      if '.' !in ps[k] {
        ParsedPieceIsGroupText(ps, true, k);
      }
    }
  }

  /** Each piece of a list ParseGroupList accepts: short hex, or a dotted last piece. */
  lemma PiecesOfGroupList(x: string, dottedTail: bool)
    requires ParseGroupList(x, dottedTail).Some?
    ensures forall k :: 0 <= k < |Split(x, ':')| ==> PieceFits(Split(x, ':'), k)
    ensures !dottedTail ==> forall k :: 0 <= k < |Split(x, ':')| ==> '.' !in Split(x, ':')[k]
  {
    var ps := Split(x, ':');
    if x != "" {
      forall k | 0 <= k < |ps| ensures PieceFits(ps, k) && (!dottedTail ==> '.' !in ps[k]) {
        ParsedDottedPieceIsLast(ps, dottedTail, k);
        if '.' !in ps[k] {
          ParsedPieceIsGroupText(ps, dottedTail, k);
        }
      }
    }
  }

  /** Each piece of a parsed text with "::" at i: short hex, or a dotted last piece. */
  lemma PiecesWithDoubleColon(s: string, i: nat)
    requires FindDoubleColon(s) == Some(i) && ParseV6Groups(s).Some?
    ensures forall k :: 0 <= k < |Split(s, ':')| ==> PieceFits(Split(s, ':'), k)
  {
    var left, right := s[..i], s[i + 2..];
    var lps, rps := Split(left, ':'), Split(right, ':');
    AcceptedWithDoubleColon(s, i);
    SplitsAroundDoubleColon(s, i);
    PiecesOfGroupList(left, false);
    PiecesOfGroupList(right, true);
    var ps := Split(s, ':');
    forall k | 0 <= k < |ps| ensures PieceFits(ps, k) {
      if k < |lps| {
        assert ps[k] == lps[k] && PieceFits(lps, k);
      } else if k == |lps| {
        assert ps[k] == "";
      } else {
        assert ps[k] == rps[k - |lps| - 1] && PieceFits(rps, k - |lps| - 1);
      }
    }
  }

  /** Piece k is at most four hex digits, or contains '.' and is the last. */
  predicate PieceFits(ps: seq<string>, k: nat)
    requires k < |ps|
  {
    ('.' !in ps[k] ==> |ps[k]| <= 4 && AllHex(ps[k])) && ('.' in ps[k] ==> k == |ps| - 1)
  }

  /**
   * Every piece between colons of a text that parses is at most four hex
   * digits (empty only next to "::"), or a dotted quad that ends the text.
   */
  lemma PiecesOfParsedV6(s: string)
    ensures ParseV6Groups(s).Some? ==> forall k :: 0 <= k < |Split(s, ':')| ==> PieceFits(Split(s, ':'), k)
  {
    if ParseV6Groups(s).Some? {
      match FindDoubleColon(s)
      case None => PiecesWithoutDoubleColon(s);
      case Some(i) => PiecesWithDoubleColon(s, i);
    }
  }

  /** The pieces of s either side of a "::" at i, with the empty piece between. */
  lemma SplitsAroundDoubleColon(s: string, i: nat)
    requires PairAt(s, ':', i)
    ensures Split(s, ':') == Split(s[..i], ':') + [""] + Split(s[i + 2..], ':')
  {
    var left, right := s[..i], s[i + 2..];
    assert s == left + [':'] + ([':'] + right);
    SplitAppend(left, ':', [':'] + right);
    assert [':'] + right == "" + [':'] + right;
    SplitAppend("", ':', right);
  }

  /** A text with two separate "::" denotes nothing. */
  lemma SecondDoubleColonRejected(s: string, i: nat, j: nat)
    requires PairAt(s, ':', i) && PairAt(s, ':', j) && i + 2 <= j
    ensures ParseV6(s).None?
  {
    var i0 := FindDoubleColon(s).value;
    var right := s[i0 + 2..];
    assert PairAt(right, ':', j - i0 - 2);
  }

  /** A text with a piece of five or more characters and no '.' denotes nothing. */
  lemma LongGroupRejected(s: string, k: nat)
    requires k < |Split(s, ':')| && '.' !in Split(s, ':')[k] && |Split(s, ':')[k]| > 4
    ensures ParseV6(s).None?
  {
    PiecesOfParsedV6(s);
    assert !PieceFits(Split(s, ':'), k);
  }

  // ---------------------------------------------------------------------
  // Round trip
  // ---------------------------------------------------------------------

  /** Rendered groups are group texts that spell the groups they came from. */
  lemma HexPartsAreGroupTexts(x: seq<Group>)
    ensures AllGroupTexts(HexParts(x)) && GroupValues(HexParts(x)) == x
  {
    var p := HexParts(x);
    forall k | 0 <= k < |p| ensures IsGroupText(p[k]) && HexValue(p[k]) == x[k] {
      NatToHexIsNumeral(x[k]);
    }
  }

  /** Joined hex parts hold only hex digits and ':'. */
  lemma HexPartsJoinChars(x: seq<Group>)
    ensures forall j :: 0 <= j < |Join(HexParts(x), ':')| ==>
      Join(HexParts(x), ':')[j] == ':' || IsLowerHexDigit(Join(HexParts(x), ':')[j])
  {
    var p := HexParts(x);
    forall k, j | 0 <= k < |p| && 0 <= j < |p[k]| ensures p[k][j] == ':' || IsLowerHexDigit(p[k][j]) {
      NatToHexIsNumeral(x[k]);
    }
    JoinChars(p, ':', c => c == ':' || IsLowerHexDigit(c));
  }

  /** Cutting a zero run out and putting zeros back restores the groups. */
  lemma AroundZeroRun(g: seq<Group>, start: nat, len: nat)
    requires IsZeroRun(g, start, len)
    ensures g[..start] + Zeros(len) + g[start + len..] == g
  {
    var h := g[..start] + Zeros(len) + g[start + len..];
    assert |h| == |g|;
    forall k | 0 <= k < |g| ensures h[k] == g[k] {
      if k < start {
      } else if k < start + len {
      } else {
      }
    }
  }

  /** The compressed rendering of the groups either side of a run parses back. */
  lemma ParseHexPartsCompressed(lg: seq<Group>, rg: seq<Group>)
    requires |lg| + |rg| <= 7
    ensures ParseV6Groups(CompressedParts(lg, rg)) == Some(lg + Zeros(8 - |lg| - |rg|) + rg)
  {
    var lp, rp := HexParts(lg), HexParts(rg);
    HexPartsAreGroupTexts(lg);
    HexPartsAreGroupTexts(rg);
    assert |lp| + |rp| <= 7;
    ParseV6Compressed(lp, rp);
    assert GroupValues(lp) + Zeros(8 - |lp| - |rp|) + GroupValues(rp) == lg + Zeros(8 - |lg| - |rg|) + rg;
  }

  /** Compressing any zero run of two or more groups gives a text that parses back. */
  lemma ParseCompressedAt(g: seq<Group>, start: nat, len: nat)
    requires |g| == 8 && IsZeroRun(g, start, len) && len >= 2
    ensures ParseV6Groups(CompressedText(g, start, len)) == Some(g)
  {
    var lg, rg := g[..start], g[start + len..];
    assert CompressedText(g, start, len) == CompressedParts(lg, rg);
    assert 8 - |lg| - |rg| == len;
    ParseHexPartsCompressed(lg, rg);
    AroundZeroRun(g, start, len);
  }

  lemma ParseRenderCompressed(g: seq<Group>)
    requires |g| == 8 && LongestZeroRunFrom(g, 0).len >= 2
    ensures ParseV6Groups(RenderV6Groups(g)) == Some(g)
  {
    var run := LongestZeroRunFrom(g, 0);
    ParseCompressedAt(g, run.start, run.len);
  }

  lemma ParseRenderFull(g: seq<Group>)
    requires |g| == 8 && LongestZeroRunFrom(g, 0).len < 2
    ensures ParseV6Groups(RenderV6Groups(g)) == Some(g)
  {
    HexPartsAreGroupTexts(g);
    ParseV6Full(HexParts(g));
  }

  /** Rendering then parsing gives back the same eight groups. */
  lemma ParseRenderV6Groups(g: seq<Group>)
    requires |g| == 8
    ensures ParseV6Groups(RenderV6Groups(g)) == Some(g)
  {
    if LongestZeroRunFrom(g, 0).len >= 2 {
      ParseRenderCompressed(g);
    } else {
      ParseRenderFull(g);
    }
  }

  /** Rendering then parsing gives back the same sixteen bytes. */
  lemma ParseRenderV6(b: seq<Byte>)
    requires |b| == 16
    ensures ParseV6(RenderV6(b)) == Some(b)
  {
    ParseRenderV6Groups(BytesToGroups(b));
    BytesGroupsRoundTrip(b);
  }

  /** RFC 5952 text of different addresses differs. */
  lemma RenderV6Injective(b1: seq<Byte>, b2: seq<Byte>)
    requires |b1| == 16 && |b2| == 16
    ensures RenderV6(b1) == RenderV6(b2) <==> b1 == b2
  {
    ParseRenderV6(b1);
    ParseRenderV6(b2);
  }

  // ---------------------------------------------------------------------
  // Shape of the text
  // ---------------------------------------------------------------------

  /**
   * RFC 5952 text holds only ':' and lower-case hex digits (section 4.3),
   * always holds a ':', and holds "::" exactly when two neighbouring groups
   * are zero (section 4.2.2: a single zero group is never compressed).
   */
  lemma RenderV6Shape(g: seq<Group>)
    requires |g| == 8
    ensures forall j :: 0 <= j < |RenderV6Groups(g)| ==>
      RenderV6Groups(g)[j] == ':' || IsLowerHexDigit(RenderV6Groups(g)[j])
    ensures ':' in RenderV6Groups(g)
    ensures (exists j :: PairAt(RenderV6Groups(g), ':', j)) <==> (exists k: nat :: IsZeroRun(g, k, 2))
  {
    var run := LongestZeroRunFrom(g, 0);
    LongestZeroRunIsFirstLongest(g);
    if run.len >= 2 {
      var lg, rg := g[..run.start], g[run.start + run.len..];
      assert RenderV6Groups(g) == CompressedParts(lg, rg);
      CompressedPartsShape(lg, rg);
      assert IsZeroRun(g, run.start, 2);
    } else {
      assert RenderV6Groups(g) == Join(HexParts(g), ':');
      FullTextShape(g);
      forall k: nat ensures !IsZeroRun(g, k, 2) {
      }
    }
  }

  /** A compressed text holds only ':' and lower-case hex digits, and a "::" after the left part. */
  lemma CompressedPartsShape(lg: seq<Group>, rg: seq<Group>)
    ensures forall j :: 0 <= j < |CompressedParts(lg, rg)| ==>
      CompressedParts(lg, rg)[j] == ':' || IsLowerHexDigit(CompressedParts(lg, rg)[j])
    ensures PairAt(CompressedParts(lg, rg), ':', |Join(HexParts(lg), ':')|)
  {
    var l, r := Join(HexParts(lg), ':'), Join(HexParts(rg), ':');
    var text := CompressedParts(lg, rg);
    assert text == l + "::" + r;
    HexPartsJoinChars(lg);
    HexPartsJoinChars(rg);
    forall j | 0 <= j < |text| ensures text[j] == ':' || IsLowerHexDigit(text[j]) {
      if j < |l| {
        assert text[j] == l[j];
      } else if j >= |l| + 2 {
        assert text[j] == r[j - |l| - 2];
      }
    }
    assert text[|l|] == ':' && text[|l| + 1] == ':';
  }

  /** Eight groups written out hold only ':' and lower-case hex digits, some ':', and no "::". */
  lemma FullTextShape(g: seq<Group>)
    requires |g| == 8
    ensures forall j :: 0 <= j < |Join(HexParts(g), ':')| ==>
      Join(HexParts(g), ':')[j] == ':' || IsLowerHexDigit(Join(HexParts(g), ':')[j])
    ensures ':' in Join(HexParts(g), ':')
    ensures forall j :: !PairAt(Join(HexParts(g), ':'), ':', j)
  {
    HexPartsAreGroupTexts(g);
    GroupTextsJoinShape(HexParts(g));
    HexPartsJoinChars(g);
    var p := HexParts(g);
    assert Join(p, ':') == p[0] + [':'] + Join(p[1..], ':');
    assert Join(p, ':')[|p[0]|] == ':';
  }

  /** Text that parses as IPv6 has a ':' in it. */
  lemma ParsedV6HasColon(s: string)
    ensures ParseV6(s).Some? ==> ':' in s
  {
    if ParseV6(s).Some? {
      match FindDoubleColon(s)
      case Some(i) =>
        assert s[i] == ':';
      case None =>
        // eight groups need at least four pieces, so a separator was split on
        assert s != "";
        assert |Split(s, ':')| >= 4;
    }
  }
}
