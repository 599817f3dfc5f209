/**
 * Characters, decimal and hexadecimal numerals, and splitting/joining of
 * strings on a separator character: the lexical layer shared by the IPv4
 * and IPv6 text forms.
 */
module Text {

  // ---------------------------------------------------------------------
  // Digits
  // ---------------------------------------------------------------------

  predicate IsDecimalDigit(c: char) {
    '0' <= c <= '9'
  }

  /** Hex digits are accepted in either case. */
  predicate IsHexDigit(c: char) {
    '0' <= c <= '9' || 'a' <= c <= 'f' || 'A' <= c <= 'F'
  }

  /** The digits the renderer emits: decimal digits and lower-case a-f. */
  predicate IsLowerHexDigit(c: char) {
    '0' <= c <= '9' || 'a' <= c <= 'f'
  }

  function DecimalDigitValue(c: char): (v: nat)
    requires IsDecimalDigit(c)
    ensures v < 10
  {
    (c as int) - ('0' as int)
  }

  function HexDigitValue(c: char): (v: nat)
    requires IsHexDigit(c)
    ensures v < 16
  {
    if '0' <= c <= '9' then (c as int) - ('0' as int)
    else if 'a' <= c <= 'f' then (c as int) - ('a' as int) + 10
    else (c as int) - ('A' as int) + 10
  }

  function DecimalChar(d: nat): (c: char)
    requires d < 10
    ensures IsDecimalDigit(c) && DecimalDigitValue(c) == d
  {
    ('0' as int + d) as char
  }

  function LowerHexChar(d: nat): (c: char)
    requires d < 16
    ensures IsLowerHexDigit(c) && IsHexDigit(c) && HexDigitValue(c) == d
  {
    if d < 10 then ('0' as int + d) as char else ('a' as int + d - 10) as char
  }

  predicate AllDecimal(s: string) {
    forall k :: 0 <= k < |s| ==> IsDecimalDigit(s[k])
  }

  predicate AllHex(s: string) {
    forall k :: 0 <= k < |s| ==> IsHexDigit(s[k])
  }

  predicate AllLowerHex(s: string) {
    forall k :: 0 <= k < |s| ==> IsLowerHexDigit(s[k])
  }

  /** A numeral has no superfluous leading zero: "0" is fine, "00" and "07" are not. */
  predicate NoLeadingZero(s: string) {
    |s| >= 1 && (s[0] != '0' || |s| == 1)
  }

  // ---------------------------------------------------------------------
  // Numerals
  // ---------------------------------------------------------------------

  /** The value of a decimal numeral, most significant digit first. */
  function DecimalValue(s: string): nat
    requires AllDecimal(s)
  {
    if s == [] then 0
    else DecimalValue(s[..|s| - 1]) * 10 + DecimalDigitValue(s[|s| - 1])
  }

  /** The value of a hexadecimal numeral, most significant digit first. */
  function HexValue(s: string): (v: nat)
    requires AllHex(s)
    ensures |s| <= 1 ==> v < 16
    ensures |s| <= 2 ==> v < 256
    ensures |s| <= 3 ==> v < 4096
    ensures |s| <= 4 ==> v < 65536
  {
    if s == [] then 0
    else HexValue(s[..|s| - 1]) * 16 + HexDigitValue(s[|s| - 1])
  }

  /** The shortest decimal numeral of n. */
  function NatToDecimal(n: nat): (s: string)
    ensures AllDecimal(s) && NoLeadingZero(s)
    ensures DecimalValue(s) == n
  {
    if n < 10 then [DecimalChar(n)]
    else
      var p := NatToDecimal(n / 10);
      var s := p + [DecimalChar(n % 10)];
      assert s[..|s| - 1] == p;
      s
  }

  /** The shortest lower-case hexadecimal numeral of a 16-bit value: one to four digits. */
  function NatToHex(n: nat): string
    requires n < 65536
  {
    if n < 16 then [LowerHexChar(n)]
    else if n < 256 then [LowerHexChar(n / 16), LowerHexChar(n % 16)]
    else if n < 4096 then [LowerHexChar(n / 256), LowerHexChar(n / 16 % 16), LowerHexChar(n % 16)]
    else [LowerHexChar(n / 4096), LowerHexChar(n / 256 % 16), LowerHexChar(n / 16 % 16), LowerHexChar(n % 16)]
  }

  /** s is one to four lower-case hex digits, without a leading zero, and spells n. */
  predicate IsShortHexOf(s: string, n: nat) {
    AllHex(s) && AllLowerHex(s) && NoLeadingZero(s) && 1 <= |s| <= 4 && HexValue(s) == n
  }

  /** NatToHex gives one to four lower-case hex digits, no leading zero, spelling n. */
  lemma NatToHexIsNumeral(n: nat)
    requires n < 65536
    ensures IsShortHexOf(NatToHex(n), n)
  {
    if n < 16 {
      HexValueDigits(NatToHex(n));
    } else if n < 256 {
      HexValueDigits(NatToHex(n));
    } else if n < 4096 {
      HexNumeral3(n);
    } else {
      HexNumeral4(n);
    }
  }

  lemma HexNumeral3(n: nat)
    requires 256 <= n < 4096
    ensures IsShortHexOf(NatToHex(n), n)
  {
    var d2, d1, d0 := n / 256, n / 16 % 16, n % 16;
    var s := NatToHex(n);
    assert s == [LowerHexChar(d2), LowerHexChar(d1), LowerHexChar(d0)];
    HexValueDigits(s);
    assert HexValue(s) == d2 * 256 + d1 * 16 + d0;
    ThreeHexDigits(n);
  }

  lemma HexNumeral4(n: nat)
    requires 4096 <= n < 65536
    ensures IsShortHexOf(NatToHex(n), n)
  {
    var d3, d2, d1, d0 := n / 4096, n / 256 % 16, n / 16 % 16, n % 16;
    var s := NatToHex(n);
    assert s == [LowerHexChar(d3), LowerHexChar(d2), LowerHexChar(d1), LowerHexChar(d0)];
    HexValueDigits(s);
    assert HexValue(s) == d3 * 4096 + d2 * 256 + d1 * 16 + d0;
    FourHexDigits(n);
  }

  /** A 16-bit value is the sum of its four hex digits' weights. */
  lemma FourHexDigits(n: nat)
    requires n < 65536
    ensures n == (n / 4096) * 4096 + (n / 256 % 16) * 256 + (n / 16 % 16) * 16 + n % 16
  {
    var q1 := n / 16;
    var q2 := q1 / 16;
    var q3 := q2 / 16;
    assert n == 16 * q1 + n % 16;
    assert q1 == 16 * q2 + q1 % 16;
    assert q2 == 16 * q3 + q2 % 16;
    assert q2 == n / 256;
    assert q3 == n / 4096;
  }

  /** A 12-bit value is the sum of its three hex digits' weights. */
  lemma ThreeHexDigits(n: nat)
    requires n < 4096
    ensures n == (n / 256) * 256 + (n / 16 % 16) * 16 + n % 16
  {
    var q1 := n / 16;
    var q2 := q1 / 16;
    assert n == 16 * q1 + n % 16;
    assert q1 == 16 * q2 + q1 % 16;
    assert q2 == n / 256;
  }

  /** The value of a numeral of one to four hex digits, digit by digit. */
  lemma {:induction false} HexValueDigits(s: string)
    requires AllHex(s) && 1 <= |s| <= 4
    ensures |s| == 1 ==> HexValue(s) == HexDigitValue(s[0])
    ensures |s| == 2 ==> HexValue(s) == HexDigitValue(s[0]) * 16 + HexDigitValue(s[1])
    ensures |s| == 3 ==> HexValue(s) == HexDigitValue(s[0]) * 256 + HexDigitValue(s[1]) * 16 + HexDigitValue(s[2])
    ensures |s| == 4 ==>
      HexValue(s) == HexDigitValue(s[0]) * 4096 + HexDigitValue(s[1]) * 256 + HexDigitValue(s[2]) * 16 + HexDigitValue(s[3])
  {
    var p := s[..|s| - 1];
    assert HexValue(s) == HexValue(p) * 16 + HexDigitValue(s[|s| - 1]);
    if |s| == 1 {
      assert p == [];
    } else {
      HexValueDigits(p);
      assert forall k :: 0 <= k < |p| ==> p[k] == s[k];
    }
  }

  /** A numeral whose first digit is not zero has a positive value. */
  lemma {:induction false} DecimalValuePositive(s: string)
    requires AllDecimal(s) && |s| >= 1 && s[0] != '0'
    ensures DecimalValue(s) >= 1
  {
    if |s| > 1 {
      DecimalValuePositive(s[..|s| - 1]);
    }
  }

  /**
   * A decimal numeral without a superfluous leading zero is the shortest
   * numeral of its value: decimal text in that form is canonical.
   */
  lemma {:induction false} DecimalCanonical(s: string)
    requires AllDecimal(s) && NoLeadingZero(s)
    ensures NatToDecimal(DecimalValue(s)) == s
  {
    if |s| > 1 {
      var p := s[..|s| - 1];
      DecimalValuePositive(p);
      DecimalCanonical(p);
      var n := DecimalValue(s);
      assert n / 10 == DecimalValue(p) && n % 10 == DecimalDigitValue(s[|s| - 1]);
      assert DecimalChar(n % 10) == s[|s| - 1];
    }
  }

  // ---------------------------------------------------------------------
  // Splitting and joining on a separator
  // ---------------------------------------------------------------------

  /** The position of the first occurrence of c in s. */
  function IndexOf(s: string, c: char): (i: nat)
    requires c in s
    ensures i < |s| && s[i] == c && c !in s[..i]
  {
    if s[0] == c then 0
    else
      var j := IndexOf(s[1..], c);
      assert s[..j + 1] == [s[0]] + s[1..][..j];
      j + 1
  }

  /** The pieces of s between occurrences of sep; always at least one piece. */
  function Split(s: string, sep: char): (r: seq<string>)
    ensures |r| >= 1
    ensures forall k :: 0 <= k < |r| ==> sep !in r[k]
    decreases |s|
  {
    if sep !in s then [s]
    else
      var i := IndexOf(s, sep);
      [s[..i]] + Split(s[i + 1..], sep)
  }

  /** The pieces written one after another with sep between neighbours. */
  function Join(parts: seq<string>, sep: char): string
  {
    if |parts| == 0 then ""
    else if |parts| == 1 then parts[0]
    else parts[0] + [sep] + Join(parts[1..], sep)
  }

  lemma {:induction false} JoinSplit(s: string, sep: char)
    ensures Join(Split(s, sep), sep) == s
    decreases |s|
  {
    if sep in s {
      var i := IndexOf(s, sep);
      var r := Split(s[i + 1..], sep);
      SplitStep(s, sep);
      JoinSplit(s[i + 1..], sep);
      JoinCons(s[..i], r, sep);
      assert s == s[..i] + [sep] + s[i + 1..];
    }
  }

  /** Split cuts at the first separator and goes on after it. */
  lemma SplitStep(s: string, sep: char)
    requires sep in s
    ensures Split(s, sep) == [s[..IndexOf(s, sep)]] + Split(s[IndexOf(s, sep) + 1..], sep)
  {
  }

  /** Joining a piece in front of a non-empty list puts one separator after it. */
  lemma JoinCons(x: string, r: seq<string>, sep: char)
    requires |r| >= 1
    ensures Join([x] + r, sep) == x + [sep] + Join(r, sep)
  {
    assert ([x] + r)[1..] == r;
  }

  /** The first sep in a + [sep] + b is the one after a, when a has none. */
  lemma {:induction false} IndexOfAfter(a: string, sep: char, b: string)
    requires sep !in a
    ensures IndexOf(a + [sep] + b, sep) == |a|
  {
    if |a| > 0 {
      assert (a + [sep] + b)[1..] == a[1..] + [sep] + b;
      IndexOfAfter(a[1..], sep, b);
    }
  }

  lemma {:induction false} SplitJoin(parts: seq<string>, sep: char)
    requires |parts| >= 1
    requires forall k :: 0 <= k < |parts| ==> sep !in parts[k]
    ensures Split(Join(parts, sep), sep) == parts
  {
    if |parts| > 1 {
      var rest := Join(parts[1..], sep);
      var s := parts[0] + [sep] + rest;
      IndexOfAfter(parts[0], sep, rest);
      assert s[|parts[0]|] == sep;
      assert s[..|parts[0]|] == parts[0];
      assert s[|parts[0]| + 1..] == rest;
      SplitJoin(parts[1..], sep);
    }
  }

  /** A character absent from s is absent from every slice of it. */
  lemma AbsentFromSlice(s: string, c: char, lo: nat, hi: nat)
    requires c !in s && lo <= hi <= |s|
    ensures c !in s[lo..hi]
  {
    forall j | 0 <= j < hi - lo ensures s[lo..hi][j] != c {
      assert s[lo..hi][j] == s[lo + j];
    }
  }

  /** A character absent from s is absent from every piece of its split. */
  lemma {:induction false} SplitAvoids(s: string, sep: char, c: char)
    requires c !in s
    ensures forall k :: 0 <= k < |Split(s, sep)| ==> c !in Split(s, sep)[k]
    decreases |s|
  {
    if sep in s {
      var i := IndexOf(s, sep);
      SplitStep(s, sep);
      AbsentFromSlice(s, c, 0, i);
      AbsentFromSlice(s, c, i + 1, |s|);
      assert s[0..i] == s[..i] && s[i + 1..|s|] == s[i + 1..];
      SplitAvoids(s[i + 1..], sep, c);
    }
  }

  /** The first sep of a text is unchanged by appending to it. */
  lemma {:induction false} IndexOfPrefix(a: string, sep: char, t: string)
    requires sep in a
    ensures sep in a + t && IndexOf(a + t, sep) == IndexOf(a, sep)
  {
    assert (a + t)[0] == a[0];
    if a[0] != sep {
      assert sep in a[1..];
      assert (a + t)[1..] == a[1..] + t;
      IndexOfPrefix(a[1..], sep, t);
    }
  }

  /** When a holds no sep, the sep after it ends the first piece. */
  lemma SplitAppendFirst(a: string, sep: char, b: string)
    requires sep !in a
    ensures Split(a + [sep] + b, sep) == [a] + Split(b, sep)
  {
    var s := a + [sep] + b;
    assert s[|a|] == sep;
    SplitStep(s, sep);
    IndexOfAfter(a, sep, b);
    assert s[..|a|] == a;
    assert s[|a| + 1..] == b;
  }

  /** When a holds a sep, its first piece is also the first piece of a + [sep] + b. */
  lemma SplitAppendLater(a: string, sep: char, b: string)
    requires sep in a
    ensures Split(a + [sep] + b, sep)
         == [a[..IndexOf(a, sep)]] + Split(a[IndexOf(a, sep) + 1..] + [sep] + b, sep)
  {
    var i := IndexOf(a, sep);
    var t := [sep] + b;
    IndexOfPrefix(a, sep, t);
    assert a + t == a + [sep] + b;
    SplitStep(a + t, sep);
    assert (a + t)[..i] == a[..i];
    assert (a + t)[i + 1..] == a[i + 1..] + [sep] + b;
  }

  /** Splitting at a separator between a and b splits a and b apart. */
  /** Regrouping a front piece around a concatenation. */
  lemma Regroup(x: string, l: seq<string>, r: seq<string>)
    ensures [x] + (l + r) == ([x] + l) + r
  {
  }

  lemma {:induction false} SplitAppend(a: string, sep: char, b: string)
    ensures Split(a + [sep] + b, sep) == Split(a, sep) + Split(b, sep)
    decreases |a|
  {
    if sep !in a {
      SplitAppendFirst(a, sep, b);
    } else {
      var i := IndexOf(a, sep);
      var x, rest := a[..i], a[i + 1..];
      SplitAppendLater(a, sep, b);
      SplitAppend(rest, sep, b);
      SplitStep(a, sep);
      Regroup(x, Split(rest, sep), Split(b, sep));
    }
  }

  // ---------------------------------------------------------------------
  // Character content of joined text
  // ---------------------------------------------------------------------

  /** Two adjacent occurrences of c start at position j of s. */
  predicate PairAt(s: string, c: char, j: int) {
    0 <= j && j + 1 < |s| && s[j] == c && s[j + 1] == c
  }

  /**
   * Joining non-empty pieces that do not contain sep never places two
   * separators side by side, nor a separator at either end.
   */
  lemma {:induction false} JoinShape(parts: seq<string>, sep: char)
    requires forall k :: 0 <= k < |parts| ==> |parts[k]| >= 1 && sep !in parts[k]
    ensures |parts| >= 1 ==> |Join(parts, sep)| >= 1
    ensures |parts| >= 1 ==> Join(parts, sep)[0] != sep
    ensures |parts| >= 1 ==> Join(parts, sep)[|Join(parts, sep)| - 1] != sep
    ensures forall j :: !PairAt(Join(parts, sep), sep, j)
  {
    if |parts| > 1 {
      JoinShape(parts[1..], sep);
      var rest := Join(parts[1..], sep);
      var s := parts[0] + [sep] + rest;
      forall j ensures !PairAt(s, sep, j) {
        if 0 <= j < |parts[0]| {
          assert s[j] == parts[0][j];
        } else if j == |parts[0]| {
          assert s[j + 1] == rest[0];
        } else if |parts[0]| < j && j + 1 < |s| {
          assert s[j] == rest[j - |parts[0]| - 1] && s[j + 1] == rest[j - |parts[0]|];
          assert !PairAt(rest, sep, j - |parts[0]| - 1);
        }
      }
    }
  }

  /** Every character of a join is a separator or a character of some piece. */
  lemma {:induction false} JoinChars(parts: seq<string>, sep: char, p: char -> bool)
    requires p(sep)
    requires forall k, j :: 0 <= k < |parts| && 0 <= j < |parts[k]| ==> p(parts[k][j])
    ensures forall j :: 0 <= j < |Join(parts, sep)| ==> p(Join(parts, sep)[j])
  {
    if |parts| > 1 {
      JoinChars(parts[1..], sep, p);
      var rest := Join(parts[1..], sep);
      var s := parts[0] + [sep] + rest;
      forall j | 0 <= j < |s| ensures p(s[j]) {
        if j < |parts[0]| {
          assert s[j] == parts[0][j];
        } else if j > |parts[0]| {
          assert s[j] == rest[j - |parts[0]| - 1];
        }
      }
    } else if |parts| == 1 {
      assert forall j :: 0 <= j < |parts[0]| ==> p(parts[0][j]);
    }
  }
}
