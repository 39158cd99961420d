/**
 * The few JDK string and integer routines the byte-font code relies on, stated
 * as functions: String.trim, startsWith, replace, split, toLowerCase and
 * toUpperCase (ASCII), Integer.parseInt, Integer.toString and Integer.toHexString.
 */
module JavaText {
  import opened Wrappers

  const INT_MIN: int := -0x8000_0000
  const INT_MAX: int := 0x7FFF_FFFF

  /** The values a Java `int` can hold. */
  predicate IsInt32(v: int) {
    INT_MIN <= v <= INT_MAX
  }

  // ---------------------------------------------------------------- trim

  /** Drops leading characters <= U+0020, as String.trim does. */
  function TrimLeft(s: string): (r: string)
    ensures |r| <= |s| && r == s[|s| - |r|..]
    ensures r != [] ==> r[0] > ' '
    ensures forall k :: 0 <= k < |s| - |r| ==> s[k] <= ' '
  {
    if s != [] && s[0] <= ' ' then TrimLeft(s[1..]) else s
  }

  /** Drops trailing characters <= U+0020, as String.trim does. */
  function TrimRight(s: string): (r: string)
    ensures |r| <= |s| && r == s[..|r|]
    ensures r != [] ==> r[|r| - 1] > ' '
    ensures forall k :: |r| <= k < |s| ==> s[k] <= ' '
    ensures s != [] && s[0] > ' ' ==> r != []
  {
    if s != [] && s[|s| - 1] <= ' ' then TrimRight(s[..|s| - 1]) else s
  }

  /** String.trim(). */
  function Trim(s: string): (r: string)
    ensures r != [] ==> r[0] > ' ' && r[|r| - 1] > ' '
  {
    TrimRight(TrimLeft(s))
  }

  /**
   * What trim removes: the result is a slice of the input, empty or printable at
   * both ends, and everything cut away on either side is a character <= U+0020.
   */
  lemma TrimSpec(s: string)
    ensures exists i, j :: 0 <= i <= j <= |s| && Trim(s) == s[i..j] &&
                           forall k :: 0 <= k < |s| && (k < i || j <= k) ==> s[k] <= ' '
    ensures Trim(s) != [] ==> Trim(s)[0] > ' ' && Trim(s)[|Trim(s)| - 1] > ' '
  {
    CutSlice(s, TrimLeft(s), Trim(s));
  }

  /** A prefix `t` of a suffix `l` of `s`, with only characters <= U+0020 cut away, is such a slice. */
  lemma CutSlice(s: string, l: string, t: string)
    requires |l| <= |s| && l == s[|s| - |l|..] && forall k :: 0 <= k < |s| - |l| ==> s[k] <= ' '
    requires |t| <= |l| && t == l[..|t|] && forall k :: |t| <= k < |l| ==> l[k] <= ' '
    ensures exists i, j :: 0 <= i <= j <= |s| && t == s[i..j] &&
                           forall k :: 0 <= k < |s| && (k < i || j <= k) ==> s[k] <= ' '
  {
    var i := |s| - |l|;
    var j := i + |t|;
    assert t == s[i..j];
    assert forall k :: j <= k < |s| ==> s[k] == l[k - i];
  }

  /** A string trim leaves alone: empty, or printable at both ends. */
  predicate Trimmed(s: string) {
    s == [] || (s[0] > ' ' && s[|s| - 1] > ' ')
  }

  lemma TrimOfTrimmed(s: string)
    requires Trimmed(s)
    ensures Trim(s) == s
  {
  }

  /** An indented line is trimmed back to its text. */
  lemma TrimIndented(s: string)
    requires s != [] && Trimmed(s)
    ensures Trim("  " + s) == s
  {
    assert ("  " + s)[1..] == " " + s;
    assert (" " + s)[1..] == s;
    assert TrimLeft(s) == s;
    assert TrimLeft("  " + s) == s;
    assert TrimRight(s) == s;
  }

  /** Trimming a line that begins with a printable character keeps that character first. */
  lemma TrimKeepsFirst(s: string)
    requires s != [] && s[0] > ' '
    ensures Trim(s) != [] && Trim(s)[0] == s[0]
  {
  }

  // ---------------------------------------------------------------- prefixes

  /** String.startsWith. */
  predicate StartsWith(s: string, p: string) {
    |p| <= |s| && s[..|p|] == p
  }

  /**
   * String.replace(p, ""): every occurrence of `p`, scanned left to right
   * without overlap, is removed.
   */
  function RemoveAll(s: string, p: string): (r: string)
    requires p != []
    decreases |s|
  {
    if s == [] then []
    else if StartsWith(s, p) then RemoveAll(s[|p|..], p)
    else [s[0]] + RemoveAll(s[1..], p)
  }

  lemma {:induction false} RemoveAllAbsent(s: string, p: string)
    requires p != [] && p[0] !in s
    ensures RemoveAll(s, p) == s
    decreases |s|
  {
    if s != [] {
      assert s[0] != p[0];
      assert !StartsWith(s, p);
      assert forall k :: 0 <= k < |s[1..]| ==> s[1..][k] == s[k + 1];
      RemoveAllAbsent(s[1..], p);
      assert [s[0]] + s[1..] == s;
    }
  }

  /** Removing `p` from `p + s` where `s` holds no first character of `p` leaves `s`. */
  lemma RemovePrefix(p: string, s: string)
    requires p != [] && p[0] !in s
    ensures RemoveAll(p + s, p) == s
  {
    assert StartsWith(p + s, p);
    assert (p + s)[|p|..] == s;
    RemoveAllAbsent(s, p);
  }

  // ---------------------------------------------------------------- case mapping

  function LowerChar(ch: char): char {
    if 'A' <= ch <= 'Z' then (ch as int + 32) as char else ch
  }

  function UpperChar(ch: char): char {
    if 'a' <= ch <= 'z' then (ch as int - 32) as char else ch
  }

  /** String.toLowerCase(), ASCII letters only. */
  function ToLower(s: string): (r: string)
    ensures |r| == |s|
    ensures forall i :: 0 <= i < |s| ==> !('A' <= r[i] <= 'Z')
    ensures forall i :: 0 <= i < |s| ==> ('A' <= s[i] <= 'Z' <==> r[i] != s[i])
    ensures forall i :: 0 <= i < |s| && 'A' <= s[i] <= 'Z' ==> r[i] as int - s[i] as int == 'a' as int - 'A' as int
  {
    seq(|s|, i requires 0 <= i < |s| => LowerChar(s[i]))
  }

  /** String.toUpperCase(), ASCII letters only. */
  function ToUpper(s: string): (r: string)
    ensures |r| == |s|
    ensures forall i :: 0 <= i < |s| ==> !('a' <= r[i] <= 'z')
    ensures forall i :: 0 <= i < |s| ==> ('a' <= s[i] <= 'z' <==> r[i] != s[i])
    ensures forall i :: 0 <= i < |s| && 'a' <= s[i] <= 'z' ==> s[i] as int - r[i] as int == 'a' as int - 'A' as int
  {
    seq(|s|, i requires 0 <= i < |s| => UpperChar(s[i]))
  }

  /** A non-empty word of lower-case ASCII letters. */
  predicate LowerWord(s: string) {
    s != [] && forall i :: 0 <= i < |s| ==> 'a' <= s[i] <= 'z'
  }

  /** Upper-casing a lower-case word gives upper-case letters only, and lower-casing undoes it. */
  lemma UpperLowerWord(s: string)
    requires LowerWord(s)
    ensures forall i :: 0 <= i < |s| ==> 'A' <= ToUpper(s)[i] <= 'Z'
    ensures ToLower(ToUpper(s)) == s
  {
  }

  // ---------------------------------------------------------------- split

  /** The text of `line` before its first space and after it: String.split(" ", 2) of length 2. */
  function SplitFirstSpace(line: string): (r: Option<(string, string)>)
    ensures r.None? <==> ' ' !in line
    ensures r.Some? ==> line == r.value.0 + " " + r.value.1 && ' ' !in r.value.0
  {
    if line == [] then None
    else if line[0] == ' ' then Some(([], line[1..]))
    else match SplitFirstSpace(line[1..])
      case None => None
      case Some(kv) => Some(([line[0]] + kv.0, kv.1))
  }

  /** The pieces with `sep` between consecutive ones. */
  function Joined(ts: seq<string>, sep: char): string
    requires |ts| > 0
  {
    if |ts| == 1 then ts[0] else ts[0] + [sep] + Joined(ts[1..], sep)
  }

  /** Every piece between occurrences of `sep`, empty pieces included. */
  function SplitAll(s: string, sep: char): (r: seq<string>)
    ensures |r| > 0
    ensures forall i :: 0 <= i < |r| ==> sep !in r[i]
    ensures Joined(r, sep) == s
  {
    if s == [] then [[]]
    else
      var rest := SplitAll(s[1..], sep);
      if s[0] == sep then
        assert ([[]] + rest)[1..] == rest;
        [[]] + rest
      else
        var r := [[s[0]] + rest[0]] + rest[1..];
        assert r[1..] == rest[1..];
        assert [s[0]] + s[1..] == s;
        r
  }

  /** The tokens up to the last non-empty one. */
  function DropTrailingEmpty(ts: seq<string>): (r: seq<string>)
    ensures |r| <= |ts| && r == ts[..|r|]
    ensures forall k :: |r| <= k < |ts| ==> ts[k] == []
    ensures r == [] || r[|r| - 1] != []
  {
    if ts != [] && ts[|ts| - 1] == [] then DropTrailingEmpty(ts[..|ts| - 1]) else ts
  }

  /**
   * String.split(sep) for a one-character separator: a string without the
   * separator gives itself; otherwise the pieces, with trailing empty pieces dropped.
   */
  function JavaSplit(s: string, sep: char): seq<string> {
    if sep !in s then [s] else DropTrailingEmpty(SplitAll(s, sep))
  }

  /** The tokens joined by `;`, the way the generator writes a row. */
  function Join(ts: seq<string>): string
  {
    if |ts| == 0 then []
    else if |ts| == 1 then ts[0]
    else Join(ts[..|ts| - 1]) + ";" + ts[|ts| - 1]
  }

  /** Joining one more piece at the back. */
  lemma {:induction false} JoinedSnoc(ts: seq<string>, t: string, sep: char)
    requires |ts| > 0
    ensures Joined(ts + [t], sep) == Joined(ts, sep) + [sep] + t
  {
    if |ts| > 1 {
      assert (ts + [t])[1..] == ts[1..] + [t];
      JoinedSnoc(ts[1..], t, sep);
    }
  }

  /** The generator's row join is the join of the tokens with `;`. */
  lemma {:induction false} JoinIsJoined(ts: seq<string>)
    requires |ts| > 0
    ensures Join(ts) == Joined(ts, ';')
  {
    if |ts| > 1 {
      var init := ts[..|ts| - 1];
      JoinIsJoined(init);
      JoinedSnoc(init, ts[|ts| - 1], ';');
      assert init + [ts[|ts| - 1]] == ts;
    }
  }

  lemma {:induction false} SplitAllNoSep(s: string, sep: char)
    requires sep !in s
    ensures SplitAll(s, sep) == [s]
  {
    if s != [] {
      SplitAllNoSep(s[1..], sep);
      assert [s[0]] + s[1..] == s;
    }
  }

  lemma {:induction false} SplitAllAppend(a: string, b: string, sep: char)
    ensures SplitAll(a + [sep] + b, sep) == SplitAll(a, sep) + SplitAll(b, sep)
  {
    if a == [] {
      assert a + [sep] + b == [sep] + b;
      assert ([sep] + b)[1..] == b;
    } else {
      assert (a + [sep] + b)[1..] == a[1..] + [sep] + b;
      SplitAllAppend(a[1..], b, sep);
    }
  }

  lemma {:induction false} SplitAllJoin(ts: seq<string>)
    requires |ts| > 0
    requires forall i :: 0 <= i < |ts| ==> ';' !in ts[i]
    ensures SplitAll(Join(ts), ';') == ts
  {
    if |ts| == 1 {
      SplitAllNoSep(ts[0], ';');
    } else {
      var init, last := ts[..|ts| - 1], ts[|ts| - 1];
      assert Join(ts) == Join(init) + [';'] + last;
      assert forall i :: 0 <= i < |init| ==> init[i] == ts[i];
      SplitAllJoin(init);
      SplitAllAppend(Join(init), last, ';');
      SplitAllNoSep(last, ';');
      assert init + [last] == ts;
    }
  }

  /** The characters of a join are those of the tokens and the separators. */
  lemma {:induction false} JoinChars(ts: seq<string>, ok: set<char>)
    requires forall i :: 0 <= i < |ts| ==> forall k :: 0 <= k < |ts[i]| ==> ts[i][k] in ok
    ensures forall k :: 0 <= k < |Join(ts)| ==> Join(ts)[k] in ok || Join(ts)[k] == ';'
  {
    if |ts| > 1 {
      JoinChars(ts[..|ts| - 1], ok);
    }
  }

  /** A join of non-empty tokens starts with its first token and ends with its last. */
  lemma {:induction false} JoinEnds(ts: seq<string>)
    requires |ts| > 0
    requires forall i :: 0 <= i < |ts| ==> ts[i] != []
    ensures Join(ts) != []
    ensures Join(ts)[0] == ts[0][0]
    ensures Join(ts)[|Join(ts)| - 1] == ts[|ts| - 1][|ts[|ts| - 1]| - 1]
  {
    if |ts| > 1 {
      JoinEnds(ts[..|ts| - 1]);
    }
  }

  /** Splitting a join of non-empty tokens without separators gives back the tokens. */
  lemma JavaSplitJoin(ts: seq<string>)
    requires |ts| > 0
    requires forall i :: 0 <= i < |ts| ==> ts[i] != [] && ';' !in ts[i]
    ensures JavaSplit(Join(ts), ';') == ts
  {
    SplitAllJoin(ts);
    if ';' !in Join(ts) {
      SplitAllNoSep(Join(ts), ';');
    }
  }

  // ---------------------------------------------------------------- integers

  /** Character.digit(ch, 36) restricted to ASCII: the digit's value, or -1. */
  function DigitValue(ch: char): int {
    if '0' <= ch <= '9' then ch as int - '0' as int
    else if 'a' <= ch <= 'z' then ch as int - 'a' as int + 10
    else if 'A' <= ch <= 'Z' then ch as int - 'A' as int + 10
    else -1
  }

  lemma MulNat(a: nat, b: nat)
    ensures a * b >= 0
  {
  }

  /** The value of a non-empty run of digits in `radix`. */
  function ParseDigits(s: string, radix: nat): (r: Option<nat>)
    requires 2 <= radix <= 36
    ensures r.Some? <==> s != [] && forall k :: 0 <= k < |s| ==> 0 <= DigitValue(s[k]) < radix
  {
    if s == [] then None
    else
      var d := DigitValue(s[|s| - 1]);
      if !(0 <= d < radix) then None
      else if |s| == 1 then Some(d)
      else match ParseDigits(s[..|s| - 1], radix)
        case None => None
        case Some(v) => MulNat(v, radix); Some(v * radix + d)
  }

  /** The value of an optional sign followed by digits, before the range check. */
  function SignedValue(s: string, radix: nat): Option<int>
    requires 2 <= radix <= 36
    requires s != []
  {
    if s[0] == '-' || s[0] == '+' then
      match ParseDigits(s[1..], radix)
      case None => None
      case Some(n) => if s[0] == '-' then Some(-(n as int)) else Some(n as int)
    else
      match ParseDigits(s, radix)
      case None => None
      case Some(n) => Some(n as int)
  }

  /**
   * Integer.parseInt(s, radix): an optional sign followed by at least one digit;
   * NumberFormatException (None) for anything else and for values outside `int`.
   */
  function ParseInt(s: string, radix: nat): (r: Option<int>)
    requires 2 <= radix <= 36
    ensures r.Some? ==> IsInt32(r.value)
  {
    if s == [] then None
    else
      var v := SignedValue(s, radix);
      if v.Some? && IsInt32(v.value) then v else None
  }

  /**
   * When Integer.parseInt succeeds: the text is an optional `-` or `+` and a run of
   * digits whose signed value fits in an int, and the result is that value.
   */
  lemma ParseIntSpec(s: string, radix: nat)
    requires 2 <= radix <= 36
    ensures var signed := s != [] && (s[0] == '-' || s[0] == '+');
            var digits := ParseDigits(if signed then s[1..] else s, radix);
            var v := if s != [] && s[0] == '-' && digits.Some? then -(digits.value as int)
                     else if digits.Some? then digits.value as int else 0;
            var r := ParseInt(s, radix);
            && (r.Some? <==> s != [] && digits.Some? && IsInt32(v))
            && (r.Some? ==> r.value == v)
  {
  }

  function DecimalDigit(d: nat): (ch: char)
    requires d < 10
    ensures '0' <= ch <= '9' && DigitValue(ch) == d
  {
    ('0' as int + d) as char
  }

  /** Decimal digits of a natural number, no leading zeros. */
  function NatToString(n: nat): (s: string)
    ensures s != []
    ensures forall k :: 0 <= k < |s| ==> '0' <= s[k] <= '9'
  {
    if n < 10 then [DecimalDigit(n)] else NatToString(n / 10) + [DecimalDigit(n % 10)]
  }

  /** Integer.toString(i). */
  function IntToString(i: int): (s: string)
    ensures s != [] && '0' <= s[|s| - 1] <= '9'
    ensures forall k :: 0 <= k < |s| ==> ('0' <= s[k] <= '9') || s[k] == '-'
  {
    if i < 0 then "-" + NatToString(-i) else NatToString(i)
  }

  lemma {:induction false} ParseNatToString(n: nat)
    ensures ParseDigits(NatToString(n), 10) == Some(n)
  {
    if n >= 10 {
      var s := NatToString(n);
      ParseNatToString(n / 10);
      assert s[..|s| - 1] == NatToString(n / 10);
    }
  }

  lemma SignedNegative(n: nat)
    ensures SignedValue("-" + NatToString(n), 10) == Some(-(n as int))
  {
    var s := "-" + NatToString(n);
    ParseNatToString(n);
    assert s[0] == '-' && s[1..] == NatToString(n);
  }

  lemma SignedNatural(n: nat)
    ensures SignedValue(NatToString(n), 10) == Some(n)
  {
    var s := NatToString(n);
    ParseNatToString(n);
    assert '0' <= s[0] <= '9';
  }

  /** Integer.parseInt reads back what Integer.toString wrote. */
  lemma ParseIntToString(i: int)
    requires IsInt32(i)
    ensures ParseInt(IntToString(i), 10) == Some(i)
  {
    var s := IntToString(i);
    if i < 0 {
      SignedNegative(-i);
      assert s == "-" + NatToString(-i);
    } else {
      SignedNatural(i);
      assert s == NatToString(i);
    }
    assert s != [] && SignedValue(s, 10) == Some(i);
  }

  const HEX_DIGITS: string := "0123456789abcdef"

  /** Integer.toHexString(b) for 0 <= b < 256: one or two lower-case digits, no padding. */
  function HexToken(b: nat): (s: string)
    requires b < 256
    ensures 1 <= |s| <= 2
    ensures forall k :: 0 <= k < |s| ==> s[k] in HEX_DIGITS
    ensures |s| == 1 <==> b < 16
    ensures |s| == 2 ==> s[0] != '0'
  {
    if b < 16 then [HEX_DIGITS[b]] else [HEX_DIGITS[b / 16], HEX_DIGITS[b % 16]]
  }

  lemma HexDigitValue(d: nat)
    requires d < 16
    ensures DigitValue(HEX_DIGITS[d]) == d
  {
  }

  lemma ParseHexPair(hi: nat, lo: nat)
    requires hi < 16 && lo < 16
    ensures ParseDigits([HEX_DIGITS[hi], HEX_DIGITS[lo]], 16) == Some(hi * 16 + lo)
  {
    var s := [HEX_DIGITS[hi], HEX_DIGITS[lo]];
    HexDigitValue(hi);
    HexDigitValue(lo);
    assert s[..1] == [HEX_DIGITS[hi]];
  }

  lemma ParseHexDigits(b: nat)
    requires b < 256
    ensures ParseDigits(HexToken(b), 16) == Some(b)
  {
    if b < 16 {
      HexDigitValue(b);
    } else {
      ParseHexPair(b / 16, b % 16);
    }
  }

  /** Integer.parseInt(_, 16) reads back what Integer.toHexString wrote. */
  lemma ParseHexToken(b: nat)
    requires b < 256
    ensures ParseInt(HexToken(b), 16) == Some(b as int)
  {
    var s := HexToken(b);
    assert s[0] in HEX_DIGITS;
    assert s[0] != '-' && s[0] != '+';
    ParseHexDigits(b);
  }
}
