/** Text operations the storefront pages rely on: ASCII lower-casing,
    `String.prototype.includes`, joining and splitting lines, and the decimal
    rendering and parsing of the integers this model uses for ids, quantities
    and money (amounts are whole cents). */
module Strings {
  import opened Wrappers

  // ----- Case mapping (`toLowerCase`, restricted to ASCII) -----

  function LowerChar(c: char): char {
    if 'A' <= c <= 'Z' then (c as int + 32) as char else c
  }

  function Lower(s: string): string {
    seq(|s|, i requires 0 <= i < |s| => LowerChar(s[i]))
  }

  // ----- Substring search (`includes`) -----

  /** `hay.includes(needle)`: tried at every start position from the left. */
  function Includes(hay: string, needle: string): bool
    decreases |hay|
  {
    |needle| <= |hay| && (hay[..|needle|] == needle || Includes(hay[1..], needle))
  }

  /** `needle` sits in `hay` starting at index `i`. */
  predicate OccursAt(hay: string, needle: string, i: int) {
    0 <= i <= |hay| - |needle| && hay[i..i + |needle|] == needle
  }

  /** The search above succeeds exactly when some window of `hay` is `needle`. */
  lemma {:induction false} IncludesIff(hay: string, needle: string)
    ensures Includes(hay, needle) <==> exists i :: OccursAt(hay, needle, i)
    decreases |hay|
  {
    if |needle| <= |hay| {
      if hay[..|needle|] == needle {
        assert OccursAt(hay, needle, 0);
      } else {
        IncludesIff(hay[1..], needle);
        if Includes(hay[1..], needle) {
          var j :| OccursAt(hay[1..], needle, j);
          assert hay[j + 1..j + 1 + |needle|] == hay[1..][j..j + |needle|];
          assert OccursAt(hay, needle, j + 1);
        }
        if exists i :: OccursAt(hay, needle, i) {
          var i :| OccursAt(hay, needle, i);
          assert i != 0;
          assert hay[1..][i - 1..i - 1 + |needle|] == hay[i..i + |needle|];
          assert OccursAt(hay[1..], needle, i - 1);
        }
      }
    } else {
      assert forall i :: !OccursAt(hay, needle, i);
    }
  }

  /** Whatever is written into the middle of a text can be found in it. */
  lemma IncludesMiddle(a: string, b: string, c: string)
    ensures Includes(a + b + c, b)
  {
    var s := a + b + c;
    assert s[|a|..|a| + |b|] == b;
    assert OccursAt(s, b, |a|);
    IncludesIff(s, b);
  }

  // ----- Lines -----

  /** `parts.join(sep)`. */
  function Join(parts: seq<string>, sep: char): string {
    if |parts| == 0 then ""
    else if |parts| == 1 then parts[0]
    else parts[0] + [sep] + Join(parts[1..], sep)
  }

  /** `s.split(sep)`: the pieces between the separators, always at least one. */
  function Split(s: string, sep: char): (r: seq<string>)
    ensures |r| >= 1
  {
    if |s| == 0 then [""]
    else
      var rest := Split(s[1..], sep);
      if s[0] == sep then [""] + rest else [[s[0]] + rest[0]] + rest[1..]
  }

  lemma {:induction false} SplitFree(a: string, sep: char)
    requires sep !in a
    ensures Split(a, sep) == [a]
  {
    if |a| > 0 {
      SplitFree(a[1..], sep);
      assert [a[0]] + a[1..] == a;
    }
  }

  lemma {:induction false} SplitAfter(a: string, sep: char, rest: string)
    requires sep !in a
    ensures Split(a + [sep] + rest, sep) == [a] + Split(rest, sep)
  {
    if |a| == 0 {
      assert a + [sep] + rest == [sep] + rest;
      assert ([sep] + rest)[1..] == rest;
    } else {
      var s := a + [sep] + rest;
      assert s[1..] == a[1..] + [sep] + rest;
      SplitAfter(a[1..], sep, rest);
      assert [a[0]] + a[1..] == a;
    }
  }

  /** Splitting undoes joining when no part contains the separator. */
  lemma {:induction false} SplitJoin(parts: seq<string>, sep: char)
    requires |parts| >= 1
    requires forall i :: 0 <= i < |parts| ==> sep !in parts[i]
    ensures Split(Join(parts, sep), sep) == parts
  {
    if |parts| == 1 {
      SplitFree(parts[0], sep);
    } else {
      SplitJoin(parts[1..], sep);
      SplitAfter(parts[0], sep, Join(parts[1..], sep));
      assert [parts[0]] + parts[1..] == parts;
    }
  }

  /** Joining two non-empty runs of parts puts one separator between them. */
  lemma {:induction false} JoinAppend(a: seq<string>, b: seq<string>, sep: char)
    requires |a| >= 1 && |b| >= 1
    ensures Join(a + b, sep) == Join(a, sep) + [sep] + Join(b, sep)
  {
    if |a| == 1 {
      assert (a + b)[1..] == b;
    } else {
      assert (a + b)[1..] == a[1..] + b;
      JoinAppend(a[1..], b, sep);
    }
  }

  // ----- Decimal rendering -----

  predicate IsDecimalDigit(c: char) {
    '0' <= c <= '9'
  }

  function DigitChar(d: nat): char
    requires d < 10
  {
    ('0' as int + d) as char
  }

  /** `n.toString()` for a non-negative integer. */
  function NatToString(n: nat): (r: string)
    ensures |r| >= 1
    ensures forall i :: 0 <= i < |r| ==> IsDecimalDigit(r[i])
    ensures |r| > 1 ==> r[0] != '0'
  {
    if n < 10 then [DigitChar(n)] else NatToString(n / 10) + [DigitChar(n % 10)]
  }

  /** `(cents / 100).toFixed(2)`: whole units, a point, exactly two decimals. */
  function Fixed2(cents: nat): string {
    NatToString(cents / 100) + "." + [DigitChar(cents % 100 / 10), DigitChar(cents % 10)]
  }

  /** `String(cents / 100)`: JavaScript prints no trailing zero in the fraction
      and no point at all for a whole amount. */
  function PriceText(cents: nat): string {
    if cents % 100 == 0 then NatToString(cents / 100)
    else if cents % 10 == 0 then NatToString(cents / 100) + "." + [DigitChar(cents % 100 / 10)]
    else Fixed2(cents)
  }

  // ----- Decimal and hexadecimal parsing -----

  /** Value of `c` as a digit in any radix up to 36, or 36 when it is none. */
  function DigitValue(c: char): nat {
    if '0' <= c <= '9' then c as int - '0' as int
    else if 'a' <= c <= 'z' then c as int - 'a' as int + 10
    else if 'A' <= c <= 'Z' then c as int - 'A' as int + 10
    else 36
  }

  /** The longest prefix of `s` made of digits of the given radix. */
  function DigitsPrefix(s: string, radix: nat): (r: string)
    ensures r <= s
    ensures forall i :: 0 <= i < |r| ==> DigitValue(r[i]) < radix
    ensures |r| < |s| ==> DigitValue(s[|r|]) >= radix
  {
    if |s| == 0 || DigitValue(s[0]) >= radix then ""
    else [s[0]] + DigitsPrefix(s[1..], radix)
  }

  /** The number a digit string denotes, most significant digit first. */
  function DigitsValue(d: string, radix: nat): nat {
    if |d| == 0 then 0
    else DigitsValue(d[..|d| - 1], radix) * radix + DigitValue(d[|d| - 1])
  }

  lemma {:induction false} NatToStringValue(n: nat)
    ensures DigitsValue(NatToString(n), 10) == n
  {
    if n >= 10 {
      var s := NatToString(n);
      assert s[..|s| - 1] == NatToString(n / 10);
      NatToStringValue(n / 10);
    }
  }

  lemma {:induction false} DigitsPrefixStops(d: string, rest: string, radix: nat)
    requires forall i :: 0 <= i < |d| ==> DigitValue(d[i]) < radix
    requires |rest| == 0 || DigitValue(rest[0]) >= radix
    ensures DigitsPrefix(d + rest, radix) == d
  {
    if |d| > 0 {
      assert (d + rest)[1..] == d[1..] + rest;
      DigitsPrefixStops(d[1..], rest, radix);
      assert [d[0]] + d[1..] == d;
    } else {
      assert d + rest == rest;
    }
  }

  /** White space that `parseInt` skips (the ASCII part of it). */
  predicate IsJsSpace(c: char) {
    c == ' ' || c == '\t' || c == '\n' || c == '\r' || c == '\U{000B}' || c == '\U{000C}'
  }

  function TrimStart(s: string): (r: string)
    ensures |r| <= |s| && r == s[|s| - |r|..]
    ensures |r| > 0 ==> !IsJsSpace(r[0])
  {
    if |s| > 0 && IsJsSpace(s[0]) then TrimStart(s[1..]) else s
  }

  /** The unsigned part of `parseInt`: a `0x`/`0X` prefix selects radix 16,
      otherwise radix 10, and the longest run of digits that follows is
      converted; trailing text is ignored. No digits there means `NaN`. */
  function ParseUnsigned(u: string): Option<nat> {
    var hex := |u| >= 2 && u[0] == '0' && (u[1] == 'x' || u[1] == 'X');
    var radix := if hex then 16 else 10;
    var digits := DigitsPrefix(if hex then u[2..] else u, radix);
    if |digits| == 0 then None else Some(DigitsValue(digits, radix))
  }

  function Negated(magnitude: Option<nat>): Option<int> {
    match magnitude
    case None => None
    case Some(v) =>
      var negative: int := -(v as int);
      Some(negative)
  }

  /** `parseInt(s)` with no radix argument: leading white space is skipped and
      an optional sign is read before the unsigned part. `NaN` is `None`. */
  function ParseInt(s: string): Option<int> {
    var t := TrimStart(s);
    if |t| > 0 && t[0] == '-' then Negated(ParseUnsigned(t[1..]))
    else if |t| > 0 && t[0] == '+' then ParseUnsigned(t[1..])
    else ParseUnsigned(t)
  }

  lemma ParseUnsignedNatToString(n: nat, rest: string)
    requires |rest| == 0 || (DigitValue(rest[0]) >= 10 && (n != 0 || (rest[0] != 'x' && rest[0] != 'X')))
    ensures ParseUnsigned(NatToString(n) + rest) == Some(n)
  {
    var s := NatToString(n) + rest;
    assert !(|s| >= 2 && s[0] == '0' && (s[1] == 'x' || s[1] == 'X')) by {
      if |NatToString(n)| == 1 {
        if n != 0 {
          assert s[0] != '0';
        } else {
          assert |s| >= 2 ==> s[1] == rest[0];
        }
      } else {
        assert s[0] == NatToString(n)[0];
      }
    }
    DigitsPrefixStops(NatToString(n), rest, 10);
    NatToStringValue(n);
  }

  /** A text that starts with a decimal digit has no blank or sign to skip. */
  lemma ParseIntFromDigit(s: string)
    requires |s| > 0 && IsDecimalDigit(s[0])
    ensures ParseInt(s) == ParseUnsigned(s)
  {
    assert !IsJsSpace(s[0]);
    assert TrimStart(s) == s;
    assert s[0] != '-' && s[0] != '+';
  }

  /** `parseInt` reads back what `toString` writes, whatever non-digit text
      follows (other than an `x` right after a lone `0`, which would switch to
      radix 16: `parseInt("12x")` is 12, `parseInt("0x1")` is 1). */
  lemma ParseIntNatToString(n: nat, rest: string)
    requires |rest| == 0 || (DigitValue(rest[0]) >= 10 && (n != 0 || (rest[0] != 'x' && rest[0] != 'X')))
    ensures ParseInt(NatToString(n) + rest) == Some(n)
  {
    var digits := NatToString(n);
    var s := digits + rest;
    assert IsDecimalDigit(digits[0]);
    assert s[0] == digits[0];
    ParseIntFromDigit(s);
    ParseUnsignedNatToString(n, rest);
  }

  /** `String(k)` for an integer `k`: a minus sign before the digits of a
      negative number. */
  function IntText(k: int): (r: string)
    ensures k >= 0 ==> r == NatToString(k)
    ensures k < 0 ==> r == "-" + NatToString(-k)
  {
    if k < 0 then "-" + NatToString(-k) else NatToString(k)
  }

  /** `parseInt` reads back any printed integer, negative ones included,
      whatever non-digit text follows (other than an `x` after a lone `0`). */
  lemma ParseIntIntText(k: int, rest: string)
    requires |rest| == 0 || (DigitValue(rest[0]) >= 10 && (k != 0 || (rest[0] != 'x' && rest[0] != 'X')))
    ensures ParseInt(IntText(k) + rest) == Some(k)
  {
    if k >= 0 {
      ParseIntNatToString(k, rest);
    } else {
      ParseIntNegative(-k, rest);
    }
  }

  lemma ParseIntNegative(m: nat, rest: string)
    requires |rest| == 0 || (DigitValue(rest[0]) >= 10 && (m != 0 || (rest[0] != 'x' && rest[0] != 'X')))
    ensures ParseInt("-" + NatToString(m) + rest) == Negated(Some(m))
  {
    var t := NatToString(m) + rest;
    assert "-" + NatToString(m) + rest == "-" + t;
    ParseIntMinus(t);
    ParseUnsignedNatToString(m, rest);
  }

  /** A leading minus sign negates what follows. */
  lemma ParseIntMinus(t: string)
    ensures ParseInt("-" + t) == Negated(ParseUnsigned(t))
  {
    var s := "-" + t;
    assert !IsJsSpace(s[0]);
    assert TrimStart(s) == s;
    assert s[1..] == t;
  }

  /** The cents denoted by an amount written as `units[.d[d]]`, the way
      `Fixed2` and `PriceText` write it. */
  function CentsOf(s: string): nat {
    var parts := Split(s, '.');
    var frac := if |parts| > 1 then parts[1] else "";
    DigitsValue(parts[0], 10) * 100 +
      (if |frac| == 0 then 0
       else if |frac| == 1 then DigitsValue(frac, 10) * 10
       else DigitsValue(frac[..2], 10))
  }

  lemma NoPointInDigits(n: nat)
    ensures '.' !in NatToString(n) && '\n' !in NatToString(n)
  {
    var s := NatToString(n);
    assert forall i :: 0 <= i < |s| ==> IsDecimalDigit(s[i]);
  }

  /** Reading an amount written with a point: the whole part and the fraction. */
  lemma ReadUnitsAndFraction(n: nat, frac: string)
    requires forall i :: 0 <= i < |frac| ==> IsDecimalDigit(frac[i])
    ensures Split(NatToString(n) + "." + frac, '.') == [NatToString(n), frac]
  {
    NoPointInDigits(n);
    assert '.' !in frac by {
      assert forall i :: 0 <= i < |frac| ==> IsDecimalDigit(frac[i]);
    }
    assert NatToString(n) + "." + frac == Join([NatToString(n), frac], '.');
    SplitJoin([NatToString(n), frac], '.');
  }

  /** `toFixed(2)` loses nothing: the amount reads back to the same cents. */
  lemma {:induction false} Fixed2RoundTrip(cents: nat)
    ensures CentsOf(Fixed2(cents)) == cents
  {
    var frac := [DigitChar(cents % 100 / 10), DigitChar(cents % 10)];
    ReadUnitsAndFraction(cents / 100, frac);
    NatToStringValue(cents / 100);
    assert frac[..2] == frac;
    assert frac[..1] == [DigitChar(cents % 100 / 10)];
    assert [DigitChar(cents % 100 / 10)][..0] == [];
    assert DigitValue(frac[0]) == cents % 100 / 10;
    assert DigitValue(frac[1]) == cents % 10;
    assert DigitsValue(frac[..1], 10) == cents % 100 / 10;
  }

  /** Printing a price as JavaScript does loses nothing either. */
  lemma {:induction false} PriceTextRoundTrip(cents: nat)
    ensures CentsOf(PriceText(cents)) == cents
  {
    NatToStringValue(cents / 100);
    if cents % 100 == 0 {
      NoPointInDigits(cents / 100);
      SplitFree(NatToString(cents / 100), '.');
    } else if cents % 10 == 0 {
      var frac := [DigitChar(cents % 100 / 10)];
      ReadUnitsAndFraction(cents / 100, frac);
      assert frac[..0] == [];
      assert DigitsValue(frac, 10) * 10 == cents % 100;
    } else {
      Fixed2RoundTrip(cents);
    }
  }
}
