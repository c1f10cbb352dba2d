/**
 * String helpers the message texts are built from: decimal rendering of
 * counts (`${n}` in a template literal), `padStart`, `Array.prototype.join`
 * and `String.prototype.split` on one character. Each rendering function has
 * a parser here that undoes it.
 */
module Text {
  import opened Wrappers

  predicate IsDigit(c: char)
  {
    '0' <= c <= '9'
  }

  predicate AllDigits(s: string)
  {
    forall i :: 0 <= i < |s| ==> IsDigit(s[i])
  }

  function DigitChar(d: nat): (c: char)
    requires d < 10
    ensures IsDigit(c)
  {
    (('0' as int) + d) as char
  }

  function DigitValue(c: char): (d: nat)
    requires IsDigit(c)
    ensures d < 10
  {
    c as int - '0' as int
  }

  /** Decimal rendering of a count, without leading zeros. */
  function NatToString(n: nat): (s: string)
    ensures 1 <= |s| && AllDigits(s)
    ensures s[0] == '0' ==> n == 0
    decreases n
  {
    if n < 10 then [DigitChar(n)] else NatToString(n / 10) + [DigitChar(n % 10)]
  }

  /** The number a string of decimal digits denotes; leading zeros are allowed. */
  function DigitsValue(s: string): nat
    requires AllDigits(s)
    decreases |s|
  {
    if s == [] then 0 else DigitsValue(s[..|s| - 1]) * 10 + DigitValue(s[|s| - 1])
  }

  /** Reads a whole string as a decimal number. */
  function ParseNat(s: string): Option<nat>
  {
    if s != [] && AllDigits(s) then Some(DigitsValue(s)) else None
  }

  lemma {:induction false} DigitsValueOfNatToString(n: nat)
    ensures DigitsValue(NatToString(n)) == n
    decreases n
  {
    if n >= 10 {
      DigitsValueOfNatToString(n / 10);
      var s := NatToString(n);
      assert s[..|s| - 1] == NatToString(n / 10);
    }
  }

  /** Number of leading decimal digits of `s`. */
  function DigitRun(s: string): (k: nat)
    ensures k <= |s|
    ensures AllDigits(s[..k])
    ensures k < |s| ==> !IsDigit(s[k])
    decreases |s|
  {
    if s != [] && IsDigit(s[0]) then
      var k := 1 + DigitRun(s[1..]);
      assert s[..k] == [s[0]] + s[1..][..k - 1];
      k
    else 0
  }

  /**
   * Reads the longest non-empty run of digits at the front of `s`, returning
   * its value and what follows. A run of more than one digit that starts with
   * `'0'` is rejected, since `${n}` never prints one.
   */
  function ReadNat(s: string): Option<(nat, string)>
  {
    var k := DigitRun(s);
    if k == 0 || (1 < k && s[0] == '0') then None else Some((DigitsValue(s[..k]), s[k..]))
  }

  lemma {:induction false} DigitRunOfDigits(d: string, rest: string)
    requires AllDigits(d)
    requires rest == [] || !IsDigit(rest[0])
    ensures DigitRun(d + rest) == |d|
    decreases |d|
  {
    if d != [] {
      assert (d + rest)[1..] == d[1..] + rest;
      DigitRunOfDigits(d[1..], rest);
    }
  }

  /** A rendered count followed by a non-digit is read back exactly. */
  lemma ReadNatToString(n: nat, rest: string)
    requires rest == [] || !IsDigit(rest[0])
    ensures ReadNat(NatToString(n) + rest) == Some((n, rest))
  {
    var d := NatToString(n);
    DigitRunOfDigits(d, rest);
    assert n == 0 ==> d == "0";
    assert (d + rest)[..|d|] == d;
    assert (d + rest)[|d|..] == rest;
    DigitsValueOfNatToString(n);
  }

  /** `String.prototype.padStart(width, fill)` for a one-character fill. */
  function PadStart(s: string, width: nat, fill: char): (r: string)
    ensures |r| == if |s| >= width then |s| else width
    ensures r[|r| - |s|..] == s
    ensures forall i :: 0 <= i < |r| - |s| ==> r[i] == fill
  {
    if |s| >= width then s else seq(width - |s|, _ => fill) + s
  }

  lemma {:induction false} DigitsValueOfZeros(z: string)
    requires forall i :: 0 <= i < |z| ==> z[i] == '0'
    ensures AllDigits(z) && DigitsValue(z) == 0
    decreases |z|
  {
    if z != [] {
      DigitsValueOfZeros(z[..|z| - 1]);
    }
  }

  /** Leading zeros do not change the value of a digit string. */
  lemma {:induction false} DigitsValueLeadingZeros(z: string, s: string)
    requires forall i :: 0 <= i < |z| ==> z[i] == '0'
    requires AllDigits(s)
    ensures AllDigits(z + s) && DigitsValue(z + s) == DigitsValue(s)
    decreases |s|
  {
    if s == [] {
      assert z + s == z;
      DigitsValueOfZeros(z);
    } else {
      var t := z + s;
      assert t[..|t| - 1] == z + s[..|s| - 1];
      DigitsValueLeadingZeros(z, s[..|s| - 1]);
    }
  }

  /** A count zero-padded to `width` digits still reads back as the count. */
  lemma PaddedNatReadsBack(n: nat, width: nat)
    ensures ParseNat(PadStart(NatToString(n), width, '0')) == Some(n)
  {
    var d := NatToString(n);
    var r := PadStart(d, width, '0');
    var z := r[..|r| - |d|];
    assert r == z + d;
    DigitsValueLeadingZeros(z, d);
    DigitsValueOfNatToString(n);
  }

  /**
   * Text that `padStart(width, '0')` of a rendered count can print: at least
   * `width` digits, with a leading zero only when no longer than `width`.
   */
  predicate PaddedNumeral(s: string, width: nat)
  {
    && 1 <= |s| && width <= |s| && AllDigits(s)
    && (width < |s| ==> s[0] != '0')
  }

  /** A digit string without a leading zero is the rendering of its value. */
  lemma {:induction false} NatToStringOfDigits(s: string)
    requires 1 <= |s| && AllDigits(s) && s[0] != '0'
    ensures 1 <= DigitsValue(s) && NatToString(DigitsValue(s)) == s
    decreases |s|
  {
    var p := s[..|s| - 1];
    if |s| == 1 {
      assert p == [];
    } else {
      NatToStringOfDigits(p);
      var n := DigitsValue(s);
      assert n / 10 == DigitsValue(p) && n % 10 == DigitValue(s[|s| - 1]);
      assert s == p + [s[|s| - 1]];
    }
  }

  /** Number of leading `'0'` characters of `s`. */
  function LeadingZeros(s: string): (k: nat)
    ensures k <= |s|
    ensures forall i :: 0 <= i < k ==> s[i] == '0'
    ensures k < |s| ==> s[k] != '0'
    decreases |s|
  {
    if s != [] && s[0] == '0' then 1 + LeadingZeros(s[1..]) else 0
  }

  /** Every count zero-padded to a positive width is a padded numeral of that width. */
  lemma PaddedIsNumeral(n: nat, width: nat)
    requires 1 <= width
    ensures PaddedNumeral(PadStart(NatToString(n), width, '0'), width)
  {
    var d := NatToString(n);
    var r := PadStart(d, width, '0');
    forall i | 0 <= i < |r|
      ensures IsDigit(r[i])
    {
      if i >= |r| - |d| {
        assert r[i] == r[|r| - |d|..][i - (|r| - |d|)];
      }
    }
    if width < |r| {
      assert r == d;
      assert n < 10 ==> |d| == 1;
    }
  }

  /** `s` is `d` padded with zeros to `width`, pointwise. */
  lemma PadStartOfZerosThen(d: string, width: nat, s: string)
    requires |s| == if |d| >= width then |d| else width
    requires s[|s| - |d|..] == d
    requires forall i :: 0 <= i < |s| - |d| ==> s[i] == '0'
    ensures PadStart(d, width, '0') == s
  {
    var r := PadStart(d, width, '0');
    forall i | 0 <= i < |s|
      ensures r[i] == s[i]
    {
      if i >= |r| - |d| {
        assert r[i] == r[|r| - |d|..][i - (|r| - |d|)];
        assert s[i] == s[|s| - |d|..][i - (|s| - |d|)];
      }
    }
  }

  /** A padded numeral of zeros only is the padded rendering of 0. */
  lemma ZerosReadBack(s: string, width: nat)
    requires PaddedNumeral(s, width)
    requires forall i :: 0 <= i < |s| ==> s[i] == '0'
    ensures DigitsValue(s) == 0 && PadStart(NatToString(0), width, '0') == s
  {
    DigitsValueOfZeros(s);
    assert NatToString(0) == "0";
    assert s[|s| - 1..] == "0";
    PadStartOfZerosThen("0", width, s);
  }

  /** A padded numeral with a non-zero digit is its leading zeros and then the rendering of its value. */
  lemma NonZeroReadsBack(s: string, width: nat, k: nat)
    requires PaddedNumeral(s, width)
    requires k < |s| && s[k] != '0' && forall i :: 0 <= i < k ==> s[i] == '0'
    ensures PadStart(NatToString(DigitsValue(s)), width, '0') == s
  {
    var z, t := s[..k], s[k..];
    assert s == z + t;
    DigitsValueLeadingZeros(z, t);
    NatToStringOfDigits(t);
    PadStartOfZerosThen(t, width, s);
  }

  /** A padded numeral is exactly the padded rendering of the count it denotes. */
  lemma PaddedNumeralReadsBack(s: string, width: nat)
    requires PaddedNumeral(s, width)
    ensures ParseNat(s).Some? && PadStart(NatToString(ParseNat(s).value), width, '0') == s
  {
    var k := LeadingZeros(s);
    if k == |s| {
      ZerosReadBack(s, width);
    } else {
      NonZeroReadsBack(s, width, k);
    }
  }

  /** Whatever `ReadNat` reads is the rendering of the number it yields, followed by the rest. */
  lemma ReadNatInverse(s: string)
    requires ReadNat(s).Some?
    ensures s == NatToString(ReadNat(s).value.0) + ReadNat(s).value.1
  {
    var k := DigitRun(s);
    var digits := s[..k];
    assert s == digits + s[k..];
    if s[0] == '0' {
      assert digits == "0";
      assert DigitsValue(digits) == 0 by {
        assert digits[..0] == [];
      }
    } else {
      NatToStringOfDigits(digits);
    }
  }

  /** `Array.prototype.join(sep)` on strings. */
  function Join(parts: seq<string>, sep: string): string
    decreases |parts|
  {
    if |parts| == 0 then ""
    else if |parts| == 1 then parts[0]
    else parts[0] + sep + Join(parts[1..], sep)
  }

  /** Index of the first occurrence of `c` in `s`. */
  function IndexOf(s: string, c: char): (i: nat)
    requires c in s
    ensures i < |s| && s[i] == c && c !in s[..i]
    decreases |s|
  {
    if s[0] == c then 0 else 1 + IndexOf(s[1..], c)
  }

  /** `String.prototype.split(sep)` for a one-character separator. */
  function Split(s: string, sep: char): (parts: seq<string>)
    ensures |parts| >= 1
    ensures forall i :: 0 <= i < |parts| ==> sep !in parts[i]
    decreases |s|
  {
    if sep in s then
      var i := IndexOf(s, sep);
      [s[..i]] + Split(s[i + 1..], sep)
    else [s]
  }

  /** Splitting and joining again on the same character gives back the string. */
  lemma {:induction false} JoinSplit(s: string, sep: char)
    ensures Join(Split(s, sep), [sep]) == s
    decreases |s|
  {
    if sep in s {
      var i := IndexOf(s, sep);
      var tail := Split(s[i + 1..], sep);
      JoinSplit(s[i + 1..], sep);
      assert Split(s, sep)[1..] == tail;
      assert Join(Split(s, sep), [sep]) == s[..i] + [sep] + Join(tail, [sep]);
      assert s == s[..i] + [sep] + s[i + 1..];
    }
  }

  /** Splitting after a separator-free piece yields that piece first. */
  lemma SplitAfterPiece(a: string, sep: char, b: string)
    requires sep !in a
    ensures Split(a + [sep] + b, sep) == [a] + Split(b, sep)
  {
    var s := a + [sep] + b;
    assert s[|a|] == sep;
    assert s[..|a|] == a;
    var i := IndexOf(s, sep);
    assert s[..i] == a;
    assert s[i + 1..] == b;
  }

  /** A piece without the separator splits to itself. */
  lemma SplitPiece(a: string, sep: char)
    requires sep !in a
    ensures Split(a, sep) == [a]
  {
  }

  function LowerAscii(c: char): char
  {
    if 'A' <= c <= 'Z' then (c as int + 32) as char else c
  }

  /** Equality up to ASCII letter case. */
  predicate EqualsIgnoringCase(s: string, t: string)
  {
    |s| == |t| && forall i :: 0 <= i < |s| ==> LowerAscii(s[i]) == LowerAscii(t[i])
  }
}
