/**
 * The JavaScript built-ins the two pages rely on, written out so that their
 * behaviour at the edges is explicit: `String.prototype.split` with a
 * one-character separator, the global `parseInt` (ECMAScript 2023,
 * section 19.2.5), the decimal text of an integer `Number`, and the
 * truncating remainder operator `%`.
 */
module JsText {
  import opened Wrappers

  // ---------------------------------------------------------------------
  // String.prototype.split(sep) for a one-character separator
  // ---------------------------------------------------------------------

  /** The fields of `s` between occurrences of `sep`; never empty, since
      `"".split(":")` is `[""]`. */
  function Split(s: string, sep: char): (fields: seq<string>)
    ensures |fields| >= 1
    decreases |s|
  {
    if s == [] then [""]
    else
      var rest := Split(s[1..], sep);
      if s[0] == sep then [""] + rest
      else [[s[0]] + rest[0]] + rest[1..]
  }

  /** No field contains the separator. */
  lemma {:induction false} SplitFieldsAreSeparatorFree(s: string, sep: char)
    ensures forall i :: 0 <= i < |Split(s, sep)| ==> sep !in Split(s, sep)[i]
    decreases |s|
  {
    if s != [] {
      SplitFieldsAreSeparatorFree(s[1..], sep);
      var rest := Split(s[1..], sep);
      var fs := Split(s, sep);
      if s[0] != sep {
        assert forall i :: 1 <= i < |fs| ==> fs[i] == rest[i];
      } else {
        assert forall i :: 1 <= i < |fs| ==> fs[i] == rest[i - 1];
      }
    }
  }

  /** `Array.prototype.join(sep)`: the inverse of `Split`. */
  function Join(fields: seq<string>, sep: char): string
    requires |fields| >= 1
  {
    if |fields| == 1 then fields[0] else fields[0] + [sep] + Join(fields[1..], sep)
  }

  /** Joining the fields again gives back the original string. */
  lemma {:induction false} JoinSplit(s: string, sep: char)
    ensures Join(Split(s, sep), sep) == s
    decreases |s|
  {
    if s != [] {
      var rest := Split(s[1..], sep);
      JoinSplit(s[1..], sep);
      if s[0] == sep {
        assert Split(s, sep)[1..] == rest;
      } else {
        var fs := Split(s, sep);
        assert fs[0] == [s[0]] + rest[0];
        if |rest| == 1 {
          assert |fs| == 1;
        } else {
          assert fs[1..] == rest[1..];
          assert Join(rest, sep) == rest[0] + [sep] + Join(rest[1..], sep);
        }
      }
    }
  }

  /** A text without the separator is a single field. */
  lemma {:induction false} SplitNoSeparator(a: string, sep: char)
    requires sep !in a
    ensures Split(a, sep) == [a]
    decreases |a|
  {
    if a != [] {
      assert a[0] in a;
      SplitNoSeparator(a[1..], sep);
      assert [a[0]] + a[1..] == a;
    }
  }

  /** The first field is exactly the text before the first separator. */
  lemma {:induction false} SplitAtFirst(a: string, sep: char, b: string)
    requires sep !in a
    ensures Split(a + [sep] + b, sep) == [a] + Split(b, sep)
    decreases |a|
  {
    if a == [] {
      assert (a + [sep] + b)[1..] == b;
    } else {
      assert a[0] in a;
      assert (a + [sep] + b)[0] == a[0];
      assert (a + [sep] + b)[1..] == a[1..] + [sep] + b;
      SplitAtFirst(a[1..], sep, b);
      assert [a[0]] + a[1..] == a;
    }
  }

  /** Splitting a join of separator-free fields recovers the fields. */
  lemma {:induction false} SplitJoin(fields: seq<string>, sep: char)
    requires |fields| >= 1
    requires forall i :: 0 <= i < |fields| ==> sep !in fields[i]
    ensures Split(Join(fields, sep), sep) == fields
    decreases |fields|
  {
    if |fields| == 1 {
      SplitNoSeparator(fields[0], sep);
    } else {
      SplitJoin(fields[1..], sep);
      SplitAtFirst(fields[0], sep, Join(fields[1..], sep));
    }
  }

  // ---------------------------------------------------------------------
  // Digits
  // ---------------------------------------------------------------------

  /** The value of an ASCII letter or digit as a digit of radix up to 36. */
  function DigitValue(c: char): nat {
    if '0' <= c <= '9' then (c as int) - ('0' as int)
    else if 'a' <= c <= 'z' then (c as int) - ('a' as int) + 10
    else if 'A' <= c <= 'Z' then (c as int) - ('A' as int) + 10
    else 36
  }

  predicate IsRadixDigit(c: char, radix: nat) {
    DigitValue(c) < radix
  }

  predicate AllRadixDigits(s: string, radix: nat) {
    forall i :: 0 <= i < |s| ==> IsRadixDigit(s[i], radix)
  }

  /** A digit of `parseInt(_, 10)`. */
  predicate IsDecimalDigit(c: char) {
    IsRadixDigit(c, 10)
  }

  predicate AllDecimalDigits(s: string) {
    AllRadixDigits(s, 10)
  }

  /** The radix-10 digits are exactly '0' to '9'. */
  lemma DecimalDigitsAreZeroToNine(c: char)
    ensures IsDecimalDigit(c) <==> '0' <= c <= '9'
  {
  }

  /** The length of the longest prefix of `s` made of radix digits. */
  function DigitRunLength(s: string, radix: nat): (n: nat)
    ensures n <= |s|
  {
    if s == [] || !IsRadixDigit(s[0], radix) then 0
    else 1 + DigitRunLength(s[1..], radix)
  }

  /** The run is all digits and cannot be extended. */
  lemma {:induction false} DigitRunIsLongest(s: string, radix: nat)
    ensures AllRadixDigits(s[..DigitRunLength(s, radix)], radix)
    ensures DigitRunLength(s, radix) < |s| ==> !IsRadixDigit(s[DigitRunLength(s, radix)], radix)
  {
    if s != [] && IsRadixDigit(s[0], radix) {
      DigitRunIsLongest(s[1..], radix);
      var n := DigitRunLength(s, radix);
      assert forall i :: 1 <= i < n ==> s[..n][i] == s[1..][..n - 1][i - 1];
    }
  }

  /** A string made only of digits is one whole digit run. */
  lemma {:induction false} DigitRunLengthOfDigits(s: string, radix: nat)
    requires AllRadixDigits(s, radix)
    ensures DigitRunLength(s, radix) == |s|
  {
    if s != [] {
      assert AllRadixDigits(s[1..], radix) by {
        forall i | 0 <= i < |s| - 1 ensures IsRadixDigit(s[1..][i], radix) {
          assert s[1..][i] == s[i + 1];
        }
      }
      DigitRunLengthOfDigits(s[1..], radix);
    }
  }

  /** The value of a string of radix digits, most significant first. */
  function DigitsValue(s: string, radix: nat): nat {
    if s == [] then 0
    else DigitsValue(s[..|s| - 1], radix) * radix + DigitValue(s[|s| - 1])
  }

  // ---------------------------------------------------------------------
  // parseInt
  // ---------------------------------------------------------------------

  /** The characters `parseInt` skips before the number: the WhiteSpace and
      LineTerminator code points of ECMAScript (sections 12.2 and 12.3). */
  const JsWhitespace: set<char> :=
    {'\t', '\n', '\U{000B}', '\U{000C}', '\r', ' ', '\U{00A0}', '\U{1680}',
     '\U{2000}', '\U{2001}', '\U{2002}', '\U{2003}', '\U{2004}', '\U{2005}',
     '\U{2006}', '\U{2007}', '\U{2008}', '\U{2009}', '\U{200A}',
     '\U{2028}', '\U{2029}', '\U{202F}', '\U{205F}', '\U{3000}', '\U{FEFF}'}

  predicate IsJsWhitespace(c: char) {
    c in JsWhitespace
  }

  /** `s` without its leading white space. */
  function TrimStart(s: string): (t: string)
    ensures |t| <= |s|
  {
    if s != [] && IsJsWhitespace(s[0]) then TrimStart(s[1..]) else s
  }

  /** `TrimStart` drops exactly the leading run of white space. */
  lemma {:induction false} TrimStartDropsWhitespace(s: string)
    ensures TrimStart(s) == s[|s| - |TrimStart(s)|..]
    ensures forall i :: 0 <= i < |s| - |TrimStart(s)| ==> IsJsWhitespace(s[i])
    ensures TrimStart(s) == [] || !IsJsWhitespace(TrimStart(s)[0])
  {
    if s != [] && IsJsWhitespace(s[0]) {
      TrimStartDropsWhitespace(s[1..]);
    }
  }

  /** How `parseInt` was called: with radix 10, or without a radix (in which
      case a leading `0x` or `0X` selects hexadecimal). */
  datatype Radix = Radix10 | NoRadix

  /** `parseInt(s)` or `parseInt(s, 10)`; `None` is `NaN`. Negative zero is
      folded into zero. */
  function ParseInt(s: string, radix: Radix): Option<int> {
    var digits := ParseDigits(s, radix);
    if digits == [] then None
    else Some(ApplySign(s, DigitsValue(digits, ParseBase(s, radix))))
  }

  /** `n` negated when the text after the white space starts with `-`. */
  function ApplySign(s: string, n: int): int {
    var t := TrimStart(s);
    if t != [] && t[0] == '-' then -n else n
  }

  /** The text after white space and sign, and the radix it is read in. */
  function AfterSign(s: string): string {
    var t := TrimStart(s);
    if t != [] && (t[0] == '-' || t[0] == '+') then t[1..] else t
  }

  predicate HasHexPrefix(u: string) {
    |u| >= 2 && u[0] == '0' && (u[1] == 'x' || u[1] == 'X')
  }

  function ParseBase(s: string, radix: Radix): nat {
    if radix == NoRadix && HasHexPrefix(AfterSign(s)) then 16 else 10
  }

  /** The digit run `parseInt` converts. */
  function ParseDigits(s: string, radix: Radix): string {
    var u := AfterSign(s);
    var base := ParseBase(s, radix);
    var v := if base == 16 then u[2..] else u;
    v[..DigitRunLength(v, base)]
  }

  /** A non-empty run of decimal digits parses to its value, with or
      without a radix. */
  lemma ParseIntOfDigits(s: string, radix: Radix)
    requires s != [] && AllDecimalDigits(s)
    ensures ParseInt(s, radix) == Some(DigitsValue(s, 10))
  {
    assert IsDecimalDigit(s[0]);
    TrimStartNoop(s);
    assert AfterSign(s) == s;
    assert !HasHexPrefix(s) by { if |s| >= 2 { assert IsDecimalDigit(s[1]); } }
    assert AllRadixDigits(s, 10);
    DigitRunLengthOfDigits(s, 10);
    assert s[..|s|] == s;
  }

  // ---------------------------------------------------------------------
  // Number to decimal text
  // ---------------------------------------------------------------------

  function DigitChar(d: nat): (c: char)
    requires d < 10
    ensures IsDecimalDigit(c) && DigitValue(c) == d
  {
    ((('0' as int) + d) as char)
  }

  /** The shortest decimal text of a natural number. */
  function NatToString(n: nat): (s: string)
    ensures s != [] && AllDecimalDigits(s)
    ensures |s| > 1 ==> s[0] != '0'
  {
    if n < 10 then [DigitChar(n)] else NatToString(n / 10) + [DigitChar(n % 10)]
  }

  /** Reading the text back gives the number. */
  lemma {:induction false} NatToStringValue(n: nat)
    ensures DigitsValue(NatToString(n), 10) == n
  {
    var s := NatToString(n);
    if n >= 10 {
      NatToStringValue(n / 10);
      assert s[..|s| - 1] == NatToString(n / 10);
    }
  }

  /** The text `${i}` of an integral Number. */
  function NumberToString(i: int): string {
    if i < 0 then "-" + NatToString(-i) else NatToString(i)
  }

  lemma TrimStartNoop(s: string)
    requires s != [] && !IsJsWhitespace(s[0])
    ensures TrimStart(s) == s
  {
  }

  /** A minus sign before a run of decimal digits negates its value. */
  lemma ParseIntOfNegatedDigits(d: string, radix: Radix)
    requires d != [] && AllDecimalDigits(d)
    ensures ParseInt("-" + d, radix) == Some(-(DigitsValue(d, 10) as int))
  {
    var s := "-" + d;
    assert IsDecimalDigit(d[0]);
    TrimStartNoop(d);
    TrimStartNoop(s);
    assert s[1..] == d;
    assert AfterSign(s) == d == AfterSign(d);
    assert ParseBase(s, radix) == 10 == ParseBase(d, radix) by {
      assert |d| >= 2 ==> IsDecimalDigit(d[1]);
    }
    DigitRunLengthOfDigits(d, 10);
    assert d[..|d|] == d;
    assert ParseDigits(s, radix) == d;
    assert ApplySign(s, DigitsValue(d, 10)) == -(DigitsValue(d, 10) as int);
  }

  /** `parseInt` undoes `NumberToString`. */
  lemma ParseIntNumberToString(i: int, radix: Radix)
    ensures ParseInt(NumberToString(i), radix) == Some(i)
  {
    var a := if i < 0 then -i else i;
    NatToStringValue(a);
    if i < 0 {
      ParseIntOfNegatedDigits(NatToString(a), radix);
    } else {
      ParseIntOfDigits(NatToString(a), radix);
    }
  }

  // ---------------------------------------------------------------------
  // The % operator
  // ---------------------------------------------------------------------

  /** JavaScript's `%` on integral Numbers with a positive divisor: the
      remainder of the division truncated toward zero, so it takes the sign
      of the dividend. */
  function JsRem(a: int, b: int): (r: int)
    requires b > 0
    ensures -b < r < b
    ensures a >= 0 ==> r >= 0
    ensures a <= 0 ==> r <= 0
  {
    var m := (if a < 0 then -a else a) % b;
    if a < 0 then -m else m
  }

  /** Remainder by twelve leaves the same residue as the dividend. */
  lemma JsRemTwelveResidue(a: int)
    ensures (a - JsRem(a, 12)) % 12 == 0
  {
  }
}
