/**
 * String rules the modelled code relies on: ASCII lower-casing (`str.lower`),
 * substring search (`in`), the lexicographic order of Python's string
 * comparison, and decimal printing and parsing (`str(n)`, `int(s.strip())`).
 */
module Strings {
  import opened Common

  /** `str.lower()` on one character, restricted to ASCII. */
  function LowerChar(c: char): char
  {
    if 'A' <= c <= 'Z' then (c as int + 32) as char else c
  }

  /** `str.lower()`, restricted to ASCII. */
  function Lower(s: string): (r: string)
    ensures |r| == |s|
    ensures forall i :: 0 <= i < |s| ==> r[i] == LowerChar(s[i])
  {
    seq(|s|, i requires 0 <= i < |s| => LowerChar(s[i]))
  }

  predicate IsPrefix(p: string, s: string)
  {
    |p| <= |s| && s[..|p|] == p
  }

  /** Python's `needle in hay` for strings: `needle` occurs somewhere in `hay`. */
  predicate Contains(hay: string, needle: string)
    decreases |hay|
  {
    IsPrefix(needle, hay) || (|hay| > 0 && Contains(hay[1..], needle))
  }

  /** The empty string is in every string, and every string is in itself. */
  lemma ContainsTrivial(s: string)
    ensures Contains(s, "") && Contains(s, s)
  {
  }

  /** `needle in hay` holds exactly when `needle` is a slice of `hay`. */
  lemma {:induction false} ContainsIffSlice(hay: string, needle: string)
    ensures Contains(hay, needle) <==>
            exists i :: 0 <= i <= |hay| - |needle| && IsPrefix(needle, hay[i..])
    decreases |hay|
  {
    assert hay[0..] == hay;
    if |hay| > 0 {
      ContainsIffSlice(hay[1..], needle);
      if Contains(hay[1..], needle) {
        var i :| 0 <= i <= |hay[1..]| - |needle| && IsPrefix(needle, hay[1..][i..]);
        assert hay[i + 1..] == hay[1..][i..];
      }
      if exists i :: 0 <= i <= |hay| - |needle| && IsPrefix(needle, hay[i..]) {
        var i :| 0 <= i <= |hay| - |needle| && IsPrefix(needle, hay[i..]);
        if i > 0 {
          assert hay[1..][i - 1..] == hay[i..];
        }
      }
    }
  }

  /**
   * Python's `a <= b` on strings: lexicographic order of the code points, a
   * proper prefix coming first.
   */
  predicate Below(a: string, b: string)
  {
    |a| == 0 || (|b| > 0 && (a[0] < b[0] || (a[0] == b[0] && Below(a[1..], b[1..]))))
  }

  lemma {:induction false} BelowReflexive(a: string)
    ensures Below(a, a)
  {
    if |a| > 0 {
      BelowReflexive(a[1..]);
    }
  }

  lemma {:induction false} BelowTotal(a: string, b: string)
    ensures Below(a, b) || Below(b, a)
  {
    if |a| > 0 && |b| > 0 && a[0] == b[0] {
      BelowTotal(a[1..], b[1..]);
    }
  }

  lemma {:induction false} BelowTransitive(a: string, b: string, c: string)
    requires Below(a, b) && Below(b, c)
    ensures Below(a, c)
  {
    if |a| > 0 && a[0] == b[0] && b[0] == c[0] {
      BelowTransitive(a[1..], b[1..], c[1..]);
    }
  }

  lemma {:induction false} BelowAntisymmetric(a: string, b: string)
    requires Below(a, b) && Below(b, a)
    ensures a == b
  {
    if |a| > 0 {
      BelowAntisymmetric(a[1..], b[1..]);
      assert a == [a[0]] + a[1..];
      assert b == [b[0]] + b[1..];
    }
  }

  /** Comparing two strings with a common prefix compares what follows it. */
  lemma {:induction false} BelowCommonPrefix(p: string, a: string, b: string)
    ensures Below(p + a, p + b) <==> Below(a, b)
  {
    if |p| > 0 {
      assert (p + a)[1..] == p[1..] + a;
      assert (p + b)[1..] == p[1..] + b;
      BelowCommonPrefix(p[1..], a, b);
    } else {
      assert p + a == a && p + b == b;
    }
  }

  // ---------------------------------------------------------------------
  // Decimal numbers

  predicate IsDigit(c: char)
  {
    '0' <= c <= '9'
  }

  predicate AllDigits(s: string)
  {
    forall i :: 0 <= i < |s| ==> IsDigit(s[i])
  }

  function DigitChar(d: int): (c: char)
    requires 0 <= d < 10
    ensures IsDigit(c)
  {
    ('0' as int + d) as char
  }

  function DigitValue(c: char): (d: nat)
    requires IsDigit(c)
    ensures d < 10 && DigitChar(d) == c
  {
    c as int - '0' as int
  }

  /** The number a string of decimal digits denotes (leading zeros allowed). */
  function DecimalValue(s: string): nat
    requires AllDigits(s)
  {
    if |s| == 0 then 0 else DecimalValue(s[..|s| - 1]) * 10 + DigitValue(s[|s| - 1])
  }

  function Pow10(k: nat): (r: nat)
    ensures r >= 1
  {
    if k == 0 then 1 else 10 * Pow10(k - 1)
  }

  /** `str(n)` for a non-negative integer: its decimal digits, without leading zeros. */
  function NatToDecimal(n: nat): (s: string)
    ensures |s| >= 1 && AllDigits(s)
    ensures DecimalValue(s) == n
    ensures s[0] == '0' ==> n == 0 && s == "0"
  {
    if n < 10 then [DigitChar(n)]
    else
      var prefix := NatToDecimal(n / 10);
      var s := prefix + [DigitChar(n % 10)];
      assert s[..|s| - 1] == prefix;
      s
  }

  /** A string of k digits denotes a number below 10^k. */
  lemma {:induction false} DecimalValueBound(s: string)
    requires AllDigits(s)
    ensures DecimalValue(s) < Pow10(|s|)
  {
    if |s| > 0 {
      DecimalValueBound(s[..|s| - 1]);
    }
  }

  /** Leading zeros do not change the value of a digit string. */
  lemma {:induction false} DecimalValueLeadingZeros(z: string, s: string)
    requires AllDigits(s)
    requires forall i :: 0 <= i < |z| ==> z[i] == '0'
    ensures AllDigits(z + s) && DecimalValue(z + s) == DecimalValue(s)
    decreases |s|
  {
    if |s| == 0 {
      assert z + s == z;
      DecimalValueZeros(z);
    } else {
      assert (z + s)[..|z + s| - 1] == z + s[..|s| - 1];
      DecimalValueLeadingZeros(z, s[..|s| - 1]);
    }
  }

  lemma {:induction false} DecimalValueZeros(z: string)
    requires forall i :: 0 <= i < |z| ==> z[i] == '0'
    ensures AllDigits(z) && DecimalValue(z) == 0
  {
    if |z| > 0 {
      DecimalValueZeros(z[..|z| - 1]);
    }
  }

  /** `str(i)` for any integer. */
  function IntToString(i: int): (s: string)
    ensures |s| >= 1
    ensures i >= 0 ==> AllDigits(s) && (s[0] == '0' ==> s == "0")
    ensures i < 0 ==> s[0] == '-' && |s| >= 2 && AllDigits(s[1..]) && s[1] != '0'
  {
    if i < 0 then "-" + NatToDecimal(-i) else NatToDecimal(i)
  }

  /** The characters `str.strip()` removes, restricted to ASCII. */
  predicate IsSpace(c: char)
  {
    c == ' ' || c == '\t' || c == '\n' || c == '\r' || c == '\U{000B}' || c == '\U{000C}'
  }

  function StripLeft(s: string): (r: string)
    ensures |r| <= |s|
  {
    if |s| > 0 && IsSpace(s[0]) then StripLeft(s[1..]) else s
  }

  function StripRight(s: string): (r: string)
    ensures |r| <= |s|
  {
    if |s| > 0 && IsSpace(s[|s| - 1]) then StripRight(s[..|s| - 1]) else s
  }

  /** `str.strip()`, restricted to ASCII white space. */
  function Strip(s: string): string
  {
    StripRight(StripLeft(s))
  }

  /**
   * `int(t)` on a stripped decimal string: an optional sign followed by at
   * least one digit; anything else raises ValueError, here `None`.
   */
  function ParseSigned(t: string): Option<int>
  {
    var negative := |t| > 0 && t[0] == '-';
    var digits := if |t| > 0 && (t[0] == '-' || t[0] == '+') then t[1..] else t;
    if |digits| >= 1 && AllDigits(digits) then
      var v: int := DecimalValue(digits);
      Some(if negative then -v else v)
    else None
  }

  /** `int(s.strip())`. */
  function ParseInt(s: string): Option<int>
  {
    ParseSigned(Strip(s))
  }

  /** A string that neither starts nor ends with white space is its own strip. */
  lemma StripUnchanged(s: string)
    requires |s| > 0 && !IsSpace(s[0]) && !IsSpace(s[|s| - 1])
    ensures Strip(s) == s
  {
    assert StripLeft(s) == s;
  }

  lemma ParseStripped(s: string)
    requires |s| > 0 && !IsSpace(s[0]) && !IsSpace(s[|s| - 1])
    ensures ParseInt(s) == ParseSigned(s)
  {
    StripUnchanged(s);
  }

  lemma ParseUnsigned(s: string)
    requires |s| >= 1 && AllDigits(s)
    ensures ParseInt(s) == Some(DecimalValue(s) as int)
  {
    assert IsDigit(s[0]) && IsDigit(s[|s| - 1]);
    ParseStripped(s);
  }

  lemma ParseSignedNegative(s: string)
    requires |s| >= 1 && AllDigits(s)
    ensures ParseSigned("-" + s) == Some(-(DecimalValue(s) as int))
  {
    var t := "-" + s;
    assert t[0] == '-' && t[1..] == s;
  }

  lemma ParseNegative(s: string)
    requires |s| >= 1 && AllDigits(s)
    ensures ParseInt("-" + s) == Some(-(DecimalValue(s) as int))
  {
    var t := "-" + s;
    assert !IsSpace(t[0]);
    assert t[|t| - 1] == s[|s| - 1] && IsDigit(s[|s| - 1]);
    ParseStripped(t);
    ParseSignedNegative(s);
  }

  /** `int(text.strip())` ignores the white space around the digits. */
  lemma ParseIntIgnoresSpace()
    ensures ParseInt(" 7\n") == Some(7)
  {
    assert StripLeft(" 7\n") == "7\n";
    assert StripRight("7\n") == "7";
    assert "7"[..0] == "";
  }

  /** A minus sign is read, and leading zeros are allowed. */
  lemma ParseIntReadsMinus()
    ensures ParseInt("-04") == Some(-4)
  {
    ParseStripped("-04");
    assert "-04"[1..] == "04" && "04"[..1] == "0" && "0"[..0] == "";
  }

  /** A plus sign is read and dropped. */
  lemma ParseIntReadsPlus()
    ensures ParseInt("+5") == Some(5)
  {
    ParseStripped("+5");
    assert "+5"[1..] == "5" && "5"[..0] == "";
  }

  /** An empty file, a bare sign or inner white space raise ValueError. */
  lemma ParseIntRejects()
    ensures ParseInt("") == None
    ensures ParseInt("-") == None
    ensures ParseInt("1 2") == None
  {
    assert Strip("") == "";
    ParseStripped("-");
    assert "-"[1..] == "";
    ParseStripped("1 2");
    assert !IsDigit("1 2"[1]);
  }

  /** A sign followed by digits parses to their value with that sign. */
  lemma ParseSignedDigits(s: string, negative: bool)
    requires |s| >= 1 && AllDigits(s)
    ensures ParseInt(if negative then "-" + s else s) ==
            Some(if negative then -(DecimalValue(s) as int) else DecimalValue(s))
  {
    if negative {
      ParseNegative(s);
    } else {
      ParseUnsigned(s);
    }
  }

  /** What `str(i)` writes, `int(...)` reads back. */
  lemma ParseIntToString(i: int)
    ensures ParseInt(IntToString(i)) == Some(i)
  {
    ParseSignedDigits(NatToDecimal(if i < 0 then -i else i), i < 0);
  }
}
