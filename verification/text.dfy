/** Strings and the .NET text primitives the core depends on: `char.IsWhiteSpace`,
    `string.Trim`, `ToUpper` (ASCII letters only), ordinal `Contains`, decimal
    formatting (`ToString()`, `{n:D6}`) and the `int.TryParse` / `bool.TryParse`
    parsers. Strings are sequences of characters; a C# `null` string is `None`. */
module Text {
  import opened Wrappers
  import Sequences

  type String = seq<char>

  // ---------------------------------------------------------------------------
  // Character classes
  // ---------------------------------------------------------------------------

  /** `char.IsWhiteSpace`: the characters `string.Trim()` removes. */
  predicate IsWhiteSpace(c: char)
  {
    ('\U{0009}' <= c <= '\U{000D}') || c == ' ' || c == '\U{0085}' || c == '\U{00A0}'
    || c == '\U{1680}' || ('\U{2000}' <= c <= '\U{200A}') || c == '\U{2028}' || c == '\U{2029}'
    || c == '\U{202F}' || c == '\U{205F}' || c == '\U{3000}'
  }

  /** The white space `NumberStyles.Integer` allows around a number. */
  predicate IsNumberWhite(c: char)
  {
    ('\U{0009}' <= c <= '\U{000D}') || c == ' '
  }

  /** What `bool.TryParse` strips around "True"/"False": white space and NUL. */
  predicate IsWhiteOrNul(c: char)
  {
    IsWhiteSpace(c) || c == '\U{0000}'
  }

  predicate IsDigit(c: char)
  {
    '0' <= c <= '9'
  }

  predicate AllDigits(s: String)
  {
    forall i :: 0 <= i < |s| ==> IsDigit(s[i])
  }

  /** `string.IsNullOrEmpty`. */
  predicate IsNullOrEmpty(s: Option<String>)
  {
    s.None? || s.value == []
  }

  /** `string.IsNullOrWhiteSpace`. */
  predicate IsNullOrWhiteSpace(s: Option<String>)
  {
    s.None? || forall i :: 0 <= i < |s.value| ==> IsWhiteSpace(s.value[i])
  }

  // ---------------------------------------------------------------------------
  // Length in UTF-16 code units
  // ---------------------------------------------------------------------------

  /** A character outside the Basic Multilingual Plane, stored by C# as a surrogate pair. */
  predicate IsAstral(c: char)
  {
    c as int >= 0x10000
  }

  /** `string.Length`: the number of UTF-16 code units, two for an astral character. */
  function Utf16Length(s: String): (n: nat)
    ensures |s| <= n <= 2 * |s|
  {
    if s == [] then 0 else (if IsAstral(s[0]) then 2 else 1) + Utf16Length(s[1..])
  }

  /** `Length` counts characters exactly when no character is astral; otherwise it
      counts more. */
  lemma {:induction false} Utf16LengthIsCount(s: String)
    ensures Utf16Length(s) == |s| <==> forall i :: 0 <= i < |s| ==> !IsAstral(s[i])
  {
    if s != [] {
      Utf16LengthIsCount(s[1..]);
      assert forall i :: 1 <= i < |s| ==> s[i] == s[1..][i - 1];
    }
  }

  /** A string of astral characters only is twice as long in code units. */
  lemma {:induction false} AllAstralLength(s: String)
    requires forall i :: 0 <= i < |s| ==> IsAstral(s[i])
    ensures Utf16Length(s) == 2 * |s|
  {
    if s != [] {
      assert forall i :: 0 <= i < |s[1..]| ==> s[1..][i] == s[i + 1];
      AllAstralLength(s[1..]);
    }
  }

  // ---------------------------------------------------------------------------
  // Trimming and case
  // ---------------------------------------------------------------------------

  /** Drops the leading characters that satisfy `white`. */
  function TrimStartBy(s: String, white: char -> bool): (r: String)
    ensures |r| <= |s| && r == s[|s| - |r|..]
    ensures forall i :: 0 <= i < |s| - |r| ==> white(s[i])
    ensures r == [] || !white(r[0])
  {
    if |s| > 0 && white(s[0]) then TrimStartBy(s[1..], white) else s
  }

  /** Drops the trailing characters that satisfy `white`. */
  function TrimEndBy(s: String, white: char -> bool): (r: String)
    ensures |r| <= |s| && r == s[..|r|]
    ensures forall i :: |r| <= i < |s| ==> white(s[i])
    ensures r == [] || !white(r[|r| - 1])
  {
    if |s| > 0 && white(s[|s| - 1]) then TrimEndBy(s[..|s| - 1], white) else s
  }

  /** Drops the characters satisfying `white` at both ends. */
  function TrimBy(s: String, white: char -> bool): (r: String)
    ensures |r| <= |s|
    ensures r == [] || (!white(r[0]) && !white(r[|r| - 1]))
  {
    TrimEndBy(TrimStartBy(s, white), white)
  }

  /** A string whose ends do not satisfy `white` is left as it is. */
  lemma TrimByKeeps(s: String, white: char -> bool)
    requires s == [] || (!white(s[0]) && !white(s[|s| - 1]))
    ensures TrimBy(s, white) == s
  {
    assert TrimStartBy(s, white) == s;
  }

  /** `string.Trim()`. */
  function Trim(s: String): String
  {
    TrimBy(s, IsWhiteSpace)
  }

  /** Trimming twice is trimming once. */
  lemma TrimIdempotent(s: String)
    ensures Trim(Trim(s)) == Trim(s)
  {
    TrimByKeeps(Trim(s), IsWhiteSpace);
  }

  /** Trimming text that is not all white space leaves some of it. */
  lemma TrimKeepsNonBlank(s: String)
    requires !IsNullOrWhiteSpace(Some(s))
    ensures !IsNullOrWhiteSpace(Some(Trim(s)))
  {
    var front := TrimStartBy(s, IsWhiteSpace);
    assert front != [] && !IsWhiteSpace(front[0]);
    var r := TrimEndBy(front, IsWhiteSpace);
    assert r != [] && !IsWhiteSpace(r[0]);
  }

  /** `s?.Trim()`: trims a present string and keeps `null` as `null`. */
  function TrimOpt(s: Option<String>): (r: Option<String>)
    ensures r.None? <==> s.None?
    ensures r.Some? ==> r.value == Trim(s.value) && |r.value| <= |s.value|
  {
    match s
    case None => None
    case Some(v) => Some(Trim(v))
  }

  /** Upper-casing of one character, for the ASCII letters only. */
  function UpperChar(c: char): char
  {
    if 'a' <= c <= 'z' then (c as int - 32) as char else c
  }

  /** `ToUpper()` restricted to ASCII letters. */
  function ToUpperAscii(s: String): (r: String)
    ensures |r| == |s|
    ensures forall i :: 0 <= i < |s| ==> r[i] == UpperChar(s[i])
  {
    seq(|s|, i requires 0 <= i < |s| => UpperChar(s[i]))
  }

  /** Upper-casing a character keeps it white space or not: only letters change. */
  lemma UpperCharKeepsWhite(c: char)
    ensures IsWhiteSpace(UpperChar(c)) <==> IsWhiteSpace(c)
  {
  }

  /** Upper-casing keeps the length and which characters are white space. */
  lemma ToUpperAsciiKeepsNonBlank(s: String)
    requires !IsNullOrWhiteSpace(Some(s))
    ensures !IsNullOrWhiteSpace(Some(ToUpperAscii(s)))
  {
    var i :| 0 <= i < |s| && !IsWhiteSpace(s[i]);
    UpperCharKeepsWhite(s[i]);
  }

  /** Upper-cased text holds no lower-case ASCII letter, so upper-casing again changes nothing. */
  lemma ToUpperAsciiIdempotent(s: String)
    ensures ToUpperAscii(ToUpperAscii(s)) == ToUpperAscii(s)
    ensures forall i :: 0 <= i < |s| ==> !('a' <= ToUpperAscii(s)[i] <= 'z')
  {
  }

  /** `string.Equals(a, b, StringComparison.OrdinalIgnoreCase)`, folding ASCII letters. */
  predicate EqualsIgnoreCase(a: String, b: String)
  {
    ToUpperAscii(a) == ToUpperAscii(b)
  }

  /** Ordinal `string.StartsWith`. */
  predicate StartsWith(s: String, prefix: String)
  {
    prefix <= s
  }

  /** A string starts with whatever was put in front of it. */
  lemma StartsWithAppend(a: String, b: String)
    ensures StartsWith(a + b, a)
  {
    assert (a + b)[..|a|] == a;
  }

  /** Ordinal `string.Contains`. */
  predicate Contains(s: String, sub: String)
    decreases |s|
  {
    sub <= s || (|s| > 0 && Contains(s[1..], sub))
  }

  /** `Contains` holds exactly when `sub` occurs at some position of `s`. */
  lemma {:induction false} ContainsAt(s: String, sub: String, k: nat)
    requires k + |sub| <= |s| && s[k..k + |sub|] == sub
    ensures Contains(s, sub)
    decreases k
  {
    if k == 0 {
      assert s[..|sub|] == sub;
    } else {
      assert s[1..][k - 1..k - 1 + |sub|] == sub;
      ContainsAt(s[1..], sub, k - 1);
    }
  }

  /** Ordinal `a <= b`: code point by code point, a proper prefix first. */
  predicate LexLeq(a: String, b: String)
  {
    a == [] || (b != [] && (a[0] < b[0] || (a[0] == b[0] && LexLeq(a[1..], b[1..]))))
  }

  lemma {:induction false} LexLeqTotal(a: String, b: String)
    ensures LexLeq(a, b) || LexLeq(b, a)
  {
    if a != [] && b != [] && a[0] == b[0] {
      LexLeqTotal(a[1..], b[1..]);
    }
  }

  lemma {:induction false} LexLeqTransitive(a: String, b: String, c: String)
    requires LexLeq(a, b) && LexLeq(b, c)
    ensures LexLeq(a, c)
  {
    if a != [] && b != [] && c != [] && a[0] == b[0] && b[0] == c[0] {
      LexLeqTransitive(a[1..], b[1..], c[1..]);
    }
  }

  /** Ordinal order on strings can serve as a sort key. */
  lemma LexLeqIsTotalPreorder()
    ensures Sequences.TotalPreorder(LexLeq)
  {
    forall a, b ensures LexLeq(a, b) || LexLeq(b, a) {
      LexLeqTotal(a, b);
    }
    forall a, b, c | LexLeq(a, b) && LexLeq(b, c) ensures LexLeq(a, c) {
      LexLeqTransitive(a, b, c);
    }
  }

  /** `string.Join(sep, parts)`. */
  function Join(parts: seq<String>, sep: String): String
  {
    if parts == [] then []
    else if |parts| == 1 then parts[0]
    else parts[0] + sep + Join(parts[1..], sep)
  }

  // ---------------------------------------------------------------------------
  // String equality inside SQL
  // ---------------------------------------------------------------------------

  predicate IsSpace(c: char)
  {
    c == ' '
  }

  /** What SQL Server's `=` and its unique indices compare: the string without its
      trailing spaces. The shorter operand is padded with spaces under every collation,
      binary ones included, so trailing spaces never decide equality. Other characters
      are compared ordinally, as under a binary collation. */
  function SqlKey(s: String): (k: String)
    ensures |k| <= |s| && k == s[..|k|]
    ensures forall i :: |k| <= i < |s| ==> s[i] == ' '
    ensures k == [] || k[|k| - 1] != ' '
  {
    TrimEndBy(s, IsSpace)
  }

  /** `a = b` on two non-null strings inside a query. */
  predicate SqlEquals(a: String, b: String)
  {
    SqlKey(a) == SqlKey(b)
  }

  /** `a = b` on two nullable strings in a query EF translated with C# null semantics:
      two nulls match, a null never matches a string. */
  predicate SqlEqualsOpt(a: Option<String>, b: Option<String>)
  {
    if a.Some? && b.Some? then SqlEquals(a.value, b.value) else a == b
  }

  function Spaces(n: nat): (r: String)
    ensures |r| == n && forall i :: 0 <= i < n ==> r[i] == ' '
  {
    seq(n, _ => ' ')
  }

  /** Trailing spaces are invisible to the comparison. */
  lemma {:induction false} SqlKeyPadded(s: String, n: nat)
    ensures SqlKey(s + Spaces(n)) == SqlKey(s)
    decreases n
  {
    if n > 0 {
      var t := s + Spaces(n);
      assert t[..|t| - 1] == s + Spaces(n - 1);
      assert IsSpace(t[|t| - 1]);
      assert SqlKey(t) == TrimEndBy(t[..|t| - 1], IsSpace) == SqlKey(s + Spaces(n - 1));
      SqlKeyPadded(s, n - 1);
    } else {
      assert s + Spaces(n) == s;
    }
  }

  /** Any other difference is visible: strings that do not end in a space are equal
      inside SQL exactly when they are equal. */
  lemma SqlEqualsOrdinal(a: String, b: String)
    requires a == [] || a[|a| - 1] != ' '
    requires b == [] || b[|b| - 1] != ' '
    ensures SqlEquals(a, b) <==> a == b
  {
    assert SqlKey(a) == a;
    assert SqlKey(b) == b;
  }

  /** Two strings are equal inside SQL exactly when each is the other's key followed by
      spaces. */
  lemma SqlEqualsIsPadding(a: String, b: String)
    ensures b == SqlKey(b) + Spaces(|b| - |SqlKey(b)|)
    ensures SqlEquals(a, b) <==> |SqlKey(b)| <= |a| && a == SqlKey(b) + Spaces(|a| - |SqlKey(b)|)
  {
    var k := SqlKey(b);
    assert b == k + Spaces(|b| - |k|);
    if SqlEquals(a, b) {
      assert a == k + Spaces(|a| - |k|);
    }
    if |k| <= |a| && a == k + Spaces(|a| - |k|) {
      SqlKeyPadded(k, |a| - |k|);
      SqlKeyPadded(k, |b| - |k|);
      SqlEqualsOrdinal(k, k);
      assert SqlKey(k) == k;
    }
  }

  // ---------------------------------------------------------------------------
  // Decimal numbers
  // ---------------------------------------------------------------------------

  const Int32Min: int := -0x8000_0000
  const Int32Max: int := 0x7FFF_FFFF

  predicate IsInt32(n: int)
  {
    Int32Min <= n <= Int32Max
  }

  function DigitChar(d: int): char
    requires 0 <= d <= 9
  {
    ('0' as int + d) as char
  }

  function DigitValue(c: char): int
    requires IsDigit(c)
  {
    c as int - '0' as int
  }

  function Pow10(k: nat): nat
  {
    if k == 0 then 1 else 10 * Pow10(k - 1)
  }

  /** The decimal digits of a natural number, most significant first, without leading zeros. */
  function NatToDecimal(n: nat): (r: String)
    ensures 1 <= |r| && AllDigits(r)
    ensures r[0] == '0' ==> n == 0
    decreases n
  {
    if n < 10 then [DigitChar(n)] else NatToDecimal(n / 10) + [DigitChar(n % 10)]
  }

  /** The value of a digit string read most significant digit first. */
  function DecimalValue(s: String): nat
    requires AllDigits(s)
  {
    if s == [] then 0 else DecimalValue(s[..|s| - 1]) * 10 + DigitValue(s[|s| - 1])
  }

  /** Reading back the digits of `n` gives `n`. */
  lemma {:induction false} DecimalValueOfNatToDecimal(n: nat)
    ensures DecimalValue(NatToDecimal(n)) == n
    decreases n
  {
    if n >= 10 {
      DecimalValueOfNatToDecimal(n / 10);
      var r := NatToDecimal(n);
      assert r[..|r| - 1] == NatToDecimal(n / 10);
    }
  }

  /** A number below 10^k needs at most k digits. */
  lemma {:induction false} NatToDecimalLength(n: nat, k: nat)
    requires 1 <= k && n < Pow10(k)
    ensures |NatToDecimal(n)| <= k
    decreases k
  {
    if n >= 10 {
      assert k >= 2;
      NatToDecimalLength(n / 10, k - 1);
    }
  }

  function Zeros(k: nat): (r: String)
    ensures |r| == k && AllDigits(r)
    ensures forall i :: 0 <= i < k ==> r[i] == '0'
  {
    seq(k, i => '0')
  }

  /** Leading zeros do not change the value of a digit string. */
  lemma {:induction false} DecimalValueLeadingZeros(k: nat, s: String)
    requires AllDigits(s)
    ensures AllDigits(Zeros(k) + s)
    ensures DecimalValue(Zeros(k) + s) == DecimalValue(s)
    decreases |s| + k
  {
    var z := Zeros(k) + s;
    assert forall i :: 0 <= i < |z| ==> IsDigit(z[i]) by {
      forall i | 0 <= i < |z| ensures IsDigit(z[i]) {
        if i < k { assert z[i] == '0'; } else { assert z[i] == s[i - k]; }
      }
    }
    if s == [] {
      if k > 0 {
        assert z[..|z| - 1] == Zeros(k - 1) + [];
        DecimalValueLeadingZeros(k - 1, []);
      }
    } else {
      assert z[..|z| - 1] == Zeros(k) + s[..|s| - 1];
      DecimalValueLeadingZeros(k, s[..|s| - 1]);
    }
  }

  /** `s.PadLeft(width, pad)`. */
  function PadLeft(s: String, width: nat, pad: char): (r: String)
    ensures |r| == if |s| >= width then |s| else width
    ensures r[|r| - |s|..] == s
    ensures forall i :: 0 <= i < |r| - |s| ==> r[i] == pad
  {
    if |s| >= width then s else seq(width - |s|, i => pad) + s
  }

  /** Zero-padding digits keeps them digits. */
  lemma PadLeftDigits(d: String, width: nat)
    requires AllDigits(d)
    ensures AllDigits(PadLeft(d, width, '0'))
  {
    var p := PadLeft(d, width, '0');
    forall i | 0 <= i < |p| ensures IsDigit(p[i]) {
      if i >= |p| - |d| {
        assert p[i] == p[|p| - |d|..][i - (|p| - |d|)] == d[i - (|p| - |d|)];
      }
    }
  }

  /** `n.ToString()` for an `int`. */
  function IntToString(n: int): String
  {
    if n < 0 then "-" + NatToDecimal(-n) else NatToDecimal(n)
  }

  /** The composite format `{n:Dw}`: at least `w` digits, zero-padded, after the sign. */
  function FormatD(n: int, width: nat): (r: String)
    ensures n >= 0 ==> AllDigits(r) && |r| >= width
  {
    if n < 0 then "-" + PadLeft(NatToDecimal(-n), width, '0') else PadLeft(NatToDecimal(n), width, '0')
  }

  /** A zero-padded non-negative number is its digits behind zeros, and reads back as itself. */
  lemma FormatDReadsBack(n: nat, width: nat)
    ensures AllDigits(FormatD(n, width)) && DecimalValue(FormatD(n, width)) == n
  {
    var d := NatToDecimal(n);
    DecimalValueOfNatToDecimal(n);
    if |d| < width {
      assert FormatD(n, width) == Zeros(width - |d|) + d;
      DecimalValueLeadingZeros(width - |d|, d);
    }
  }

  /** `int.TryParse(s, out v)` with `NumberStyles.Integer` and the invariant culture:
      optional surrounding white space, an optional sign, one or more ASCII digits,
      and a value that fits in 32 bits; `null` fails. */
  function ParseInt32(s: Option<String>): (r: Option<int>)
    ensures r.Some? ==> IsInt32(r.value)
    ensures s.None? || TrimBy(s.value, IsNumberWhite) == [] ==> r.None?
  {
    if s.None? then None
    else
      var t := TrimBy(s.value, IsNumberWhite);
      var negative := |t| > 0 && t[0] == '-';
      var digits := if |t| > 0 && (t[0] == '-' || t[0] == '+') then t[1..] else t;
      if digits == [] || !AllDigits(digits) then None
      else
        var magnitude: int := DecimalValue(digits);
        var v := if negative then -magnitude else magnitude;
        if IsInt32(v) then Some(v) else None
  }

  /** Parsing what `ToString()` printed gives the number back. */
  lemma ParseInt32OfIntToString(n: int)
    requires IsInt32(n)
    ensures ParseInt32(Some(IntToString(n))) == Some(n)
  {
    var s := IntToString(n);
    var d := if n < 0 then NatToDecimal(-n) else NatToDecimal(n);
    assert IsDigit(d[|d| - 1]);
    TrimByKeeps(s, IsNumberWhite);
    DecimalValueOfNatToDecimal(if n < 0 then -n else n);
    if n < 0 {
      assert s[1..] == d;
    }
  }

  /** `bool.ToString()`. */
  function BoolToString(b: bool): String
  {
    if b then "True" else "False"
  }

  /** `bool.TryParse`: "true" or "false" in any letter case, after white space and NUL are trimmed. */
  function ParseBool(s: Option<String>): (r: Option<bool>)
    ensures s.None? ==> r.None?
  {
    if s.None? then None
    else
      var t := TrimBy(s.value, IsWhiteOrNul);
      if EqualsIgnoreCase(t, "True") then Some(true)
      else if EqualsIgnoreCase(t, "False") then Some(false)
      else None
  }

  /** Parsing what `bool.ToString()` printed, in any letter case, gives the value back. */
  lemma ParseBoolOfBoolToString(b: bool, text: String)
    requires EqualsIgnoreCase(text, BoolToString(b))
    ensures ParseBool(Some(text)) == Some(b)
  {
    var u := ToUpperAscii(text);
    assert |text| == |BoolToString(b)|;
    assert u == ToUpperAscii(BoolToString(b));
    assert !IsWhiteOrNul(text[0]) by {
      assert UpperChar(text[0]) == u[0];
    }
    assert !IsWhiteOrNul(text[|text| - 1]) by {
      assert UpperChar(text[|text| - 1]) == u[|text| - 1];
    }
    TrimByKeeps(text, IsWhiteOrNul);
    if !b {
      assert ToUpperAscii("True")[0] == 'T' && u[0] == 'F';
    }
  }
}
