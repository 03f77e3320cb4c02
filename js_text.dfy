/** The string primitives the client pages use: character classes of JavaScript regular
    expressions (`\d`, `\s`), `replace(/\D/g, '')`, `trim`, `slice`, `toLowerCase`,
    `includes`, `parseInt` and the decimal rendering of integers by template literals. */
module JsText {
  import opened Wrappers

  /** `\d`: an ASCII decimal digit. */
  predicate IsDigit(c: char) {
    '0' <= c <= '9'
  }

  /** `\s`, which is also the set `String.prototype.trim` strips: the ECMAScript WhiteSpace
      and LineTerminator code points. */
  predicate IsWhitespace(c: char) {
    var n := c as int;
    n == 0x09 || n == 0x0A || n == 0x0B || n == 0x0C || n == 0x0D || n == 0x20 ||
    n == 0xA0 || n == 0x1680 || (0x2000 <= n <= 0x200A) || n == 0x2028 || n == 0x2029 ||
    n == 0x202F || n == 0x205F || n == 0x3000 || n == 0xFEFF
  }

  predicate IsUpper(c: char) { 'A' <= c <= 'Z' }
  predicate IsLower(c: char) { 'a' <= c <= 'z' }
  predicate IsLetter(c: char) { IsUpper(c) || IsLower(c) }

  predicate AllDigits(s: string) {
    forall i :: 0 <= i < |s| ==> IsDigit(s[i])
  }

  predicate NoWhitespace(s: string) {
    forall i :: 0 <= i < |s| ==> !IsWhitespace(s[i])
  }

  /** `s.replace(/\D/g, '')`: the digits of `s`, in order. */
  function OnlyDigits(s: string): (r: string)
    ensures |r| <= |s|
  {
    if s == [] then []
    else (if IsDigit(s[0]) then [s[0]] else []) + OnlyDigits(s[1..])
  }

  /** What is left is digits, and a string of digits is left as it is. */
  lemma {:induction false} OnlyDigitsKeepsDigits(s: string)
    ensures AllDigits(OnlyDigits(s))
    ensures AllDigits(s) ==> OnlyDigits(s) == s
  {
    if s != [] {
      OnlyDigitsKeepsDigits(s[1..]);
      var h := if IsDigit(s[0]) then [s[0]] else [];
      assert OnlyDigits(s) == h + OnlyDigits(s[1..]);
      if AllDigits(s) {
        assert AllDigits(s[1..]) by {
          forall i | 0 <= i < |s[1..]| ensures IsDigit(s[1..][i]) {
            assert s[1..][i] == s[i + 1];
          }
        }
        assert s == [s[0]] + s[1..];
      }
    }
  }

  /** `s.replace(/\s/g, '')`. */
  function RemoveWhitespace(s: string): (r: string)
    ensures |r| <= |s|
  {
    if s == [] then []
    else (if IsWhitespace(s[0]) then [] else [s[0]]) + RemoveWhitespace(s[1..])
  }

  /** A string without whitespace is left as it is. */
  lemma {:induction false} RemoveWhitespaceKeepsRest(s: string)
    ensures NoWhitespace(s) ==> RemoveWhitespace(s) == s
  {
    if s != [] && NoWhitespace(s) {
      RemoveWhitespaceKeepsRest(s[1..]);
      assert NoWhitespace(s[1..]) by {
        forall i | 0 <= i < |s[1..]| ensures !IsWhitespace(s[1..][i]) {
          assert s[1..][i] == s[i + 1];
        }
      }
      assert s == [s[0]] + s[1..];
    }
  }

  lemma {:induction false} RemoveWhitespaceAppend(a: string, b: string)
    ensures RemoveWhitespace(a + b) == RemoveWhitespace(a) + RemoveWhitespace(b)
  {
    if a == [] {
      assert a + b == b;
    } else {
      RemoveWhitespaceAppend(a[1..], b);
      var ab := a + b;
      assert ab[1..] == a[1..] + b && ab[0] == a[0];
      var h := if IsWhitespace(a[0]) then [] else [a[0]];
      calc {
        RemoveWhitespace(ab);
        h + RemoveWhitespace(ab[1..]);
        h + (RemoveWhitespace(a[1..]) + RemoveWhitespace(b));
        { assert h + (RemoveWhitespace(a[1..]) + RemoveWhitespace(b)) == (h + RemoveWhitespace(a[1..])) + RemoveWhitespace(b); }
        (h + RemoveWhitespace(a[1..])) + RemoveWhitespace(b);
        RemoveWhitespace(a) + RemoveWhitespace(b);
      }
    }
  }

  lemma {:induction false} OnlyDigitsAppend(a: string, b: string)
    ensures OnlyDigits(a + b) == OnlyDigits(a) + OnlyDigits(b)
  {
    if a == [] {
      assert a + b == b;
    } else {
      OnlyDigitsAppend(a[1..], b);
      var ab := a + b;
      assert ab[1..] == a[1..] + b && ab[0] == a[0];
      var h := if IsDigit(a[0]) then [a[0]] else [];
      calc {
        OnlyDigits(ab);
        h + OnlyDigits(ab[1..]);
        h + (OnlyDigits(a[1..]) + OnlyDigits(b));
        { assert h + (OnlyDigits(a[1..]) + OnlyDigits(b)) == (h + OnlyDigits(a[1..])) + OnlyDigits(b); }
        (h + OnlyDigits(a[1..])) + OnlyDigits(b);
        OnlyDigits(a) + OnlyDigits(b);
      }
    }
  }

  /** `s.trimStart()`. */
  function TrimStart(s: string): (r: string)
    ensures |r| <= |s| && r == s[|s| - |r|..]
  {
    if s != [] && IsWhitespace(s[0]) then TrimStart(s[1..]) else s
  }

  /** `s.trimEnd()`. */
  function TrimEnd(s: string): (r: string)
    ensures |r| <= |s| && r == s[..|r|]
  {
    if s != [] && IsWhitespace(s[|s| - 1]) then TrimEnd(s[..|s| - 1]) else s
  }

  /** `s.trim()`. */
  function Trim(s: string): (r: string)
    ensures |r| <= |s|
  {
    TrimEnd(TrimStart(s))
  }

  /** `trimStart` drops whitespace only, and stops at the first other character. */
  lemma {:induction false} TrimStartFacts(s: string)
    ensures TrimStart(s) == [] || !IsWhitespace(TrimStart(s)[0])
    ensures forall i :: 0 <= i < |s| - |TrimStart(s)| ==> IsWhitespace(s[i])
  {
    if s != [] && IsWhitespace(s[0]) {
      TrimStartFacts(s[1..]);
      forall i | 0 < i < |s| - |TrimStart(s)| ensures IsWhitespace(s[i]) {
        assert s[i] == s[1..][i - 1];
      }
    }
  }

  /** `trimEnd` drops whitespace only, and stops at the last other character. */
  lemma {:induction false} TrimEndFacts(s: string)
    ensures TrimEnd(s) == [] || !IsWhitespace(TrimEnd(s)[|TrimEnd(s)| - 1])
    ensures forall i :: |TrimEnd(s)| <= i < |s| ==> IsWhitespace(s[i])
  {
    if s != [] && IsWhitespace(s[|s| - 1]) {
      var init := s[..|s| - 1];
      TrimEndFacts(init);
      forall i | |TrimEnd(s)| <= i < |s| - 1 ensures IsWhitespace(s[i]) {
        assert s[i] == init[i];
      }
    }
  }

  /** A string trims to nothing exactly when it is all whitespace. */
  lemma TrimBlankIff(s: string)
    ensures Trim(s) == [] <==> forall i :: 0 <= i < |s| ==> IsWhitespace(s[i])
  {
    var t := TrimStart(s);
    TrimStartFacts(s);
    TrimEndFacts(t);
  }

  /** A string that neither starts nor ends with whitespace is its own trim. */
  lemma TrimUnpadded(s: string)
    requires s == [] || (!IsWhitespace(s[0]) && !IsWhitespace(s[|s| - 1]))
    ensures Trim(s) == s
  {
  }

  /** Trimming an unpadded string followed by one space gives the string back. */
  lemma TrimTrailingSpace(s: string)
    requires s != [] && !IsWhitespace(s[0]) && !IsWhitespace(s[|s| - 1])
    ensures Trim(s + " ") == s
  {
    var g := s + " ";
    assert g[0] == s[0];
    assert TrimStart(g) == g;
    assert g[|g| - 1] == ' ';
    assert g[..|g| - 1] == s;
    assert TrimEnd(g) == TrimEnd(s);
    assert TrimEnd(s) == s;
  }

  /** `s.slice(0, n)` for `n >= 0`. */
  function Take(s: string, n: nat): (r: string)
    ensures |r| == if |s| <= n then |s| else n
    ensures r == s[..|r|]
  {
    if |s| <= n then s else s[..n]
  }

  function ToLowerChar(c: char): char {
    if IsUpper(c) then (c as int + 32) as char else c
  }

  /** `s.toLowerCase()` on the ASCII letters. */
  function ToLower(s: string): (r: string)
    ensures |r| == |s|
    ensures forall i :: 0 <= i < |s| ==> r[i] == ToLowerChar(s[i])
  {
    seq(|s|, i requires 0 <= i < |s| => ToLowerChar(s[i]))
  }

  /** `s.includes(t)`. */
  predicate Contains(s: string, t: string) {
    exists i | 0 <= i <= |s| - |t| :: OccursAt(s, t, i)
  }

  /** `t` occurs in `s` starting at index `i`. */
  predicate OccursAt(s: string, t: string, i: int)
    requires 0 <= i <= |s| - |t|
  {
    s[i..i + |t|] == t
  }

  function DigitChar(d: nat): (c: char)
    requires d < 10
    ensures IsDigit(c)
  {
    ('0' as int + d) as char
  }

  function DigitValue(c: char): (d: nat)
    requires IsDigit(c)
    ensures d < 10 && DigitChar(d) == c
  {
    c as int - '0' as int
  }

  /** The decimal digits of `n` without leading zeros: `String(n)` for a non-negative integer. */
  function NatString(n: nat): (r: string)
    ensures r != [] && AllDigits(r)
    ensures r[0] == '0' ==> n == 0
  {
    if n < 10 then [DigitChar(n)] else NatString(n / 10) + [DigitChar(n % 10)]
  }

  /** `String(n)` / `${n}` for an integer `n`. */
  function DecimalString(n: int): (r: string)
    ensures r != []
    ensures n >= 0 ==> r == NatString(n)
    ensures n < 0 ==> r[0] == '-' && r[1..] == NatString(-n)
  {
    if n < 0 then "-" + NatString(-n) else NatString(n)
  }

  /** The value of a string of decimal digits. */
  function DigitsValue(s: string): (v: nat)
    requires AllDigits(s)
  {
    if s == [] then 0 else DigitsValue(s[..|s| - 1]) * 10 + DigitValue(s[|s| - 1])
  }

  /** Rendering a natural number and reading it back gives the number. */
  lemma {:induction false} NatStringRoundTrip(n: nat)
    ensures DigitsValue(NatString(n)) == n
  {
    if n >= 10 {
      NatStringRoundTrip(n / 10);
      var s := NatString(n);
      assert s[..|s| - 1] == NatString(n / 10);
    }
  }

  /** Different natural numbers render differently. */
  lemma NatStringInjective(m: nat, n: nat)
    requires NatString(m) == NatString(n)
    ensures m == n
  {
    NatStringRoundTrip(m);
    NatStringRoundTrip(n);
  }

  /** `parseInt(s)` without a radix: leading whitespace is skipped and an optional sign is
      read; then a "0x" or "0X" prefix selects base sixteen, and otherwise base ten applies.
      The longest run of digits of that base is read. `None` is JavaScript's NaN: no digit
      of the base follows. */
  function ParseInt(s: string): (r: Option<int>)
    ensures AllDigits(s) && s != [] ==> r == Some(DigitsValue(s))
  {
    ParseSigned(TrimStart(s))
  }

  /** What `parseInt` reads once the leading whitespace is skipped. */
  function ParseSigned(t: string): (r: Option<int>)
    ensures AllDigits(t) && t != [] ==> r == Some(DigitsValue(t))
  {
    var signed := t != [] && (t[0] == '-' || t[0] == '+');
    var m := ParseUnsigned(if signed then t[1..] else t);
    if m.None? then None
    else
      var v: int := m.value;
      Some(if signed && t[0] == '-' then -v else v)
  }

  /** What `parseInt` reads after the sign. */
  function ParseUnsigned(u: string): (r: Option<nat>)
    ensures AllDigits(u) && u != [] ==> r == Some(DigitsValue(u))
  {
    if |u| >= 2 && u[0] == '0' && (u[1] == 'x' || u[1] == 'X') then
      var h := LeadingHexDigits(u[2..]);
      if h == [] then None else Some(HexDigitsValue(h))
    else
      var d := LeadingDigits(u);
      if d == [] then None else Some(DigitsValue(d))
  }

  /** A hexadecimal digit of either case. */
  predicate IsHexDigit(c: char) {
    IsDigit(c) || 'a' <= c <= 'f' || 'A' <= c <= 'F'
  }

  predicate AllHexDigits(s: string) {
    forall i :: 0 <= i < |s| ==> IsHexDigit(s[i])
  }

  function HexDigitValue(c: char): (d: nat)
    requires IsHexDigit(c)
    ensures d < 16
  {
    if IsDigit(c) then DigitValue(c)
    else if 'a' <= c <= 'f' then c as int - 'a' as int + 10
    else c as int - 'A' as int + 10
  }

  /** The value of a string of hexadecimal digits. */
  function HexDigitsValue(s: string): nat
    requires AllHexDigits(s)
  {
    if s == [] then 0 else HexDigitsValue(s[..|s| - 1]) * 16 + HexDigitValue(s[|s| - 1])
  }

  /** The longest prefix of `s` made of hexadecimal digits. */
  function LeadingHexDigits(s: string): (r: string)
    ensures |r| <= |s| && AllHexDigits(r) && r == s[..|r|]
    ensures |r| < |s| ==> !IsHexDigit(s[|r|])
  {
    if s != [] && IsHexDigit(s[0]) then [s[0]] + LeadingHexDigits(s[1..]) else []
  }

  /** Without a sign, `parseInt` reads the trimmed string as it is. */
  lemma ParseIntUnsigned(t: string)
    requires t != [] && t[0] != '-' && t[0] != '+'
    ensures ParseSigned(t) == ParseUnsigned(t)
  {
  }

  lemma HexDigits1F()
    ensures LeadingHexDigits("1F") == "1F" && HexDigitsValue("1F") == 31
  {
    assert "1F"[1..] == "F";
    assert LeadingHexDigits("F") == "F" by { assert "F"[1..] == ""; }
    assert "1F"[..1] == "1";
    assert "1"[..0] == "";
  }

  /** A "0x" prefix reads the rest in base sixteen. */
  lemma ParseIntHexExample()
    ensures ParseInt("0x1F") == Some(31)
  {
    ParseIntTrimmedUnsigned("0x1F");
    assert "0x1F"[2..] == "1F";
    HexDigits1F();
  }

  /** A string that starts with neither whitespace nor a sign is read without a sign. */
  lemma ParseIntTrimmedUnsigned(t: string)
    requires t != [] && !IsWhitespace(t[0]) && t[0] != '-' && t[0] != '+'
    ensures ParseInt(t) == ParseUnsigned(t)
  {
    TrimStartStops(t);
    ParseIntUnsigned(t);
  }

  /** A "0x" prefix with no hexadecimal digit after it gives NaN. */
  lemma ParseIntBareHexPrefix()
    ensures ParseInt("0x") == None
  {
    ParseIntTrimmedUnsigned("0x");
    assert "0x"[2..] == "";
  }

  /** A minus sign negates what follows it. */
  lemma ParseIntNegative(t: string)
    requires t != [] && t[0] == '-' && ParseUnsigned(t[1..]).Some?
    ensures ParseInt(t) == Some(-(ParseUnsigned(t[1..]).value as int))
  {
    TrimStartStops(t);
    ParseSignedNegative(t);
  }

  lemma ParseSignedNegative(t: string)
    requires t != [] && t[0] == '-' && ParseUnsigned(t[1..]).Some?
    ensures ParseSigned(t) == Some(-(ParseUnsigned(t[1..]).value as int))
  {
  }

  /** Trimming stops at once at a character that is not whitespace. */
  lemma TrimStartStops(t: string)
    requires t != [] && !IsWhitespace(t[0])
    ensures TrimStart(t) == t
  {
  }

  /** Leading whitespace is skipped. */
  lemma ParseIntSkipsWhitespace(t: string)
    requires t != [] && IsWhitespace(t[0])
    ensures ParseInt(t) == ParseInt(t[1..])
  {
  }

  lemma Digits12a()
    ensures ParseUnsigned("12a") == Some(12)
  {
    assert "12a"[1..] == "2a";
    assert "2a"[1..] == "a";
    assert LeadingDigits("a") == "";
    assert LeadingDigits("12a") == "12";
    assert "12"[..1] == "1";
    assert "1"[..0] == "";
    assert DigitsValue("12") == 12;
  }

  /** A sign is read, and reading stops at the first character that is not a digit. */
  lemma ParseIntSignedExample()
    ensures ParseInt(" -12a") == Some(-12)
  {
    ParseIntSkipsWhitespace(" -12a");
    assert " -12a"[1..] == "-12a";
    Digits12a();
    assert "-12a"[1..] == "12a";
    ParseIntNegative("-12a");
  }

  /** A leading zero is an ordinary decimal digit. */
  lemma ParseIntLeadingZero()
    ensures ParseInt("07") == Some(7)
  {
    assert AllDigits("07");
    assert DigitsValue("07") == 7 by {
      assert "07"[..1] == "0";
      assert "0"[..0] == "";
    }
  }

  /** A string that does not start with a digit is NaN. */
  lemma ParseIntNoDigit()
    ensures ParseInt("x1") == None
  {
    ParseIntTrimmedUnsigned("x1");
    assert LeadingDigits("x1") == "";
  }

  /** The longest prefix of `s` made of digits. */
  function LeadingDigits(s: string): (r: string)
    ensures |r| <= |s| && AllDigits(r) && r == s[..|r|]
    ensures |r| < |s| ==> !IsDigit(s[|r|])
    ensures AllDigits(s) ==> r == s
  {
    if s != [] && IsDigit(s[0]) then [s[0]] + LeadingDigits(s[1..]) else []
  }

  /** `Math.trunc(a / b)`: the quotient rounded toward zero. */
  function TruncDiv(a: int, b: int): int
    requires b > 0
  {
    if a >= 0 then a / b else -((-a) / b)
  }

  /** JavaScript's `a % b` for a positive divisor: what is left of `a` after taking away `b`
      times the quotient rounded toward zero; it has the sign of `a`. */
  function Rem(a: int, b: int): (r: int)
    requires b > 0
    ensures a == b * TruncDiv(a, b) + r
    ensures -b < r < b
    ensures a >= 0 ==> r >= 0
    ensures a <= 0 ==> r <= 0
  {
    if a >= 0 then a % b else -((-a) % b)
  }
}
