/**
 * The pieces of the Kotlin standard library that the view models lean on:
 * `Char.isWhitespace`, `String.isBlank`, `String.trim`, `String.toIntOrNull`
 * (radix 10) and `Int.toString`. Kotlin's `Int` is a 32-bit two's-complement
 * integer, modelled as the subset type `Int32`.
 */
module KotlinText {
  import opened Optional

  const IntMin: int := -0x8000_0000
  const IntMax: int := 0x7FFF_FFFF

  /** Kotlin's `Int`: -2^31 .. 2^31-1. */
  type Int32 = x: int | -0x8000_0000 <= x <= 0x7FFF_FFFF

  /**
   * Kotlin/JVM `Char.isWhitespace()`, that is `Character.isWhitespace(c) ||
   * Character.isSpaceChar(c)`: the ASCII controls TAB..CR and FS..US, every
   * space separator (Zs, non-breaking ones included), and the line and
   * paragraph separators.
   */
  predicate IsWhitespace(c: char)
    ensures IsWhitespace(c) ==> !IsDigit(c) && !IsSign(c)
  {
    || ('\t' <= c <= '\r')
    || ('\U{1C}' <= c <= '\U{1F}')
    || c == ' '
    || c == '\U{A0}'
    || c == '\U{1680}'
    || ('\U{2000}' <= c <= '\U{200A}')
    || c == '\U{2028}'
    || c == '\U{2029}'
    || c == '\U{202F}'
    || c == '\U{205F}'
    || c == '\U{3000}'
  }

  /** `CharSequence.isBlank()`: empty, or whitespace only. */
  predicate IsBlank(s: string)
    ensures s == [] ==> IsBlank(s)
    ensures IsBlank(s) && s != [] ==> IsWhitespace(s[0]) && IsWhitespace(s[|s| - 1])
  {
    forall i | 0 <= i < |s| :: IsWhitespace(s[i])
  }

  /** Drops the leading whitespace. */
  function TrimStart(s: string): string
    decreases |s|
  {
    if |s| > 0 && IsWhitespace(s[0]) then TrimStart(s[1..]) else s
  }

  /** Drops the trailing whitespace. */
  function TrimEnd(s: string): string
    decreases |s|
  {
    if |s| > 0 && IsWhitespace(s[|s| - 1]) then TrimEnd(s[..|s| - 1]) else s
  }

  /** What `TrimStart` keeps is a suffix not starting with whitespace, and what it drops is blank. */
  lemma {:induction false} TrimStartSpec(s: string)
    ensures var r := TrimStart(s);
      && |r| <= |s| && r == s[|s| - |r|..]
      && IsBlank(s[..|s| - |r|])
      && (r != [] ==> !IsWhitespace(r[0]))
    decreases |s|
  {
    if |s| > 0 && IsWhitespace(s[0]) {
      var tail := s[1..];
      var r := TrimStart(tail);
      TrimStartSpec(tail);
      assert r == s[|s| - |r|..];
      var dropped := s[..|s| - |r|];
      forall i | 0 <= i < |dropped| ensures IsWhitespace(dropped[i]) {
        if i > 0 {
          assert dropped[i] == tail[..|tail| - |r|][i - 1];
        }
      }
    } else {
      assert s[..0] == [];
    }
  }

  /** What `TrimEnd` keeps is a prefix not ending with whitespace, and what it drops is blank. */
  lemma {:induction false} TrimEndSpec(s: string)
    ensures var r := TrimEnd(s);
      && |r| <= |s| && r == s[..|r|]
      && IsBlank(s[|r|..])
      && (r != [] ==> !IsWhitespace(r[|r| - 1]))
    decreases |s|
  {
    if |s| > 0 && IsWhitespace(s[|s| - 1]) {
      var init := s[..|s| - 1];
      var r := TrimEnd(init);
      TrimEndSpec(init);
      assert r == s[..|r|];
      var dropped := s[|r|..];
      forall i | 0 <= i < |dropped| ensures IsWhitespace(dropped[i]) {
        if i < |dropped| - 1 {
          assert dropped[i] == init[|r|..][i];
        }
      }
    } else {
      assert s[|s|..] == [];
    }
  }

  /**
   * `String.trim()`: what is left after removing whitespace at both ends. It
   * is empty exactly when `s` is blank, and otherwise starts and ends with a
   * non-whitespace character; `TrimIsInfix` shows it is an infix of `s`.
   */
  function Trim(s: string): (r: string)
    ensures r == [] <==> IsBlank(s)
    ensures r != [] ==> !IsWhitespace(r[0]) && !IsWhitespace(r[|r| - 1])
  {
    TrimEmptyIffBlank(s);
    TrimStartSpec(s);
    TrimEndSpec(TrimStart(s));
    var r := TrimEnd(TrimStart(s));
    assert r != [] ==> r[0] == TrimStart(s)[0];
    r
  }

  /** `r` is `s[i..i + |r|]` and everything of `s` around it is blank. */
  predicate IsInfixWithBlankMargins(r: string, s: string, i: int) {
    0 <= i <= |s| - |r| && r == s[i..i + |r|] && IsBlank(s[..i]) && IsBlank(s[i + |r|..])
  }

  /** Trimming removes only whitespace, and only at the two ends. */
  lemma TrimIsInfix(s: string)
    ensures exists i :: IsInfixWithBlankMargins(Trim(s), s, i)
  {
    TrimMargins(s);
    var i := |s| - |TrimStart(s)|;
    assert IsInfixWithBlankMargins(Trim(s), s, i);
  }

  lemma {:induction false} TrimMargins(s: string)
    ensures IsInfixWithBlankMargins(TrimEnd(TrimStart(s)), s, |s| - |TrimStart(s)|)
  {
    var u := TrimStart(s);
    var r := TrimEnd(u);
    var i := |s| - |u|;
    TrimStartSpec(s);
    TrimEndSpec(u);
    SliceOfSuffix(s, i, |r|);
    assert IsBlank(s[..i]);
    assert IsBlank(s[i + |r|..]) by {
      assert s[i + |r|..] == u[|r|..];
    }
  }

  lemma SliceOfSuffix(s: string, i: nat, n: nat)
    requires i + n <= |s|
    ensures s[i..][..n] == s[i..i + n] && s[i..][n..] == s[i + n..]
  {
  }

  lemma {:induction false} TrimEmptyIffBlank(s: string)
    ensures TrimEnd(TrimStart(s)) == [] <==> IsBlank(s)
  {
    var u := TrimStart(s);
    TrimStartSpec(s);
    TrimEndSpec(u);
    if TrimEnd(u) == [] {
      assert u == [];
      assert s[..|s|] == s;
    } else {
      assert !IsWhitespace(u[0]);
      assert u[0] == s[|s| - |u|];
    }
  }

  lemma {:induction false} TrimKeepsTrimmed(s: string)
    requires s == [] || (!IsWhitespace(s[0]) && !IsWhitespace(s[|s| - 1]))
    ensures Trim(s) == s
  {
    assert TrimStart(s) == s;
    assert TrimEnd(s) == s;
  }

  /** Trimming twice is trimming once. */
  lemma TrimIdempotent(s: string)
    ensures Trim(Trim(s)) == Trim(s)
  {
    TrimKeepsTrimmed(Trim(s));
  }

  /** A string is blank after trimming exactly when it was blank before. */
  lemma TrimmedBlankIffBlank(s: string)
    ensures IsBlank(Trim(s)) <==> IsBlank(s)
  {
    var r := Trim(s);
    if r != [] {
      assert !IsWhitespace(r[0]);
    }
  }

  predicate IsDigit(c: char) {
    '0' <= c <= '9'
  }

  predicate IsSign(c: char) {
    c == '-' || c == '+'
  }

  predicate AllDigits(s: string) {
    forall i | 0 <= i < |s| :: IsDigit(s[i])
  }

  function DigitValue(c: char): (d: nat)
    requires IsDigit(c)
    ensures d < 10
  {
    c as int - '0' as int
  }

  function DigitChar(d: nat): (c: char)
    requires d < 10
    ensures IsDigit(c) && DigitValue(c) == d
  {
    ('0' as int + d) as char
  }

  /** The value of a non-empty run of decimal digits, most significant first. */
  function DigitsValue(s: string): nat
    requires AllDigits(s)
    decreases |s|
  {
    if s == [] then 0 else DigitsValue(s[..|s| - 1]) * 10 + DigitValue(s[|s| - 1])
  }

  /**
   * `String.toIntOrNull()` in radix 10: an optional sign `-` or `+`, then at
   * least one decimal digit and nothing else, and a value that fits an `Int`;
   * any other text gives `null`. Leading zeros are allowed.
   */
  function ToIntOrNull(s: string): (r: Option<Int32>)
    ensures r.Some? ==> |s| > 0 && IsDigit(s[|s| - 1])
    ensures r.Some? ==> forall i | 0 <= i < |s| :: IsDigit(s[i]) || (i == 0 && IsSign(s[i]))
    ensures r.Some? && r.value < 0 ==> s[0] == '-'
  {
    if |s| == 0 then None
    else
      var digits := if IsSign(s[0]) then s[1..] else s;
      if digits == [] || !AllDigits(digits) then None
      else
        var magnitude := DigitsValue(digits);
        var value: int := if s[0] == '-' then -(magnitude as int) else magnitude;
        assert digits[|digits| - 1] == s[|s| - 1];
        assert forall i | 0 < i < |s| :: IsDigit(s[i]) by {
          forall i | 0 < i < |s| ensures IsDigit(s[i]) {
            if IsSign(s[0]) { assert s[i] == digits[i - 1]; } else { assert s[i] == digits[i]; }
          }
        }
        if IntMin <= value <= IntMax then Some(value) else None
  }

  /** The `Int` written as `sign` followed by the digits `d`, before the range check. */
  function SignedValue(sign: string, d: string): int
    requires AllDigits(d)
  {
    if sign == "-" then -(DigitsValue(d) as int) else DigitsValue(d)
  }

  /**
   * Well-formed text parses to its value: an optional `-` or `+` and a
   * non-empty run of digits (leading zeros allowed) give the signed value of
   * the digits when it fits an `Int`, and null when it does not.
   */
  lemma {:induction false} ToIntOrNullValue(sign: string, d: string)
    requires sign == "" || sign == "+" || sign == "-"
    requires d != [] && AllDigits(d)
    ensures var v := SignedValue(sign, d);
      ToIntOrNull(sign + d) == if IntMin <= v <= IntMax then Some(v) else None
  {
    var s := sign + d;
    if sign == "" {
      assert s == d;
      assert !IsSign(s[0]);
    } else {
      assert s[0] == sign[0] && IsSign(s[0]);
      assert s[1..] == d;
    }
    assert (if IsSign(s[0]) then s[1..] else s) == d;
    assert (s[0] == '-') == (sign == "-");
  }

  /** Text that parses as an `Int` holds no whitespace at all. */
  lemma ParsedTextHasNoWhitespace(s: string)
    requires ToIntOrNull(s).Some?
    ensures forall i | 0 <= i < |s| :: !IsWhitespace(s[i])
  {
    forall i | 0 <= i < |s| ensures !IsWhitespace(s[i]) {
      assert IsDigit(s[i]) || IsSign(s[i]);
    }
  }

  /** Blank text never parses, so an `isBlank` check before `toIntOrNull` only chooses the message. */
  lemma BlankNeverParses(s: string)
    requires IsBlank(s)
    ensures ToIntOrNull(s) == None
  {
  }

  /** Text that parses is already trimmed: trimming it first changes nothing. */
  lemma ParsedTextIsTrimmed(s: string)
    requires ToIntOrNull(s).Some?
    ensures Trim(s) == s
  {
    ParsedTextHasNoWhitespace(s);
    TrimKeepsTrimmed(s);
  }

  /** Decimal digits of a natural number, most significant first, no leading zeros. */
  function NatToString(n: nat): (r: string)
    ensures |r| >= 1 && AllDigits(r)
    ensures |r| > 1 ==> r[0] != '0'
    decreases n
  {
    if n < 10 then [DigitChar(n)] else NatToString(n / 10) + [DigitChar(n % 10)]
  }

  /** `Int.toString()`: a `-` for negative values, then the magnitude's digits. */
  function IntToString(n: int): (r: string)
    ensures |r| >= 1
    ensures n < 0 <==> r[0] == '-'
  {
    if n < 0 then "-" + NatToString(-n) else NatToString(n)
  }

  lemma {:induction false} NatToStringValue(n: nat)
    ensures DigitsValue(NatToString(n)) == n
    decreases n
  {
    var r := NatToString(n);
    if n < 10 {
      assert r[..|r| - 1] == [];
    } else {
      NatToStringValue(n / 10);
      assert r[..|r| - 1] == NatToString(n / 10);
    }
  }

  /** Parsing the decimal rendering of an `Int` gives that `Int` back. */
  lemma IntToStringRoundTrip(n: Int32)
    ensures ToIntOrNull(IntToString(n)) == Some(n)
  {
    var s := IntToString(n);
    if n < 0 {
      NatToStringValue(-(n as int));
      assert s[1..] == NatToString(-(n as int));
    } else {
      NatToStringValue(n);
      assert !IsSign(s[0]);
    }
  }
}
