/**
 * Swift's `Int(_ text:, radix:)` (and `Int(_ text:)`, which is radix 10):
 * an optional leading `+` or `-`, then one or more digits of the radix
 * (letters in either case), and a value that fits the 64-bit `Int`.
 * `FormatInt` is the inverse direction (what `String(n, radix:)` prints),
 * used to state the round trip.
 */
module IntParsing {
  import opened Wrappers

  const IntMin: int := -0x8000_0000_0000_0000
  const IntMax: int := 0x7FFF_FFFF_FFFF_FFFF

  /** The values of Swift's 64-bit `Int`. */
  predicate InIntRange(n: int) {
    IntMin <= n <= IntMax
  }

  /** The radixes Swift accepts. */
  type Radix = r: int | 2 <= r <= 36 witness 10

  /** The value of one digit character: `0`-`9`, then `a`-`z` or `A`-`Z` for 10-35. */
  function DigitValue(c: char): (d: Option<nat>)
    ensures d.Some? ==> d.value < 36
    ensures d.Some? <==> ('0' <= c <= '9' || 'a' <= c <= 'z' || 'A' <= c <= 'Z')
  {
    if '0' <= c <= '9' then Some(c as int - '0' as int)
    else if 'a' <= c <= 'z' then Some(c as int - 'a' as int + 10)
    else if 'A' <= c <= 'Z' then Some(c as int - 'A' as int + 10)
    else None
  }

  predicate IsDigit(c: char, radix: Radix) {
    var d := DigitValue(c);
    d.Some? && d.value < radix
  }

  predicate AllDigits(s: string, radix: Radix) {
    forall i | 0 <= i < |s| :: IsDigit(s[i], radix)
  }

  /** The magnitude a string of digits denotes, most significant digit first. */
  function DigitsValue(s: string, radix: Radix): nat
    requires AllDigits(s, radix)
  {
    if s == [] then 0
    else DigitsValue(s[..|s| - 1], radix) * radix + DigitValue(s[|s| - 1]).value
  }

  /** The part of `text` after an optional leading sign. */
  function Unsigned(text: string): string {
    if |text| > 0 && (text[0] == '+' || text[0] == '-') then text[1..] else text
  }

  /** An optional sign followed by one or more digits of the radix. */
  predicate IsIntLiteral(text: string, radix: Radix) {
    |Unsigned(text)| > 0 && AllDigits(Unsigned(text), radix)
  }

  /** The value a well-formed literal denotes: its digits' value, negated after `-`. */
  function SignedValue(text: string, radix: Radix): int
    requires IsIntLiteral(text, radix)
  {
    if text[0] == '-' then -(DigitsValue(Unsigned(text), radix) as int) else DigitsValue(Unsigned(text), radix)
  }

  /** `Int(text, radix: radix)`: nil for an empty digit string, a stray character or overflow. */
  function ParseInt(text: string, radix: Radix): (r: Option<int>)
    ensures r.Some? ==> InIntRange(r.value)
    ensures r.Some? ==> |Unsigned(text)| > 0 && AllDigits(Unsigned(text), radix)
    ensures r.Some? ==> r.value == if text[0] == '-' then -(DigitsValue(Unsigned(text), radix) as int) else DigitsValue(Unsigned(text), radix)
    ensures |Unsigned(text)| > 0 && AllDigits(Unsigned(text), radix) && text[0] != '-' && DigitsValue(Unsigned(text), radix) <= IntMax
      ==> r == Some(DigitsValue(Unsigned(text), radix))
    ensures |Unsigned(text)| > 0 && AllDigits(Unsigned(text), radix) && text[0] == '-' && DigitsValue(Unsigned(text), radix) <= -IntMin
      ==> r == Some(-(DigitsValue(Unsigned(text), radix) as int))
  {
    var digits := Unsigned(text);
    if digits == [] || !AllDigits(digits, radix) then None
    else
      var magnitude: int := DigitsValue(digits, radix);
      var n := if text[0] == '-' then -magnitude else magnitude;
      if InIntRange(n) then Some(n) else None
  }

  /** The lower-case digit character for `d`. */
  function DigitChar(d: nat): (c: char)
    requires d < 36
    ensures DigitValue(c) == Some(d)
  {
    if d < 10 then ('0' as int + d) as char else ('a' as int + d - 10) as char
  }

  /** The digits of `m` in `radix`, with no leading zero. */
  function Digits(m: nat, radix: Radix): string
    decreases m
  {
    if m < radix then [DigitChar(m)] else Digits(m / radix, radix) + [DigitChar(m % radix)]
  }

  /** `String(n, radix: radix)`: a `-` for negatives, then the digits of the magnitude. */
  function FormatInt(n: int, radix: Radix): string {
    if n < 0 then ['-'] + Digits(-n, radix) else Digits(n, radix)
  }

  lemma QuotientDecreases(m: nat, radix: Radix)
    requires m >= radix
    ensures 0 < m / radix < m
    ensures m / radix * radix + m % radix == m
  {
    var q := m / radix;
    assert q * radix + m % radix == m;
    assert q * (radix - 2) >= 0;
  }

  /** Appending one digit keeps a digit string and shifts its value by one place. */
  lemma AppendDigit(p: string, c: char, radix: Radix)
    requires AllDigits(p, radix) && IsDigit(c, radix)
    ensures AllDigits(p + [c], radix)
    ensures DigitsValue(p + [c], radix) == DigitsValue(p, radix) * radix + DigitValue(c).value
  {
    var s := p + [c];
    assert s[..|s| - 1] == p;
    assert forall i | 0 <= i < |p| :: s[i] == p[i];
  }

  /** One step of `Digits`: the digits of the quotient, then the last digit. */
  lemma DigitsStep(m: nat, radix: Radix, p: string)
    requires m >= radix && p == Digits(m / radix, radix)
    requires AllDigits(p, radix) && DigitsValue(p, radix) == m / radix
    ensures AllDigits(Digits(m, radix), radix)
    ensures DigitsValue(Digits(m, radix), radix) == m
  {
    QuotientDecreases(m, radix);
    assert Digits(m, radix) == p + [DigitChar(m % radix)];
    AppendDigit(p, DigitChar(m % radix), radix);
  }

  /** The digits of `m` are a non-empty digit string whose value is `m`. */
  lemma {:induction false} DigitsRoundTrip(m: nat, radix: Radix)
    ensures |Digits(m, radix)| > 0
    ensures AllDigits(Digits(m, radix), radix)
    ensures DigitsValue(Digits(m, radix), radix) == m
  {
    if m < radix {
      AppendDigit([], DigitChar(m), radix);
      assert [] + [DigitChar(m)] == Digits(m, radix);
    } else {
      QuotientDecreases(m, radix);
      DigitsRoundTrip(m / radix, radix);
      DigitsStep(m, radix, Digits(m / radix, radix));
    }
  }

  /**
   * Parsing what `FormatInt` prints gives the number back exactly when it fits
   * in `Int`, and nil otherwise.
   */
  lemma ParseFormatRoundTrip(n: int, radix: Radix)
    ensures ParseInt(FormatInt(n, radix), radix) == if InIntRange(n) then Some(n) else None
  {
    var m := if n < 0 then -n else n;
    DigitsRoundTrip(m, radix);
    var d := Digits(m, radix);
    assert IsDigit(d[0], radix);
    if n < 0 {
      assert Unsigned(FormatInt(n, radix)) == d;
    } else {
      assert Unsigned(FormatInt(n, radix)) == d;
    }
  }

  /** An explicit `+` sign is accepted and changes nothing. */
  lemma PlusSignAccepted(text: string, radix: Radix)
    requires |text| > 0 && text[0] != '+' && text[0] != '-'
    ensures ParseInt(['+'] + text, radix) == ParseInt(text, radix)
  {
    assert Unsigned(['+'] + text) == text;
  }

  /** Letter digits are read the same in upper and lower case. */
  lemma {:induction false} DigitsCaseInsensitive(s: string, t: string, radix: Radix)
    requires |s| == |t| && AllDigits(s, radix)
    requires forall i | 0 <= i < |s| :: t[i] == s[i] || ('a' <= s[i] <= 'z' && t[i] as int == s[i] as int - 32)
    ensures AllDigits(t, radix) && DigitsValue(t, radix) == DigitsValue(s, radix)
  {
    assert forall i | 0 <= i < |s| :: DigitValue(t[i]) == DigitValue(s[i]);
    if s != [] {
      DigitsCaseInsensitive(s[..|s| - 1], t[..|t| - 1], radix);
    }
  }

  /** `z` zero characters. */
  function Zeros(z: nat): (s: string)
    ensures |s| == z && forall i | 0 <= i < z :: s[i] == '0'
  {
    seq(z, _ => '0')
  }

  /** A string of zeros is a digit string worth nothing. */
  lemma {:induction false} ZerosValue(z: nat, radix: Radix)
    ensures AllDigits(Zeros(z), radix) && DigitsValue(Zeros(z), radix) == 0
  {
    if z > 0 {
      ZerosValue(z - 1, radix);
      assert Zeros(z)[..z - 1] == Zeros(z - 1);
    }
  }

  /** Leading zeros change neither whether a digit string is valid nor its value. */
  lemma {:induction false} LeadingZerosIgnored(z: nat, s: string, radix: Radix)
    requires AllDigits(s, radix)
    ensures AllDigits(Zeros(z) + s, radix)
    ensures DigitsValue(Zeros(z) + s, radix) == DigitsValue(s, radix)
  {
    ZerosValue(z, radix);
    var zs := Zeros(z) + s;
    assert forall i | 0 <= i < |zs| :: IsDigit(zs[i], radix) by {
      forall i | 0 <= i < |zs| ensures IsDigit(zs[i], radix) {
        if i >= z { assert zs[i] == s[i - z]; }
      }
    }
    if s == [] {
      assert zs == Zeros(z);
    } else {
      var t := s[..|s| - 1];
      assert AllDigits(t, radix) by {
        forall i | 0 <= i < |t| ensures IsDigit(t[i], radix) { assert t[i] == s[i]; }
      }
      LeadingZerosIgnored(z, t, radix);
      assert zs[..|zs| - 1] == Zeros(z) + t;
      assert zs[|zs| - 1] == s[|s| - 1];
    }
  }

  /** A zero-padded, non-negative number parses to that number, however many zeros precede it. */
  lemma ZeroPaddedParse(z: nat, n: int, radix: Radix)
    requires 0 <= n <= IntMax
    ensures ParseInt(Zeros(z) + FormatInt(n, radix), radix) == Some(n)
  {
    var d := FormatInt(n, radix);
    DigitsRoundTrip(n, radix);
    LeadingZerosIgnored(z, d, radix);
    var text := Zeros(z) + d;
    assert IsDigit(text[0], radix);
    assert Unsigned(text) == text;
  }

  /** A digit string is read only when every character is a digit of the radix. */
  lemma ParseRejectsStrayCharacter(text: string, radix: Radix, i: int)
    requires 0 <= i < |Unsigned(text)| && !IsDigit(Unsigned(text)[i], radix)
    ensures ParseInt(text, radix) == None
  {
  }

  /** Edge cases of `Int(_:radix:)`. */
  lemma ParseIntExamples()
    ensures ParseInt("16", 10) == Some(16)
    ensures ParseInt("10", 16) == Some(16)
    ensures ParseInt("fF", 16) == Some(255)
    ensures ParseInt("-10", 16) == Some(-16)
    ensures ParseInt("", 10) == None
    ensures ParseInt("-", 10) == None
    ensures ParseInt("+", 16) == None
    ensures ParseInt("q", 16) == None
    ensures ParseInt("1a", 10) == None
  {
    assert DigitsValue("16", 10) == 16 by {
      assert "16"[..1] == "1";
      assert "1"[..0] == "";
    }
    assert DigitsValue("10", 16) == 16 by {
      assert "10"[..1] == "1";
      assert "1"[..0] == "";
    }
    assert DigitsValue("fF", 16) == 255 by {
      assert "fF"[..1] == "f";
      assert "f"[..0] == "";
    }
    assert Unsigned("-10") == "10";
    assert !IsDigit("1a"[1], 10);
    assert !IsDigit("q"[0], 16);
  }
}
