/** The C11 `atoi` of section 7.22.1.2 of ISO/IEC 9899:2011, on the characters of
    a C string: it skips leading white space (the `isspace` set of the "C"
    locale), accepts one optional sign and then reads decimal digits up to the
    first character that is not one; with no digits the value is 0. The client
    only ever applies it to three characters, so overflow cannot arise. */
module CAtoi {
  import opened Text

  /** `isspace` in the "C" locale: space, tab, newline, vertical tab, form feed
      and carriage return. */
  predicate IsSpace(c: char) {
    c == ' ' || c == '\t' || c == '\n' || c == '\U{B}' || c == '\U{C}' || c == '\r'
  }

  function SkipSpace(s: string): (t: string)
    ensures |t| <= |s|
  {
    if s != [] && IsSpace(s[0]) then SkipSpace(s[1..]) else s
  }

  /** The longest prefix of `s` made of decimal digits. */
  function LeadingDigits(s: string): (ds: string)
    ensures AllDigits(ds) && |ds| <= |s|
  {
    if s != [] && IsDigit(s[0]) then [s[0]] + LeadingDigits(s[1..]) else []
  }

  /** The result is negative only when the first character after the white
      space is a minus sign. */
  function Atoi(s: string): (n: int)
    ensures n < 0 ==> SkipSpace(s) != [] && SkipSpace(s)[0] == '-'
  {
    SignedDigits(SkipSpace(s))
  }

  /** What `atoi` reads once the white space is skipped: an optional sign, then
      the leading digits. */
  function SignedDigits(t: string): int {
    if t != [] && t[0] == '-' then 0 - DecimalValue(LeadingDigits(t[1..]))
    else if t != [] && t[0] == '+' then DecimalValue(LeadingDigits(t[1..]))
    else DecimalValue(LeadingDigits(t))
  }

  /** A string of digits denotes its decimal value. */
  lemma AtoiOfDigits(s: string)
    requires s != [] && AllDigits(s)
    ensures Atoi(s) == DecimalValue(s)
  {
    assert SkipSpace(s) == s;
    LeadingDigitsOfDigits(s);
  }

  lemma {:induction false} LeadingDigitsOfDigits(s: string)
    requires AllDigits(s)
    ensures LeadingDigits(s) == s
  {
    if s != [] {
      LeadingDigitsOfDigits(s[1..]);
    }
  }

  /** The decimal rendering of a number is read back by `atoi`. */
  lemma AtoiOfDecimal(n: nat)
    ensures Atoi(NatToDecimal(n)) == n
  {
    AtoiOfDigits(NatToDecimal(n));
    DecimalRoundTrip(n);
  }

  /** The digits `d0 d1 d2` give `100*d0 + 10*d1 + d2`, a number from 0 to 999. */
  lemma AtoiThreeDigits(s: string)
    requires |s| == 3 && AllDigits(s)
    ensures Atoi(s) == 100 * DigitValue(s[0]) + 10 * DigitValue(s[1]) + DigitValue(s[2])
    ensures 0 <= Atoi(s) <= 999
  {
    AtoiOfDigits(s);
    assert s[..2][..1] == s[..1] && s[..2][1] == s[1];
    assert s[..1][..0] == [] && s[..1][0] == s[0];
    assert DecimalValue(s[..1]) == DigitValue(s[0]);
    assert DecimalValue(s[..2]) == 10 * DigitValue(s[0]) + DigitValue(s[1]);
  }

  lemma {:induction false} DecimalValueBound(ds: string)
    requires AllDigits(ds)
    ensures DecimalValue(ds) < Pow10(|ds|)
  {
    if ds != [] {
      DecimalValueBound(ds[..|ds| - 1]);
    }
  }

  function Pow10(k: nat): (p: nat)
    ensures p >= 1
  {
    if k == 0 then 1 else 10 * Pow10(k - 1)
  }

  /** On three characters `atoi` lies between -99 and 999: a sign leaves at most
      two digits. */
  lemma AtoiThreeCharsRange(s: string)
    requires |s| == 3
    ensures -99 <= Atoi(s) <= 999
  {
    var t := SkipSpace(s);
    if t != [] && (t[0] == '-' || t[0] == '+') {
      var ds := LeadingDigits(t[1..]);
      DecimalValueBound(ds);
      assert |ds| <= 2;
      assert Pow10(|ds|) <= 100;
    } else {
      var ds := LeadingDigits(t);
      DecimalValueBound(ds);
      assert Pow10(|ds|) <= 1000;
    }
  }

  lemma {:induction false} LeadingDigitsStop(s: string, z: char)
    requires !IsDigit(z)
    ensures LeadingDigits(s + [z]) == LeadingDigits(s)
  {
    if s != [] {
      assert (s + [z])[1..] == s[1..] + [z];
      LeadingDigitsStop(s[1..], z);
    }
  }

  /** Terminating the buffer with NUL does not change what `atoi` reads: the
      client writes `'\0'` after the three status characters. */
  lemma {:induction false} AtoiNulTerminated(s: string)
    ensures Atoi(s + ['\0']) == Atoi(s)
  {
    SkipSpaceAppend(s, '\0');
    SignedDigitsNulTerminated(SkipSpace(s));
  }

  lemma SignedDigitsNulTerminated(t: string)
    ensures SignedDigits(t + ['\0']) == SignedDigits(t)
  {
    var u := t + ['\0'];
    if t == [] {
      assert u == ['\0'] && LeadingDigits(u) == [];
    } else if t[0] == '-' || t[0] == '+' {
      assert u[0] == t[0] && u[1..] == t[1..] + ['\0'];
      LeadingDigitsStop(t[1..], '\0');
    } else {
      assert u[0] == t[0];
      LeadingDigitsStop(t, '\0');
    }
  }

  lemma {:induction false} SkipSpaceAppend(s: string, z: char)
    requires !IsSpace(z)
    ensures SkipSpace(s + [z]) == SkipSpace(s) + [z]
  {
    if s != [] {
      assert (s + [z])[1..] == s[1..] + [z];
      SkipSpaceAppend(s[1..], z);
    }
  }
}
