/** The priority column: Python's int(float(text)) on the decimal forms the
    model accepts, and str() of an int, which is how a priority is written
    back into the row and into the generated code. */
module Numbers {
  import opened Options
  import Text

  predicate IsDigit(c: char) {
    '0' <= c <= '9'
  }

  predicate AllDigits(s: string) {
    forall k :: 0 <= k < |s| ==> IsDigit(s[k])
  }

  /** The value of a string of decimal digits, read most significant first. */
  function DigitsValue(s: string): nat
    requires AllDigits(s)
  {
    if |s| == 0 then 0
    else 10 * DigitsValue(s[..|s| - 1]) + (s[|s| - 1] as int - '0' as int)
  }

  /** The length of the run of digits at the start of s. */
  function LeadingDigits(s: string): (n: nat)
    ensures n <= |s| && AllDigits(s[..n])
    ensures n < |s| ==> !IsDigit(s[n])
  {
    if |s| > 0 && IsDigit(s[0]) then
      1 + LeadingDigits(s[1..])
    else 0
  }

  function Signed(negative: bool, magnitude: nat): int {
    if negative then -(magnitude as int) else magnitude
  }

  /** Digits with an optional fractional part, at least one digit in all;
      the value of the whole part, or None for any other text. */
  function ParseUnsigned(body: string): Option<nat> {
    var n := LeadingDigits(body);
    var rest := body[n..];
    if |rest| == 0 && n > 0 then Some(DigitsValue(body[..n]))
    else if |rest| > 0 && rest[0] == '.' && AllDigits(rest[1..]) && n + |rest| > 1 then
      Some(DigitsValue(body[..n]))
    else None
  }

  /** An optional sign in front of ParseUnsigned's text. */
  function ParseSigned(t: string): Option<int> {
    if |t| > 0 && (t[0] == '+' || t[0] == '-') then
      var r := ParseUnsigned(t[1..]);
      if r.None? then None else Some(Signed(t[0] == '-', r.value))
    else
      var r := ParseUnsigned(t);
      if r.None? then None else Some(r.value as int)
  }

  /** The separator controls U+001C to U+001F. str.isspace() counts them as
      whitespace, but float() trims only ASCII whitespace, after turning
      every other Unicode whitespace character into a space, so these four
      are neither trimmed nor part of any number. */
  predicate IsSeparatorControl(c: char) {
    '\U{1C}' <= c <= '\U{1F}'
  }

  predicate HasSeparatorControl(text: string) {
    exists k :: 0 <= k < |text| && IsSeparatorControl(text[k])
  }

  /** int(float(text)): surrounding whitespace, an optional sign, digits and
      an optional fractional part; the value is truncated toward zero. Any
      other text is unparseable (None), and so is text holding a separator
      control, which float() does not trim. */
  function ParseTruncated(text: string): Option<int> {
    if HasSeparatorControl(text) then None else ParseSigned(Text.Strip(text))
  }

  function Pow2(n: nat): nat {
    if n == 0 then 1 else 2 * Pow2(n - 1)
  }

  /** The least magnitude that float() rounds to infinity: 2^1024 - 2^970,
      halfway between the largest finite double (2^1024 - 2^971) and
      2^1024, a tie that rounding to even takes up. A value is at least
      this exactly when its whole part is, so the test can be made on the
      truncated value. */
  const FloatOverflow: int := Pow2(1024) - Pow2(970)

  /** float(text) is infinite, so int() of it raises OverflowError. */
  predicate Overflows(text: string) {
    var parsed := ParseTruncated(text);
    parsed.Some? && (parsed.value >= FloatOverflow || parsed.value <= -FloatOverflow)
  }

  function DigitChar(d: nat): (c: char)
    requires d < 10
    ensures IsDigit(c)
  {
    ('0' as int + d) as char
  }

  /** str() of a non-negative int: no leading zero except in "0". */
  function NatToString(n: nat): (r: string)
    ensures |r| > 0 && AllDigits(r)
    ensures r[0] == '0' ==> n == 0
  {
    if n < 10 then [DigitChar(n)] else NatToString(n / 10) + [DigitChar(n % 10)]
  }

  /** str() of an int. */
  function IntToString(n: int): (r: string)
    ensures |r| > 0 && (r[0] == '-' <==> n < 0)
    ensures AllDigits(if n < 0 then r[1..] else r)
  {
    if n < 0 then "-" + NatToString(-n) else NatToString(n)
  }

  lemma {:induction false} NatToStringValue(n: nat)
    ensures DigitsValue(NatToString(n)) == n
  {
    if n >= 10 {
      NatToStringValue(n / 10);
      var s := NatToString(n);
      assert s[..|s| - 1] == NatToString(n / 10);
    }
  }

  lemma {:induction false} LeadingDigitsAll(s: string)
    requires AllDigits(s)
    ensures LeadingDigits(s) == |s|
  {
    if |s| > 0 {
      LeadingDigitsAll(s[1..]);
    }
  }

  lemma ParseUnsignedDigits(digits: string)
    requires |digits| > 0 && AllDigits(digits)
    ensures ParseUnsigned(digits) == Some(DigitsValue(digits))
  {
    LeadingDigitsAll(digits);
    assert digits[..|digits|] == digits;
  }

  predicate IsNumberChar(c: char) {
    IsDigit(c) || c == '+' || c == '-' || c == '.'
  }

  /** Text that ParseUnsigned accepts holds only digits and a point. */
  lemma ParseUnsignedChars(body: string)
    requires ParseUnsigned(body).Some?
    ensures forall k :: 0 <= k < |body| ==> IsDigit(body[k]) || body[k] == '.'
  {
    var n := LeadingDigits(body);
    var rest := body[n..];
    forall k | 0 <= k < |body| ensures IsDigit(body[k]) || body[k] == '.' {
      if k < n {
        assert body[k] == body[..n][k];
      } else if k > n {
        assert body[k] == rest[1..][k - n - 1];
      }
    }
  }

  /** Text that ParseSigned accepts holds no separator control. */
  lemma ParseSignedChars(t: string)
    requires ParseSigned(t).Some?
    ensures !HasSeparatorControl(t)
  {
    if |t| > 0 && (t[0] == '+' || t[0] == '-') {
      ParseUnsignedChars(t[1..]);
      forall k | 1 <= k < |t| ensures !IsSeparatorControl(t[k]) {
        assert t[k] == t[1..][k - 1];
      }
    } else {
      ParseUnsignedChars(t);
    }
  }

  /** Text that starts and ends with a character of a number is parsed as it
      stands. */
  lemma ParseTrimmed(s: string)
    requires |s| > 0 && IsNumberChar(s[0]) && IsNumberChar(s[|s| - 1])
    ensures ParseTruncated(s) == ParseSigned(s)
  {
    if HasSeparatorControl(s) {
      if ParseSigned(s).Some? {
        ParseSignedChars(s);
      }
    } else {
      Text.StripUnchanged(s);
    }
  }

  /** A sign in front of unsigned text applies to its value. */
  lemma ParseSignedSign(sign: string, t: string, m: nat)
    requires sign == "" || sign == "+" || sign == "-"
    requires |t| > 0 && t[0] != '+' && t[0] != '-'
    requires ParseUnsigned(t) == Some(m)
    ensures ParseSigned(sign + t) == Some(Signed(sign == "-", m))
  {
    if sign == "" {
      assert sign + t == t;
    } else {
      assert (sign + t)[1..] == t;
    }
  }

  /** A sign followed by digits reads as their signed value. */
  lemma ParseSignedDigits(negative: bool, digits: string)
    requires |digits| > 0 && AllDigits(digits)
    ensures ParseTruncated((if negative then "-" else "") + digits) == Some(Signed(negative, DigitsValue(digits)))
  {
    var sign := if negative then "-" else "";
    var s := sign + digits;
    ParseUnsignedDigits(digits);
    assert IsDigit(digits[0]);
    ParseSignedSign(sign, digits, DigitsValue(digits));
    assert IsNumberChar(s[0]) by {
      if !negative { assert s[0] == digits[0]; }
    }
    assert IsNumberChar(s[|s| - 1]) by {
      assert s[|s| - 1] == digits[|digits| - 1];
    }
    ParseTrimmed(s);
  }

  /** Reading back the text of an int gives the int: the priority written
      into a row as str(int(...)) is recovered by int() when the rows are
      sorted and rendered. */
  lemma ParseIntToString(n: int)
    ensures ParseTruncated(IntToString(n)) == Some(n)
  {
    var m: nat := if n < 0 then -n else n;
    NatToStringValue(m);
    ParseSignedDigits(n < 0, NatToString(m));
  }

  /** Distinct priorities have distinct texts. */
  lemma IntToStringInjective(a: int, b: int)
    requires IntToString(a) == IntToString(b)
    ensures a == b
  {
    ParseIntToString(a);
    ParseIntToString(b);
  }

  lemma ParseUnsignedFraction(whole: string, fraction: string)
    requires AllDigits(whole) && AllDigits(fraction) && |whole| + |fraction| > 0
    ensures ParseUnsigned(whole + "." + fraction) == Some(DigitsValue(whole))
  {
    var tail := "." + fraction;
    var body := whole + tail;
    assert whole + "." + fraction == body;
    LeadingDigitsPrefix(whole, tail);
    assert body[|whole|..] == tail && body[..|whole|] == whole;
    assert tail[0] == '.' && tail[1..] == fraction;
  }

  lemma FractionTextEnds(sign: string, whole: string, fraction: string)
    requires sign == "" || sign == "+" || sign == "-"
    requires AllDigits(whole) && AllDigits(fraction) && |whole| + |fraction| > 0
    ensures var s := sign + (whole + "." + fraction);
      IsNumberChar(s[0]) && IsNumberChar(s[|s| - 1])
  {
    var body := whole + "." + fraction;
    var s := sign + body;
    assert body[0] == '.' || body[0] == whole[0];
    assert |sign| == 0 ==> s[0] == body[0];
    assert s[|s| - 1] == body[|body| - 1];
    assert body[|body| - 1] == '.' || body[|body| - 1] == fraction[|fraction| - 1];
  }

  /** A number with a fractional part is truncated toward zero: the digits
      after the point are ignored, and the sign applies to the whole part. */
  lemma ParseTruncatesFraction(sign: string, whole: string, fraction: string)
    requires sign == "" || sign == "+" || sign == "-"
    requires AllDigits(whole) && AllDigits(fraction) && |whole| + |fraction| > 0
    ensures ParseTruncated(sign + whole + "." + fraction) == Some(Signed(sign == "-", DigitsValue(whole)))
  {
    var body := whole + "." + fraction;
    var s := sign + body;
    assert ParseSigned(s) == Some(Signed(sign == "-", DigitsValue(whole))) by {
      ParseUnsignedFraction(whole, fraction);
      assert body[0] == '.' || body[0] == whole[0];
      ParseSignedSign(sign, body, DigitsValue(whole));
    }
    assert |s| > 0 && IsNumberChar(s[0]) && IsNumberChar(s[|s| - 1]) by {
      FractionTextEnds(sign, whole, fraction);
    }
    ParseTrimmed(s);
    ConcatRegroup(sign, whole, ".", fraction);
  }

  /** Regrouping a concatenation of four strings. */
  lemma ConcatRegroup(a: string, b: string, c: string, d: string)
    ensures a + b + c + d == a + (b + c + d)
  {
  }

  lemma {:induction false} LeadingDigitsPrefix(whole: string, rest: string)
    requires AllDigits(whole)
    requires |rest| > 0 && !IsDigit(rest[0])
    ensures LeadingDigits(whole + rest) == |whole|
  {
    if |whole| > 0 {
      assert (whole + rest)[1..] == whole[1..] + rest;
      LeadingDigitsPrefix(whole[1..], rest);
    } else {
      assert whole + rest == rest;
    }
  }

  /** Text that starts with a character that is neither whitespace nor part
      of a number is unparseable. */
  lemma ParseRejects(s: string)
    requires |s| > 0 && !IsNumberChar(s[0]) && !Text.IsSpace(s[0])
    ensures ParseTruncated(s) == None
  {
    var r := Text.Strip(s);
    Text.StripSpec(s);
    var i, j :| 0 <= i <= j <= |s| && r == s[i..j]
             && (forall k :: 0 <= k < i ==> Text.IsSpace(s[k]))
             && (forall k :: j <= k < |s| ==> Text.IsSpace(s[k]));
    assert i == 0 && j > 0;
    assert r[0] == s[0];
    assert LeadingDigits(r) == 0;
  }

  lemma ParseExampleWhole()
    ensures ParseTruncated("2") == Some(2)
  {
    assert DigitsValue("2") == 2 by {
      assert "2"[..0] == "";
    }
    assert "" + "2" == "2";
    ParseSignedDigits(false, "2");
  }

  lemma ParseExampleWord()
    ensures ParseTruncated("abc") == None
  {
    ParseRejects("abc");
  }

  /** A separator control makes the text unparseable, even where
      str.isspace() would count it as whitespace. */
  lemma ParseExampleSeparator()
    ensures ParseTruncated("\U{1C}2") == None
  {
    assert IsSeparatorControl("\U{1C}2"[0]);
  }

  /** Other Unicode whitespace, such as the no-break space, is trimmed. */
  lemma ParseExampleNoBreakSpace()
    ensures ParseTruncated("\U{A0}2") == Some(2)
  {
    var s := "\U{A0}2";
    assert !IsSeparatorControl(s[0]) && !IsSeparatorControl(s[1]);
    assert Text.LeadingSpaces(s) == 1 by {
      assert s[1..] == "2";
    }
    assert Text.Strip(s) == "2";
    ParseExampleWhole();
  }
}
