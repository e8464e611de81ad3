/** The few JDK string operations the checks rely on:
    `Integer.parseInt` (radix 10), `Integer.toString`/`Long.toString`
    (the decimal rendering a parsed JSON number prints as) and
    `String.contains`. */
module JavaLang {
  import opened Outcomes

  /** Integer.MAX_VALUE and Integer.MIN_VALUE. */
  const IntMax: int := 0x7fff_ffff
  const IntMin: int := -0x8000_0000

  predicate IsDigit(c: char) {
    '0' <= c <= '9'
  }

  predicate AllDigits(s: string) {
    forall i :: 0 <= i < |s| ==> IsDigit(s[i])
  }

  function DigitValue(c: char): (d: nat)
    requires IsDigit(c)
    ensures d < 10
  {
    c as int - '0' as int
  }

  function DigitChar(d: nat): (c: char)
    requires d < 10
    ensures IsDigit(c) && DigitValue(c) == d
  {
    ('0' as int + d) as char
  }

  /** The magnitude a decimal digit string denotes, most significant digit first. */
  function DigitsValue(s: string): nat
    requires AllDigits(s)
    decreases |s|
  {
    if s == [] then 0 else DigitsValue(s[..|s| - 1]) * 10 + DigitValue(s[|s| - 1])
  }

  /** Integer.parseInt(s): an optional '+' or '-' followed by at least one
      digit, whose value must fit in 32 bits; anything else throws
      NumberFormatException. */
  function ParseInt(s: string): (r: Result<int>)
    ensures r.Ok? ==> IntMin <= r.value <= IntMax
    ensures r.Err? ==> r.failure == NumberFormat(s)
  {
    if |s| == 0 then Err(NumberFormat(s))
    else
      var negative := s[0] == '-';
      var digits := if s[0] == '-' || s[0] == '+' then s[1..] else s;
      if digits == [] || !AllDigits(digits) then Err(NumberFormat(s))
      else
        var magnitude: int := DigitsValue(digits);
        var v := if negative then -magnitude else magnitude;
        if IntMin <= v <= IntMax then Ok(v) else Err(NumberFormat(s))
  }

  /** The decimal digits of m, without leading zeros. */
  function Digits(m: nat): (s: string)
    ensures |s| > 0 && AllDigits(s) && DigitsValue(s) == m
    ensures s[0] != '0' || m == 0
    decreases m
  {
    if m < 10 then [DigitChar(m)]
    else
      var prefix := Digits(m / 10);
      var s := prefix + [DigitChar(m % 10)];
      assert s[..|s| - 1] == prefix;
      s
  }

  /** Integer.toString(n) / Long.toString(n): a '-' for negative values, then the digits. */
  function IntToString(n: int): string {
    if n < 0 then "-" + Digits(-n) else Digits(n)
  }

  /** Reading back what Integer.toString wrote gives the same integer. */
  lemma ParseIntToString(n: int)
    requires IntMin <= n <= IntMax
    ensures ParseInt(IntToString(n)) == Ok(n)
  {
    var s := IntToString(n);
    if n < 0 {
      assert s[1..] == Digits(-n);
    } else {
      var d := Digits(n);
      assert IsDigit(d[0]);
    }
  }

  /** String.startsWith. */
  predicate StartsWith(s: string, prefix: string) {
    |prefix| <= |s| && s[..|prefix|] == prefix
  }

  /** String.contains: some suffix of s starts with t. */
  predicate Contains(s: string, t: string)
    decreases |s|
  {
    StartsWith(s, t) || (|s| > 0 && Contains(s[1..], t))
  }

  /** t occurs in s starting at index i. */
  predicate OccursAt(s: string, t: string, i: int) {
    0 <= i <= |s| - |t| && s[i..i + |t|] == t
  }

  /** Contains holds exactly when t occurs in s at some position. */
  lemma {:induction false} ContainsIff(s: string, t: string)
    ensures Contains(s, t) <==> exists i :: OccursAt(s, t, i)
  {
    if StartsWith(s, t) {
      assert OccursAt(s, t, 0);
    }
    if |s| > 0 {
      ContainsIff(s[1..], t);
      if Contains(s[1..], t) {
        var i :| OccursAt(s[1..], t, i);
        assert s[i + 1..i + 1 + |t|] == s[1..][i..i + |t|];
        assert OccursAt(s, t, i + 1);
      }
      if i :| OccursAt(s, t, i) {
        if i > 0 {
          assert s[1..][i - 1..i - 1 + |t|] == s[i..i + |t|];
          assert OccursAt(s[1..], t, i - 1);
        } else {
          assert StartsWith(s, t);
        }
      }
    } else if i :| OccursAt(s, t, i) {
      assert StartsWith(s, t);
    }
  }

  /** A leading zero does not change the value of a digit string. */
  lemma {:induction false} LeadingZero(s: string)
    requires AllDigits(s)
    ensures AllDigits("0" + s) && DigitsValue("0" + s) == DigitsValue(s)
    decreases |s|
  {
    if s != [] {
      var init := s[..|s| - 1];
      LeadingZero(init);
      assert ("0" + s)[..|"0" + s| - 1] == "0" + init;
    }
  }

  /** parseInt reads a leading '+' or a leading zero in front of a digit
      string as the same number, so every such spelling of
      Integer.MAX_VALUE parses to it. */
  lemma ParseIntSpellings(s: string)
    requires |s| > 0 && AllDigits(s)
    ensures ParseInt("+" + s).Ok? <==> ParseInt(s).Ok?
    ensures ParseInt("0" + s).Ok? <==> ParseInt(s).Ok?
    ensures ParseInt(s).Ok? ==> ParseInt("+" + s).value == ParseInt(s).value == ParseInt("0" + s).value
  {
    assert ("+" + s)[1..] == s;
    LeadingZero(s);
  }

  /** A lone sign is rejected. */
  lemma ParseIntRejects()
    ensures ParseInt("-").Err? && ParseInt("+").Err?
  {
  }

  /** Any text ending in a non-digit is rejected. */
  lemma {:induction false} RejectsTrailingNonDigit(s: string, c: char)
    requires !IsDigit(c)
    ensures ParseInt(s + [c]).Err?
  {
    var t := s + [c];
    assert t[|t| - 1] == c;
    if t[0] == '-' || t[0] == '+' {
      if |t| > 1 {
        assert t[1..][|t| - 2] == c;
      }
    }
  }
}
