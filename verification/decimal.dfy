/** Decimal text for Swift's `Int`: the `Int(_:)` parser applied to version
    components and the `"\(count)"` rendering used for token counts. */
module Decimal {
  import opened Wrappers

  /** Bounds of Swift's 64-bit `Int`. */
  const MinInt64: int := -0x8000_0000_0000_0000
  const MaxInt64: int := 0x7FFF_FFFF_FFFF_FFFF

  type Int64 = x: int | MinInt64 <= x <= MaxInt64

  predicate IsDigit(c: char) {
    '0' <= c <= '9'
  }

  predicate AllDigits(s: string) {
    forall i | 0 <= i < |s| :: IsDigit(s[i])
  }

  function DigitChar(d: nat): (c: char)
    requires d < 10
    ensures IsDigit(c)
  {
    ('0' as int + d) as char
  }

  /** The value of a run of decimal digits, most significant first. */
  function DigitsValue(s: string): nat
    requires AllDigits(s)
  {
    if |s| == 0 then 0
    else DigitsValue(s[..|s| - 1]) * 10 + (s[|s| - 1] as int - '0' as int)
  }

  /** Canonical decimal text: an optional `-`, then digits with no leading zero
      (a lone "0" aside); no `+`, and no "-0". */
  predicate Canonical(s: string) {
    if |s| >= 1 && s[0] == '-' then |s| >= 2 && AllDigits(s[1..]) && s[1] != '0'
    else |s| >= 1 && AllDigits(s) && (|s| == 1 || s[0] != '0')
  }

  /** The shortest decimal rendering of a natural number. */
  function ShowNat(n: nat): (s: string)
    ensures |s| >= 1 && AllDigits(s)
    ensures n < 10 ==> |s| == 1
    ensures n >= 1 ==> s[0] != '0'
  {
    if n < 10 then [DigitChar(n)] else ShowNat(n / 10) + [DigitChar(n % 10)]
  }

  /** `"\(n)"`: a minus sign for negative numbers, then the digits of the magnitude. */
  function ShowInt(n: int): (s: string)
    ensures |s| >= 1
    ensures n < 0 <==> s[0] == '-'
    ensures n >= 0 ==> AllDigits(s)
    ensures Canonical(s)
  {
    if n < 0 then "-" + ShowNat(-n) else ShowNat(n)
  }

  /** Swift's `Int(_:)` in radix 10: an optional `+` or `-`, then one or more
      ASCII digits and nothing else, with a value that fits in 64 bits;
      anything else is `nil`. */
  function ParseInt(s: string): (r: Option<int>)
    ensures r.Some? ==> MinInt64 <= r.value <= MaxInt64
    ensures r.Some? ==> |s| >= 1 && (IsDigit(s[0]) || s[0] == '+' || s[0] == '-')
    ensures r.Some? ==> AllDigits(s[1..]) && (s[0] == '+' || s[0] == '-' ==> |s| >= 2)
    ensures r.Some? && s[0] == '-' ==> r.value <= 0
    ensures r.Some? && s[0] != '-' ==> r.value >= 0
    ensures |s| >= 1 && AllDigits(s) ==>
              r == (if DigitsValue(s) <= MaxInt64 then Some(DigitsValue(s)) else None)
    ensures |s| >= 2 && s[0] == '+' && AllDigits(s[1..]) ==>
              r == (if DigitsValue(s[1..]) <= MaxInt64 then Some(DigitsValue(s[1..])) else None)
    ensures |s| >= 2 && s[0] == '-' && AllDigits(s[1..]) ==>
              r == (if DigitsValue(s[1..]) <= -MinInt64 then Some(-(DigitsValue(s[1..]) as int)) else None)
  {
    if |s| == 0 then None
    else if s[0] == '+' || s[0] == '-' then
      var digits := s[1..];
      if |digits| == 0 || !AllDigits(digits) then None
      else if s[0] == '-' then
        var v: int := 0 - DigitsValue(digits);
        (if v < MinInt64 then None else Some(v))
      else
        (if DigitsValue(digits) > MaxInt64 then None else Some(DigitsValue(digits)))
    else if !AllDigits(s) then None
    else if DigitsValue(s) > MaxInt64 then None
    else Some(DigitsValue(s))
  }

  lemma {:induction false} DigitsValueShowNat(n: nat)
    ensures DigitsValue(ShowNat(n)) == n
  {
    if n >= 10 {
      var s := ShowNat(n);
      var prefix := ShowNat(n / 10);
      assert s == prefix + [DigitChar(n % 10)];
      assert s[..|s| - 1] == prefix;
      DigitsValueShowNat(n / 10);
    }
  }

  /** Parsing inverts rendering for every 64-bit integer. */
  lemma ParseShowInt(n: Int64)
    ensures ParseInt(ShowInt(n)) == Some(n)
  {
    if n < 0 {
      var m: nat := 0 - n;
      assert ShowInt(n)[1..] == ShowNat(m);
      DigitsValueShowNat(m);
    } else {
      DigitsValueShowNat(n);
    }
  }

  lemma {:induction false} DigitsValuePositive(s: string)
    requires |s| >= 1 && AllDigits(s) && s[0] != '0'
    ensures DigitsValue(s) >= 1
  {
    if |s| > 1 {
      var init := s[..|s| - 1];
      assert init[0] == s[0];
      DigitsValuePositive(init);
    }
  }

  /** A digit run without a leading zero is the rendering of its value. */
  lemma {:induction false} ShowNatDigitsValue(s: string)
    requires |s| >= 1 && AllDigits(s) && (|s| == 1 || s[0] != '0')
    ensures ShowNat(DigitsValue(s)) == s
  {
    var last := s[|s| - 1];
    var d := last as int - '0' as int;
    if |s| == 1 {
      assert s[..0] == [];
      assert DigitChar(d) == last;
      assert s == [last];
    } else {
      var init := s[..|s| - 1];
      assert init[0] == s[0];
      DigitsValuePositive(init);
      ShowNatDigitsValue(init);
      var n := DigitsValue(s);
      assert n == DigitsValue(init) * 10 + d;
      assert n / 10 == DigitsValue(init) && n % 10 == d;
      assert DigitChar(d) == last;
      assert s == init + [last];
    }
  }

  /** The rendering is the only canonical text of a value: canonical text that
      parses to `n` is exactly `"\(n)"`. */
  lemma ShowParseCanonical(s: string)
    requires Canonical(s) && ParseInt(s).Some?
    ensures ShowInt(ParseInt(s).value) == s
  {
    if s[0] == '-' {
      var digits := s[1..];
      DigitsValuePositive(digits);
      ShowNatDigitsValue(digits);
      assert ParseInt(s).value == -(DigitsValue(digits) as int);
      assert s == "-" + digits;
    } else {
      ShowNatDigitsValue(s);
    }
  }

  /** A character that is neither a digit nor a leading sign makes the parse fail. */
  lemma ParseRejectsStray(s: string, i: nat)
    requires i < |s| && !IsDigit(s[i])
    requires i > 0 || (s[0] != '+' && s[0] != '-')
    ensures ParseInt(s) == None
  {
  }
}
