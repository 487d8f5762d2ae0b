/** Go's decimal conversions and its 64-bit `int`. */
module Numerals {
  import opened Basics

  const MIN_INT: int := -0x8000_0000_0000_0000
  const MAX_INT: int := 0x7fff_ffff_ffff_ffff

  predicate IsInt(n: int) {
    MIN_INT <= n <= MAX_INT
  }

  /** The value an overflowing 64-bit result wraps around to. */
  function Wrap(n: int): (r: int)
    ensures IsInt(r) && (IsInt(n) ==> r == n) && (r - n) % 0x1_0000_0000_0000_0000 == 0
  {
    (n - MIN_INT) % 0x1_0000_0000_0000_0000 + MIN_INT
  }

  predicate AllDigits(s: string) {
    forall i :: 0 <= i < |s| ==> '0' <= s[i] <= '9'
  }

  function DigitChar(d: int): char
    requires 0 <= d < 10
  {
    '0' + d as char
  }

  function Digits(n: nat): (s: string)
    ensures s != "" && AllDigits(s) && (n > 0 ==> s[0] != '0')
  {
    if n < 10 then [DigitChar(n)] else Digits(n / 10) + [DigitChar(n % 10)]
  }

  /** `strconv.Itoa`. */
  function Itoa(n: int): (s: string)
    ensures s != ""
  {
    if n < 0 then "-" + Digits(-n) else Digits(n)
  }

  function ParseDigits(s: string): Option<nat> {
    if s == "" then Some(0)
    else
      var front, last := ParseDigits(s[..|s| - 1]), s[|s| - 1];
      if front.Some? && '0' <= last <= '9' then Some(front.value * 10 + (last as int - '0' as int)) else None
  }

  /** `strconv.Atoi`: an optional sign, at least one digit, nothing else, and within the range of `int`. */
  function Atoi(s: string): (n: Option<int>)
    ensures n.Some? ==> IsInt(n.value)
  {
    var signed := s != "" && (s[0] == '-' || s[0] == '+');
    var body := if signed then s[1..] else s;
    var magnitude := if body == "" then None else ParseDigits(body);
    if magnitude.None? then None
    else
      var n: int := if signed && s[0] == '-' then -(magnitude.value as int) else magnitude.value;
      if IsInt(n) then Some(n) else None
  }

  lemma {:induction false} ParseDigitsOfDigits(n: nat)
    ensures ParseDigits(Digits(n)) == Some(n)
  {
    if n < 10 {
      assert Digits(n)[..0] == "";
    } else {
      ParseDigitsOfDigits(n / 10);
      assert Digits(n)[..|Digits(n)| - 1] == Digits(n / 10);
    }
  }

  lemma AtoiOfItoa(n: int)
    requires IsInt(n)
    ensures Atoi(Itoa(n)) == Some(n)
  {
    ParseDigitsOfDigits(if n < 0 then -n else n);
    if n < 0 {
      assert Itoa(n)[1..] == Digits(-n);
    }
  }

  lemma {:induction false} ParseDigitsIff(s: string)
    ensures ParseDigits(s).Some? <==> AllDigits(s)
  {
    if s != "" {
      ParseDigitsIff(s[..|s| - 1]);
      assert s == s[..|s| - 1] + [s[|s| - 1]];
    }
  }

  /** Only an optional sign and at least one digit is a number. */
  lemma AtoiOnlyNumerals(s: string)
    requires Atoi(s).Some?
    ensures s != "" && (AllDigits(s) || (s[0] in {'-', '+'} && |s| > 1 && AllDigits(s[1..])))
  {
    ParseDigitsIff(s);
    if s != "" {
      ParseDigitsIff(s[1..]);
    }
  }
}
