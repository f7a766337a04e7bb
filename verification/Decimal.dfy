/** Decimal numbers as strconv writes and reads them. */
module Decimal {
  import opened Basics

  predicate IsDigit(c: char) { '0' <= c <= '9' }

  function Itoa(n: nat): (s: string)
    ensures s != "" && forall c | c in s :: IsDigit(c)
  {
    if n < 10 then [('0' as int + n) as char]
    else Itoa(n / 10) + [('0' as int + n % 10) as char]
  }

  function DigitsValue(s: string): nat
    requires forall c | c in s :: IsDigit(c)
  {
    if s == "" then 0
    else
      assert IsDigit(s[|s| - 1]);
      10 * DigitsValue(s[..|s| - 1]) + (s[|s| - 1] as int - '0' as int)
  }

  /** A sign, then digits only, then a value that fits in 64 bits. */
  function Atoi(s: string): Option<int> {
    var negative := s != "" && s[0] == '-';
    var digits := if s != "" && (s[0] == '-' || s[0] == '+') then s[1..] else s;
    if digits == "" || exists c | c in digits :: !IsDigit(c) then None
    else
      var v: int := if negative then 0 - DigitsValue(digits) else DigitsValue(digits);
      if -0x8000_0000_0000_0000 <= v < 0x8000_0000_0000_0000 then Some(v) else None
  }

  lemma {:induction false} DigitsOfItoa(n: nat)
    ensures DigitsValue(Itoa(n)) == n
  {
    if n >= 10 {
      DigitsOfItoa(n / 10);
      assert Itoa(n)[..|Itoa(n)| - 1] == Itoa(n / 10);
    } else {
      assert Itoa(n)[..0] == "";
    }
  }

  /** A written number reads back. */
  lemma {:induction false} AtoiOfItoa(n: nat)
    requires n < 0x8000_0000_0000_0000
    ensures Atoi(Itoa(n)) == Some(n)
  {
    DigitsOfItoa(n);
    assert IsDigit(Itoa(n)[0]);
  }

  /** A readable number is made of a sign and digits. */
  lemma {:induction false} AtoiCharacters(s: string)
    requires Atoi(s).Some?
    ensures s != "" && forall c | c in s :: IsDigit(c) || c == '-' || c == '+'
  {
    if s[0] == '-' || s[0] == '+' {
      assert s == [s[0]] + s[1..];
    }
  }

  /** What is a number: digits, at least one, after at most one sign, and a value of 64 bits. */
  lemma {:induction false} AtoiLaw(s: string)
    requires s != "" && forall c | c in s :: IsDigit(c)
    ensures var v := DigitsValue(s);
            && Atoi(s) == (if v < 0x8000_0000_0000_0000 then Some(v) else None)
            && Atoi(['+'] + s) == Atoi(s)
            && Atoi(['-'] + s) == if v <= 0x8000_0000_0000_0000 then Some(0 - v) else None
  {
    assert IsDigit(s[0]) && s[0] in s;
    assert (['+'] + s)[1..] == s && (['-'] + s)[1..] == s;
  }

  lemma {:induction false} AtoiRefuses(s: string)
    ensures Atoi("") == None && Atoi("+") == None && Atoi("-") == None
    ensures forall i | 1 <= i < |s| && !IsDigit(s[i]) :: Atoi(s) == None
    ensures s != "" && !IsDigit(s[0]) && s[0] != '+' && s[0] != '-' ==> Atoi(s) == None
  {
    forall i | 1 <= i < |s| && !IsDigit(s[i]) ensures Atoi(s) == None {
      assert s[1..][i - 1] == s[i] && s[i] in s;
    }
  }
}
