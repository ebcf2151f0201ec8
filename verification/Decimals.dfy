// Decimal text: what Go's strconv and JavaScript's parseInt/String do with
// the numbers in EVMFS paths.
module Decimals {
  import opened Evmfs

  const MAX_INT64: nat := 0x7fff_ffff_ffff_ffff

  predicate IsDigit(c: char) {
    '0' <= c <= '9'
  }

  predicate AllDigits(s: string) {
    forall c <- s :: IsDigit(c)
  }

  function DigitValue(c: char): (v: nat)
    requires IsDigit(c)
    ensures v < 10
  {
    (c - '0') as nat
  }

  function DigitsValue(s: string): nat
    requires AllDigits(s)
  {
    if s == "" then 0 else DigitsValue(s[..|s| - 1]) * 10 + DigitValue(s[|s| - 1])
  }

  function Decimal(n: nat): (s: string)
    ensures s != "" && AllDigits(s)
  {
    if n < 10 then ['0' + n as char] else Decimal(n / 10) + ['0' + (n % 10) as char]
  }

  lemma {:induction false} DecimalValue(n: nat)
    ensures DigitsValue(Decimal(n)) == n
  {
    if n < 10 {
      assert Decimal(n)[..0] == "";
    } else {
      DecimalValue(n / 10);
      assert Decimal(n)[..|Decimal(n)| - 1] == Decimal(n / 10);
    }
  }

  /** strconv.ParseInt(s, 10, 64) on digits, its range error ignored as the
      caller does: the value, or the largest int64. */
  function ParseInt64(s: string): (n: nat)
    requires AllDigits(s)
    ensures n <= MAX_INT64
  {
    if DigitsValue(s) <= MAX_INT64 then DigitsValue(s) else MAX_INT64
  }

  /** strconv.Atoi: an optional sign and digits, within 64 bits. */
  function Atoi(s: string): Option<int> {
    var signed := s != "" && (s[0] == '+' || s[0] == '-');
    var digits := if signed then s[1..] else s;
    if digits == "" || !AllDigits(digits) then None
    else
      var v: int := if signed && s[0] == '-' then 0 - DigitsValue(digits) else DigitsValue(digits);
      if 0 - MAX_INT64 - 1 <= v <= MAX_INT64 then Some(v) else None
  }

  lemma {:induction false} AtoiDecimal(n: nat)
    requires n <= MAX_INT64
    ensures Atoi(Decimal(n)) == Some(n)
  {
    DecimalValue(n);
    assert Decimal(n)[0] in Decimal(n);
  }

  /** Zeros in front do not change the value. */
  lemma {:induction false} LeadingZero(s: string)
    requires AllDigits(s)
    ensures AllDigits("0" + s) && DigitsValue("0" + s) == DigitsValue(s)
  {
    assert "0"[0] == '0';
    if s == "" {
      assert "0" + s == "0" && "0"[..0] == "";
    } else {
      var n := |s| - 1;
      LeadingZero(s[..n]);
      assert ("0" + s)[..n + 1] == "0" + s[..n];
    }
  }

  /** The usual text of a number: ASCII digits, and no zero in front. */
  lemma {:induction false} DecimalExactly(n: nat)
    ensures n < 10 ==> Decimal(n) == [(48 + n) as char]
    ensures n >= 10 ==> Decimal(n) == Decimal(n / 10) + Decimal(n % 10)
    ensures n > 0 ==> Decimal(n)[0] != '0'
  {
    if n >= 10 {
      DecimalExactly(n / 10);
      assert Decimal(n)[0] == Decimal(n / 10)[0];
    }
  }

  /** A number too large for 64 bits is read as the largest one. */
  lemma {:induction false} ParseIntExactly(n: nat)
    ensures ParseInt64(Decimal(n)) == if n < 0x8000_0000_0000_0000 then n else 0x7fff_ffff_ffff_ffff
  {
    DecimalValue(n);
  }

  /** Signs, and the exact range of 64 bits. */
  lemma {:induction false} AtoiExactly(n: nat)
    ensures Atoi(Decimal(n)) == Atoi("+" + Decimal(n)) == if n < 0x8000_0000_0000_0000 then Some(n) else None
    ensures Atoi("-" + Decimal(n)) == if n <= 0x8000_0000_0000_0000 then Some(0 - n as int) else None
  {
    var s := Decimal(n);
    DecimalValue(n);
    assert s[0] in s && ("+" + s)[1..] == s == ("-" + s)[1..];
  }

  /** Anything but an optional sign and at least one digit is no number. */
  lemma {:induction false} AtoiRefuses(s: string)
    ensures Atoi("") == Atoi("+") == Atoi("-") == None
    ensures (exists i :: 1 <= i < |s| && !IsDigit(s[i])) ==> Atoi(s) == None
    ensures s != "" && !IsDigit(s[0]) && s[0] != '+' && s[0] != '-' ==> Atoi(s) == None
  {
    assert "+"[1..] == "" == "-"[1..];
    if i :| 1 <= i < |s| && !IsDigit(s[i]) {
      assert s[i] in s && s[1..][i - 1] == s[i] && s[i] in s[1..];
    }
    if s != "" {
      assert s[0] in s;
    }
  }

  lemma {:induction false} DecimalInjective(m: nat, n: nat)
    requires Decimal(m) == Decimal(n)
    ensures m == n
  {
    DecimalValue(m);
    DecimalValue(n);
  }
}
