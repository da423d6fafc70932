/** Decimal text for integers: strconv.Itoa (which is also how json.Marshal writes an int)
    and strconv.Atoi, without Go's 64-bit range limit. */
module Decimal {
  import opened Common

  predicate IsDigit(c: char) { '0' <= c <= '9' }

  predicate AllDigits(s: string) { forall i :: 0 <= i < |s| ==> IsDigit(s[i]) }

  function DigitChar(d: nat): (c: char)
    requires d < 10
    ensures IsDigit(c) && DigitValue(c) == d
  {
    ('0' as int + d) as char
  }

  /** The value of a digit character (0 for any other character). */
  function DigitValue(c: char): (d: nat)
    ensures d < 10
  {
    if IsDigit(c) then c as int - '0' as int else 0
  }

  /** The digits of n, most significant first. */
  function Digits(n: nat): (s: string)
    ensures |s| > 0 && AllDigits(s)
    ensures n > 0 ==> s[0] != '0'
    decreases n
  {
    if n < 10 then [DigitChar(n)] else Digits(n / 10) + [DigitChar(n % 10)]
  }

  /** The number a string of decimal digits denotes (leading zeros allowed). */
  function ValueOf(s: string): nat
    decreases |s|
  {
    if s == [] then 0 else ValueOf(s[..|s| - 1]) * 10 + DigitValue(s[|s| - 1])
  }

  /** strconv.Itoa: a minus sign for negative numbers, then the digits. */
  function Itoa(n: int): (s: string)
    ensures |s| > 0 && (IsDigit(s[0]) || s[0] == '-')
    ensures forall i :: 0 < i < |s| ==> IsDigit(s[i])
  {
    if n < 0 then "-" + Digits(-n) else Digits(n)
  }

  /** The syntax strconv.Atoi accepts: an optional sign, then at least one digit. */
  predicate AtoiSyntax(s: string) {
    || (|s| > 0 && AllDigits(s))
    || (|s| > 1 && (s[0] == '+' || s[0] == '-') && AllDigits(s[1..]))
  }

  /** strconv.Atoi on the optional-sign decimal syntax; None is its syntax error. */
  function Atoi(s: string): (r: Option<int>)
    ensures r.Some? <==> AtoiSyntax(s)
  {
    var signed := |s| > 0 && (s[0] == '+' || s[0] == '-');
    var body := if signed then s[1..] else s;
    if body == [] || !AllDigits(body) then None
    else
      var v: int := ValueOf(body);
      if signed && s[0] == '-' then Some(-v) else Some(v)
  }

  lemma {:induction false} ValueOfDigits(n: nat)
    ensures ValueOf(Digits(n)) == n
    decreases n
  {
    if n >= 10 {
      var s := Digits(n);
      assert s[..|s| - 1] == Digits(n / 10);
      ValueOfDigits(n / 10);
    }
  }

  /** Atoi undoes Itoa, so every id the repository hands out reads back as itself. */
  lemma {:induction false} AtoiItoa(n: int)
    ensures Atoi(Itoa(n)) == Some(n)
  {
    if n < 0 {
      assert Itoa(n)[1..] == Digits(-n);
      ValueOfDigits(-n);
    } else {
      ValueOfDigits(n);
    }
  }

  /** Itoa never maps two numbers to the same text. */
  lemma {:induction false} ItoaInjective(m: int, n: int)
    requires Itoa(m) == Itoa(n)
    ensures m == n
  {
    AtoiItoa(m);
    AtoiItoa(n);
  }

  /** Any character that is neither a digit nor a leading sign makes Atoi fail. */
  lemma {:induction false} AtoiRejectsNonDigit(s: string, i: nat)
    requires i < |s| && !IsDigit(s[i])
    requires i > 0 || (s[0] != '+' && s[0] != '-')
    ensures Atoi(s) == None
  {
    if i > 0 && |s| > 1 && (s[0] == '+' || s[0] == '-') {
      assert !IsDigit(s[1..][i - 1]);
    }
  }

  /** k zero digits. */
  function Zeros(k: nat): (s: string)
    ensures |s| == k && AllDigits(s)
    decreases k
  {
    if k == 0 then [] else ['0'] + Zeros(k - 1)
  }

  /** A leading zero does not change the value of a digit string. */
  lemma {:induction false} ValueOfLeadingZero(d: string)
    ensures ValueOf(['0'] + d) == ValueOf(d)
    decreases |d|
  {
    var s := ['0'] + d;
    if d == [] {
      assert s[..|s| - 1] == [];
    } else {
      assert s[..|s| - 1] == ['0'] + d[..|d| - 1];
      assert s[|s| - 1] == d[|d| - 1];
      ValueOfLeadingZero(d[..|d| - 1]);
    }
  }

  lemma {:induction false} ValueOfLeadingZeros(k: nat, d: string)
    ensures ValueOf(Zeros(k) + d) == ValueOf(d)
    decreases k
  {
    if k > 0 {
      assert Zeros(k) + d == ['0'] + (Zeros(k - 1) + d);
      ValueOfLeadingZero(Zeros(k - 1) + d);
      ValueOfLeadingZeros(k - 1, d);
    } else {
      assert Zeros(k) + d == d;
    }
  }

  lemma {:induction false} AllDigitsAppend(a: string, b: string)
    requires AllDigits(a) && AllDigits(b)
    ensures AllDigits(a + b)
  {
    assert forall i :: 0 <= i < |b| ==> (a + b)[|a| + i] == b[i];
  }

  /** Atoi on a non-empty digit string, bare or after a sign. */
  lemma {:induction false} AtoiOfDigits(body: string)
    requires |body| > 0 && AllDigits(body)
    ensures Atoi(body) == Some(ValueOf(body))
    ensures Atoi("+" + body) == Some(ValueOf(body))
    ensures Atoi("-" + body) == Some(-(ValueOf(body) as int))
  {
    assert ("+" + body)[1..] == body;
    assert ("-" + body)[1..] == body;
    assert IsDigit(body[0]);
  }

  /** strconv.Atoi also accepts ids written with leading zeros and an optional sign:
      "007" and "+007" read as 7, "-007" as -7. */
  lemma {:induction false} AtoiLeadingZeros(k: nat, n: nat)
    ensures var s := Zeros(k) + Itoa(n);
      && Atoi(s) == Some(n)
      && Atoi("+" + s) == Some(n)
      && Atoi("-" + s) == Some(-(n as int))
  {
    assert Itoa(n) == Digits(n);
    AllDigitsAppend(Zeros(k), Digits(n));
    ValueOfLeadingZeros(k, Digits(n));
    ValueOfDigits(n);
    AtoiOfDigits(Zeros(k) + Digits(n));
  }
}
