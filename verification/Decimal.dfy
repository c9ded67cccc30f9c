/** Decimal printing and the unsigned parser of Go's strconv. */
module Decimal {

  import opened Bytes

  function DigitChar(d: nat): char
    requires d < 10
  {
    '0' + d as char
  }

  predicate IsDigit(c: char) { '0' <= c <= '9' }

  function DigitValue(c: char): nat
    requires IsDigit(c)
  {
    c as int - '0' as int
  }

  function Digits(n: nat): (s: string)
    ensures s != [] && forall i :: 0 <= i < |s| ==> IsDigit(s[i])
  {
    if n < 10 then [DigitChar(n)] else Digits(n / 10) + [DigitChar(n % 10)]
  }

  /**
    `ParseUint` in base 10 with its error dropped: 0 on a syntax error, the greatest
    value as soon as the number grows past it.
   */
  function ParseUint(s: string): nat {
    if s == [] then 0 else ParseFrom(s, 0)
  }

  function ParseFrom(s: string, n: nat): nat
    decreases |s|
  {
    if s == [] then n
    else if !IsDigit(s[0]) then 0
    else
      var m := 10 * n + DigitValue(s[0]);
      if m > MAX_UINT64 then MAX_UINT64 else ParseFrom(s[1..], m)
  }

  lemma {:induction false} ParseFromBound(s: string, n: nat)
    requires n <= MAX_UINT64
    ensures ParseFrom(s, n) <= MAX_UINT64
    decreases |s|
  {
    if s != [] && IsDigit(s[0]) && 10 * n + DigitValue(s[0]) <= MAX_UINT64 {
      ParseFromBound(s[1..], 10 * n + DigitValue(s[0]));
    }
  }

  /** The number a string of digits denotes after the digits of `n`. */
  function Value(s: string, n: nat): nat
    requires forall i :: 0 <= i < |s| ==> IsDigit(s[i])
    decreases |s|
  {
    if s == [] then n else 10 * Value(s[..|s| - 1], n) + DigitValue(s[|s| - 1])
  }

  lemma {:induction false} ValueHead(s: string, n: nat)
    requires s != [] && forall i :: 0 <= i < |s| ==> IsDigit(s[i])
    ensures Value(s, n) == Value(s[1..], 10 * n + DigitValue(s[0]))
    decreases |s|
  {
    if |s| > 1 {
      ValueHead(s[..|s| - 1], n);
      assert s[1..][..|s| - 2] == s[..|s| - 1][1..];
    } else {
      assert s[..0] == [] && s[1..] == [];
    }
  }

  lemma {:induction false} ValueGrows(s: string, n: nat)
    requires forall i :: 0 <= i < |s| ==> IsDigit(s[i])
    ensures Value(s, n) >= n
    decreases |s|
  {
    if s != [] {
      ValueGrows(s[..|s| - 1], n);
    }
  }

  lemma {:induction false} ParseIsValue(s: string, n: nat)
    requires (forall i :: 0 <= i < |s| ==> IsDigit(s[i])) && Value(s, n) <= MAX_UINT64
    ensures ParseFrom(s, n) == Value(s, n)
    decreases |s|
  {
    if s != [] {
      ValueHead(s, n);
      ValueGrows(s[1..], 10 * n + DigitValue(s[0]));
      ParseIsValue(s[1..], 10 * n + DigitValue(s[0]));
    }
  }

  lemma {:induction false} DigitsDenote(n: nat)
    ensures Value(Digits(n), 0) == n
  {
    if n >= 10 {
      DigitsDenote(n / 10);
      assert Digits(n)[..|Digits(n)| - 1] == Digits(n / 10);
    }
  }

  /** Printing then parsing gives the number back. */
  lemma ParsePrinted(n: nat)
    requires n <= MAX_UINT64
    ensures ParseUint(Digits(n)) == n
  {
    DigitsDenote(n);
    ParseIsValue(Digits(n), 0);
  }

  /** Printed numbers have no leading zero. */
  lemma {:induction false} NoLeadingZero(n: nat)
    ensures Digits(n)[0] == '0' ==> n == 0
  {
    if n >= 10 {
      NoLeadingZero(n / 10);
    }
  }

  /** What parsing gives, said by the digits at the front of a text: a number, its bound, or 0. */
  lemma {:induction false} ParseFromIs(s: string, n: nat, i: nat)
    requires n <= MAX_UINT64 && i <= |s| && forall k :: 0 <= k < i ==> IsDigit(s[k])
    ensures Value(s[..i], n) > MAX_UINT64 ==> ParseFrom(s, n) == MAX_UINT64
    ensures Value(s[..i], n) <= MAX_UINT64 && i < |s| && !IsDigit(s[i]) ==> ParseFrom(s, n) == 0
    ensures Value(s[..i], n) <= MAX_UINT64 && i == |s| ==> ParseFrom(s, n) == Value(s, n)
    decreases |s|
  {
    if i == 0 {
      assert s[..0] == [];
    } else {
      var m := 10 * n + DigitValue(s[0]);
      ValueHead(s[..i], n);
      assert s[..i][1..] == s[1..][..i - 1];
      ValueGrows(s[1..][..i - 1], m);
      assert i == |s| ==> s[..i] == s && s[1..][..i - 1] == s[1..];
      if m <= MAX_UINT64 {
        ParseFromIs(s[1..], m, i - 1);
      }
    }
  }

  lemma DigitsAreInjective(m: nat, n: nat)
    requires Digits(m) == Digits(n)
    ensures m == n
  {
    DigitsDenote(m);
    DigitsDenote(n);
  }
}
