/** The few `std::string` operations the protocol code relies on: `find` of a
    character, prefix tests, and conversion between numbers and decimal text
    (`std::to_string`, `std::stoull`). */
module Strings {
  import opened BoundedInts

  /** `s.find(c)`, with `|s|` standing for `npos`. */
  function IndexOf(s: string, c: char): (r: nat)
    ensures r <= |s|
    ensures r < |s| ==> s[r] == c
    ensures forall i :: 0 <= i < r ==> s[i] != c
  {
    if |s| == 0 then 0
    else if s[0] == c then 0
    else 1 + IndexOf(s[1..], c)
  }

  predicate Contains(s: string, c: char) {
    IndexOf(s, c) < |s|
  }

  lemma ContainsMeansSomewhere(s: string, c: char)
    ensures Contains(s, c) <==> exists i :: 0 <= i < |s| && s[i] == c
  {
  }

  predicate HasPrefix(s: string, p: string) {
    |p| <= |s| && s[..|p|] == p
  }

  predicate IsDigit(c: char) {
    '0' <= c <= '9'
  }

  predicate AllDigits(s: string) {
    forall i :: 0 <= i < |s| ==> IsDigit(s[i])
  }

  function DigitChar(d: nat): (c: char)
    requires d < 10
    ensures IsDigit(c)
  {
    ['0', '1', '2', '3', '4', '5', '6', '7', '8', '9'][d]
  }

  function DigitValue(c: char): (d: nat)
    requires IsDigit(c)
    ensures d < 10
  {
    (c - '0') as nat
  }

  /** `std::to_string` of an unsigned value: its decimal digits, no leading zeros. */
  function DecimalString(n: nat): (s: string)
    ensures |s| > 0 && AllDigits(s)
  {
    if n < 10 then [DigitChar(n)] else DecimalString(n / 10) + [DigitChar(n % 10)]
  }

  /** The number a string of decimal digits denotes. */
  function DecimalValue(s: string): nat
    requires AllDigits(s)
  {
    if |s| == 0 then 0 else DecimalValue(s[..|s| - 1]) * 10 + DigitValue(s[|s| - 1])
  }

  lemma {:induction false} DecimalRoundTrip(n: nat)
    ensures DecimalValue(DecimalString(n)) == n
  {
    var s := DecimalString(n);
    if n >= 10 {
      assert s[..|s| - 1] == DecimalString(n / 10);
      DecimalRoundTrip(n / 10);
    } else {
      assert s == [DigitChar(n)];
    }
  }

  /** Distinct numbers have distinct decimal names. */
  lemma DecimalStringInjective(m: nat, n: nat)
    ensures DecimalString(m) == DecimalString(n) ==> m == n
  {
    DecimalRoundTrip(m);
    DecimalRoundTrip(n);
  }

  /** Length of the run of digits at the start of `s`. */
  function DigitPrefixLength(s: string): (k: nat)
    ensures k <= |s| && AllDigits(s[..k])
    ensures k < |s| ==> !IsDigit(s[k])
  {
    if |s| == 0 || !IsDigit(s[0]) then 0
    else
      var k := 1 + DigitPrefixLength(s[1..]);
      assert s[..k] == [s[0]] + s[1..][..k - 1];
      k
  }

  /** `std::stoull` on text that holds no leading blanks or sign, with the
      caller's `catch` turning both of its exceptions into 0: no leading
      digit (`invalid_argument`) or a value above 2^64 - 1 (`out_of_range`). */
  function StoullOrZero(s: string): (r: uint64)
    ensures AllDigits(s) && |s| > 0 && DecimalValue(s) < TWO_TO_THE_64 ==> r == DecimalValue(s)
  {
    var k := DigitPrefixLength(s);
    assert AllDigits(s) ==> s[..k] == s;
    if k == 0 then 0
    else
      var v := DecimalValue(s[..k]);
      if v < TWO_TO_THE_64 then v else 0
  }
}
