/**
 * The text the client builds with `std::format`: the decimal rendering of an
 * integer, and the element name `name[i]` it synthesizes for each member of
 * an array dataref (XPlaneUDP.cpp:22, 50, 103, 118; XPlaneUDP.hpp:169).
 */
module Format {
  import opened Wire

  /** ASCII text as the bytes of a `std::string`. */
  function Ascii(s: string): (b: Bytes)
    requires forall j :: 0 <= j < |s| ==> s[j] as int < 0x80
    ensures |b| == |s| && forall j :: 0 <= j < |s| ==> b[j] as int == s[j] as int
  {
    seq(|s|, j requires 0 <= j < |s| => (s[j] as int) as byte)
  }

  const ZERO: byte := 0x30           // '0'
  const MINUS: byte := 0x2D          // '-'
  const OPEN_BRACKET: byte := 0x5B   // '['
  const CLOSE_BRACKET: byte := 0x5D  // ']'

  predicate IsDigit(b: byte)
  {
    ZERO <= b <= ZERO + 9
  }

  /** The decimal digits of `n`, most significant first, without leading zeros. */
  function Digits(n: nat): (r: Bytes)
    ensures |r| >= 1 && forall j :: 0 <= j < |r| ==> IsDigit(r[j])
    ensures r[0] == ZERO ==> n == 0
  {
    if n < 10 then [ZERO + n as byte] else Digits(n / 10) + [ZERO + (n % 10) as byte]
  }

  /** The number a string of decimal digits denotes. */
  function DigitsValue(d: Bytes): nat
    requires forall j :: 0 <= j < |d| ==> IsDigit(d[j])
  {
    if d == [] then 0
    else
      assert IsDigit(d[|d| - 1]);
      DigitsValue(d[..|d| - 1]) * 10 + (d[|d| - 1] as int - ZERO as int)
  }

  lemma {:induction false} DigitsRoundTrip(n: nat)
    ensures DigitsValue(Digits(n)) == n
    decreases n
  {
    if n >= 10 {
      var d := Digits(n);
      assert d[..|d| - 1] == Digits(n / 10);
      DigitsRoundTrip(n / 10);
    }
  }

  /** A larger number never has fewer digits. */
  lemma {:induction false} DigitsLengthMonotone(m: nat, n: nat)
    requires m <= n
    ensures |Digits(m)| <= |Digits(n)|
    decreases n
  {
    if m >= 10 {
      DigitsLengthMonotone(m / 10, n / 10);
    }
  }

  /** `std::format("{}", i)` for an integer `i`: it starts with a minus sign exactly when `i` is negative. */
  function Decimal(i: int): (r: Bytes)
    ensures |r| >= 1 && (r[0] == MINUS <==> i < 0)
  {
    if i < 0 then [MINUS] + Digits(-i) else Digits(i)
  }

  /** Different integers render differently. */
  lemma DecimalInjective(i: int, k: int)
    requires Decimal(i) == Decimal(k)
    ensures i == k
  {
    assert !IsDigit(MINUS);
    assert (i < 0) == (Decimal(i)[0] == MINUS);
    assert (k < 0) == (Decimal(k)[0] == MINUS);
    if i < 0 {
      assert Decimal(i)[1..] == Digits(-i) && Decimal(k)[1..] == Digits(-k);
      DigitsRoundTrip(-i);
      DigitsRoundTrip(-k);
    } else {
      DigitsRoundTrip(i);
      DigitsRoundTrip(k);
    }
  }

  /** `std::format("{}[{}]", base, i)`: the name of element `i` of an array dataref. */
  function ElementName(base: Bytes, i: int): Bytes
  {
    base + [OPEN_BRACKET] + Decimal(i) + [CLOSE_BRACKET]
  }

  /** Distinct elements of one array dataref get distinct names. */
  lemma ElementNamesDistinct(base: Bytes, i: int, k: int)
    requires i != k
    ensures ElementName(base, i) != ElementName(base, k)
  {
    if ElementName(base, i) == ElementName(base, k) {
      var a, b := ElementName(base, i), ElementName(base, k);
      assert |Decimal(i)| == |Decimal(k)|;
      assert a[|base| + 1..|a| - 1] == Decimal(i);
      assert b[|base| + 1..|b| - 1] == Decimal(k);
      DecimalInjective(i, k);
    }
  }

  /** A later element of an array never has a shorter name than an earlier one. */
  lemma ElementNameLengthMonotone(base: Bytes, i: nat, k: nat)
    requires i <= k
    ensures |ElementName(base, i)| <= |ElementName(base, k)|
  {
    DigitsLengthMonotone(i, k);
  }

  /**
   * The name a subscription or a write addresses: `dataref` itself for the
   * default index -1, otherwise the element name `dataref[index]`.
   */
  function SubscriptionName(dataref: Bytes, index: int): (r: Bytes)
    ensures |dataref| <= |r| && r[..|dataref|] == dataref
    ensures |r| == |dataref| <==> index == -1
  {
    if index == -1 then dataref else ElementName(dataref, index)
  }
}
