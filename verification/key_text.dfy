/**
 * Generated row keys. A row added by the "Add URI" button gets the key
 * `URI_ID_<n>`, where `<n>` is the component's counter rendered by a
 * template literal, i.e. as a decimal numeral without leading zeros.
 */
module KeyText {

  const Prefix: string := "URI_ID_"

  predicate IsDigit(c: char) {
    '0' <= c <= '9'
  }

  predicate AllDigits(s: string) {
    forall i :: 0 <= i < |s| ==> IsDigit(s[i])
  }

  function DigitChar(d: nat): (c: char)
    requires d < 10
    ensures IsDigit(c) && c as int - '0' as int == d
  {
    (d + '0' as int) as char
  }

  /** The decimal numeral of `n`, as `${n}` renders a non-negative integer. */
  function Decimal(n: nat): (s: string)
    ensures AllDigits(s)
    ensures 1 <= |s|
    ensures |s| == 1 <==> n < 10
    ensures |s| > 1 ==> s[0] != '0'
    decreases n
  {
    if n < 10 then [DigitChar(n)] else Decimal(n / 10) + [DigitChar(n % 10)]
  }

  /** The value a string of decimal digits denotes; the reading side of `Decimal`. */
  function DecimalValue(s: string): nat
    requires AllDigits(s)
  {
    if |s| == 0 then 0
    else 10 * DecimalValue(s[..|s| - 1]) + (s[|s| - 1] as int - '0' as int)
  }

  lemma {:induction false} DecimalRoundTrip(n: nat)
    ensures DecimalValue(Decimal(n)) == n
    decreases n
  {
    if n >= 10 {
      var s := Decimal(n);
      assert s[..|s| - 1] == Decimal(n / 10);
      DecimalRoundTrip(n / 10);
    }
  }

  /** The key `URI_ID_<n>` given to the row added while the counter is `n`. */
  function GeneratedKey(n: nat): (k: string)
    ensures |Prefix| < |k| && k[..|Prefix|] == Prefix
    ensures AllDigits(k[|Prefix|..])
    ensures DecimalValue(k[|Prefix|..]) == n
  {
    DecimalRoundTrip(n);
    assert (Prefix + Decimal(n))[|Prefix|..] == Decimal(n);
    Prefix + Decimal(n)
  }

  /** Distinct counter values give distinct keys, and only they do. */
  lemma GeneratedKeyInjective(a: nat, b: nat)
    ensures GeneratedKey(a) == GeneratedKey(b) <==> a == b
  {
    if GeneratedKey(a) == GeneratedKey(b) {
      assert Decimal(a) == GeneratedKey(a)[|Prefix|..];
      assert Decimal(b) == GeneratedKey(b)[|Prefix|..];
      DecimalRoundTrip(a);
      DecimalRoundTrip(b);
    }
  }

}
