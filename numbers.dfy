/** Go's 64-bit integers and the decimal conversions the service uses:
    strconv.Atoi for configuration and query values, the two's-complement
    wrap-around of int64 arithmetic, and division that truncates toward zero. */
module Numbers {
  import opened Common

  const MinInt64: int := -0x8000_0000_0000_0000
  const MaxInt64: int := 0x7FFF_FFFF_FFFF_FFFF
  const TwoTo64: int := 0x1_0000_0000_0000_0000

  predicate IsInt64(x: int) {
    MinInt64 <= x <= MaxInt64
  }

  /** The int64 that two's-complement arithmetic leaves for the exact value `x`. */
  function Wrap64(x: int): (w: int)
    ensures IsInt64(w)
    ensures (w - x) % TwoTo64 == 0
    ensures IsInt64(x) ==> w == x
  {
    var m := (x - MinInt64) % TwoTo64;
    assert IsInt64(x) ==> m == x - MinInt64;
    m + MinInt64
  }

  /** Go's `/` on integers: the quotient truncated toward zero. */
  function GoDiv(a: int, b: int): (q: int)
    requires b != 0
    ensures a >= 0 && b > 0 ==> q == a / b
  {
    if (a >= 0) == (b > 0) then
      (if a >= 0 then a else -a) / (if b > 0 then b else -b)
    else
      -((if a >= 0 then a else -a) / (if b > 0 then b else -b))
  }

  /** Euclidean division is determined by a quotient and remainder. */
  lemma DivByParts(a: int, b: int, q: int, r: int)
    requires b > 0 && 0 <= r < b && a == q * b + r
    ensures a / b == q && a % b == r
  {
    var q', r' := a / b, a % b;
    assert (q - q') * b == r' - r;
    MulBound(q - q', b);
  }

  lemma MulBound(d: int, b: int)
    requires b > 0
    ensures d >= 1 ==> d * b >= b
    ensures d <= -1 ==> d * b <= -b
  {
    assert d * b == (d - 1) * b + b;
    assert d * b == (d + 1) * b - b;
  }

  predicate IsDigit(c: char) {
    '0' <= c <= '9'
  }

  /** One or more ASCII decimal digits. */
  predicate IsNumeral(s: string) {
    |s| > 0 && forall i :: 0 <= i < |s| ==> IsDigit(s[i])
  }

  /** A numeral has no character other than digits. */
  lemma NumeralAvoids(s: string, c: char)
    requires IsNumeral(s) && !IsDigit(c)
    ensures c !in s
  {
    assert forall k :: 0 <= k < |s| ==> s[k] != c;
  }

  /** The value of a string of decimal digits, most significant digit first. */
  function DigitsValue(s: string): nat
    requires forall i :: 0 <= i < |s| ==> IsDigit(s[i])
  {
    if |s| == 0 then 0
    else
      assert IsDigit(s[|s| - 1]);
      DigitsValue(s[..|s| - 1]) * 10 + (s[|s| - 1] as int - '0' as int)
  }

  /** strconv.Atoi: an optional '+' or '-', then one or more ASCII digits, whose
      value lies in the range of a 64-bit int; anything else is an error. */
  function Atoi(s: string): (r: Option<int>)
    ensures r.Some? ==> IsInt64(r.value)
    ensures r.Some? ==> |s| > 0
  {
    var signed := |s| > 0 && (s[0] == '+' || s[0] == '-');
    var digits := if signed then s[1..] else s;
    if !IsNumeral(digits) then None
    else
      var v: int := if signed && s[0] == '-' then -(DigitsValue(digits) as int) else DigitsValue(digits);
      if IsInt64(v) then Some(v) else None
  }

  /** The shortest decimal numeral of `n`. */
  function NatDigits(n: nat): (s: string)
    ensures IsNumeral(s)
    ensures DigitsValue(s) == n
  {
    var d := [('0' as int + n % 10) as char];
    if n < 10 then d
    else
      var s := NatDigits(n / 10) + d;
      assert s[..|s| - 1] == NatDigits(n / 10);
      s
  }

  /** strconv.Itoa. */
  function Itoa(x: int): string {
    if x < 0 then "-" + NatDigits(-x) else NatDigits(x)
  }

  /** Atoi reads back every int64 that Itoa writes. */
  lemma AtoiItoa(x: int)
    requires IsInt64(x)
    ensures Atoi(Itoa(x)) == Some(x)
  {
    var s := Itoa(x);
    if x < 0 {
      assert s[1..] == NatDigits(-x);
    } else {
      assert IsDigit(s[0]);
    }
  }

  /** A text with a character that is neither a sign nor a digit is rejected. */
  lemma AtoiRejectsNonDigit(s: string, i: nat)
    requires 0 < i < |s| && !IsDigit(s[i])
    ensures Atoi(s) == None
  {
    if |s| > 0 && (s[0] == '+' || s[0] == '-') {
      assert s[1..][i - 1] == s[i];
    }
  }
}
