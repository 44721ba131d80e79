/** Text rendering used by `format!`: decimal numerals and repeated characters. */
module Text {

  /** The ASCII digit for `d`. */
  function DigitChar(d: nat): (c: char)
    requires d < 10
    ensures '0' <= c <= '9'
  {
    (48 + d) as char
  }

  /** `format!("{}", n)` for an unsigned integer: its decimal numeral, no leading zeros. */
  function Decimal(n: nat): (s: string)
    ensures 1 <= |s|
    ensures n < 10 <==> |s| == 1
    decreases n
  {
    if n < 10 then [DigitChar(n)] else Decimal(n / 10) + [DigitChar(n % 10)]
  }

  /** `"0".repeat(n)`. */
  function Zeros(n: nat): (s: string)
    ensures |s| == n
    ensures forall i :: 0 <= i < n ==> s[i] == '0'
  {
    seq(n, _ => '0')
  }

  /** Distinct numbers have distinct numerals, so a numeral determines its number. */
  lemma {:induction false} DecimalInjective(a: nat, b: nat)
    requires Decimal(a) == Decimal(b)
    ensures a == b
    decreases a
  {
    var s := Decimal(a);
    if a < 10 {
      assert DigitChar(a) == s[0] == DigitChar(b);
      assert (DigitChar(a) as int) == 48 + a;
    } else {
      assert 10 <= b;
      var k := |s| - 1;
      assert Decimal(a / 10) == s[..k];
      assert Decimal(b / 10) == s[..k];
      DecimalInjective(a / 10, b / 10);
      assert DigitChar(a % 10) == s[k] == DigitChar(b % 10);
      assert (DigitChar(a % 10) as int) == 48 + a % 10;
      assert (DigitChar(b % 10) as int) == 48 + b % 10;
    }
  }

  /** Cancelling a common prefix and suffix: `p + x + q == p + y + q` only when `x == y`. */
  lemma Cancel(p: string, x: string, y: string, q: string)
    requires p + x + q == p + y + q
    ensures x == y
  {
    var s := p + x + q;
    assert |x| == |y|;
    assert x == s[|p|..|p| + |x|];
    assert y == (p + y + q)[|p|..|p| + |y|];
  }
}
