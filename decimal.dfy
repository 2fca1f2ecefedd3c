/** Decimal digit strings: the zero-padded fields of a date and the page number of an archive URL. */
module Decimal {

  predicate IsDigit(c: char) {
    '0' <= c <= '9'
  }

  predicate AllDigits(s: string) {
    forall i :: 0 <= i < |s| ==> IsDigit(s[i])
  }

  function Digit(n: nat): (c: char)
    requires n < 10
    ensures IsDigit(c) && c as int - '0' as int == n
  {
    ['0', '1', '2', '3', '4', '5', '6', '7', '8', '9'][n]
  }

  function Pow10(n: nat): (r: nat)
    ensures r >= 1
  {
    if n == 0 then 1 else 10 * Pow10(n - 1)
  }

  /** The number a string of decimal digits denotes, most significant digit first. */
  function Value(s: string): nat
    requires AllDigits(s)
  {
    if s == [] then 0 else 10 * Value(s[..|s| - 1]) + (s[|s| - 1] as int - '0' as int)
  }

  /** The `width` low-order decimal digits of n, zero-padded on the left (strftime's %Y, %m, %d). */
  function Pad(n: nat, width: nat): (s: string)
    ensures |s| == width && AllDigits(s)
  {
    if width == 0 then "" else Pad(n / 10, width - 1) + [Digit(n % 10)]
  }

  lemma {:induction false} ValuePad(n: nat, width: nat)
    ensures Value(Pad(n, width)) == n % Pow10(width)
  {
    if width > 0 {
      var s := Pad(n, width);
      assert s[..|s| - 1] == Pad(n / 10, width - 1);
      ValuePad(n / 10, width - 1);
      DivMod10(n, Pow10(width - 1));
    }
  }

  /** (n / 10) % p * 10 + n % 10 == n % (10 * p): the low digits of n, one at a time. */
  lemma DivMod10(n: nat, p: nat)
    requires p >= 1
    ensures 10 * ((n / 10) % p) + n % 10 == n % (10 * p)
  {
    var q, r := n / 10, n % 10;
    var a, b := q / p, q % p;
    assert n == 10 * q + r;
    assert q == p * a + b;
    assert n == (10 * p) * a + (10 * b + r) by {
      assert 10 * (p * a) == (10 * p) * a;
    }
    ModUnique(n, 10 * p, a, 10 * b + r);
  }

  /** A quotient-remainder decomposition is the one `/` and `%` compute. */
  lemma ModUnique(n: nat, m: nat, a: nat, r: nat)
    requires m >= 1 && 0 <= r < m && n == m * a + r
    ensures n % m == r && n / m == a
  {
    var q, s := n / m, n % m;
    assert m * (a - q) == s - r;
    MulAwayFromZero(m, a - q);
  }

  lemma MulAwayFromZero(m: int, k: int)
    requires m >= 1
    ensures k >= 1 ==> m * k >= m
    ensures k <= -1 ==> m * k <= -m
  {
  }

  /** Every digit string is the padded rendering of its own value: decimal spellings are unique per width. */
  lemma {:induction false} PadValue(s: string)
    requires AllDigits(s)
    ensures Value(s) < Pow10(|s|)
    ensures Pad(Value(s), |s|) == s
  {
    if s != [] {
      var init := s[..|s| - 1];
      var d := s[|s| - 1] as int - '0' as int;
      PadValue(init);
      var v := Value(s);
      assert v == 10 * Value(init) + d;
      ModUnique(v, 10, Value(init), d);
      assert Pow10(|s|) == 10 * Pow10(|init|);
      assert Digit(d) == s[|s| - 1];
      assert Pad(v, |s|) == Pad(Value(init), |init|) + [Digit(d)];
      assert s == init + [s[|s| - 1]];
    }
  }

  /** The number of digits Python's str() prints for n. */
  function Width(n: nat): (w: nat)
    ensures w >= 1 && n < Pow10(w)
  {
    if n < 10 then 1 else 1 + Width(n / 10)
  }

  /** Python's str(n) for a non-negative integer: no padding, no sign. */
  function NatToString(n: nat): (s: string)
    ensures AllDigits(s) && |s| >= 1
    ensures Value(s) == n
    ensures |s| > 1 ==> s[0] != '0'
  {
    var s := Pad(n, Width(n));
    ValuePad(n, Width(n));
    ModUnique(n, Pow10(Width(n)), 0, n);
    LeadingDigit(n);
    s
  }

  lemma {:induction false} LeadingDigit(n: nat)
    ensures Width(n) > 1 ==> Pad(n, Width(n))[0] != '0'
  {
    if n >= 10 {
      LeadingDigit(n / 10);
      var w := Width(n);
      assert Pad(n, w) == Pad(n / 10, w - 1) + [Digit(n % 10)];
      if n / 10 < 10 {
        assert Pad(n / 10, 1) == Pad(n / 100, 0) + [Digit((n / 10) % 10)];
      }
    }
  }
}
