/**
 The 32-bit integer arithmetic behind integer literals (`int int_data`).

 C++ leaves signed overflow undefined; this model takes the two's-complement
 wrap-around that the usual targets produce. Division and remainder truncate
 toward zero, as C++ requires, so that `(a / b) * b + a % b == a`.
 */
module MachineInt {
  import opened Syntax

  /** The number of distinct 32-bit patterns. */
  const Modulus: int := 0x1_0000_0000

  function Abs(i: int): (r: nat)
    ensures r == i || r == -i
  {
    if i < 0 then -i else i
  }

  /** `i` wrapped around into the 32-bit range: the one `Int32` congruent to `i`
      modulo 2^32. */
  function Wrap(i: int): (r: Int32)
    ensures (r as int - i) % Modulus == 0
    ensures -0x8000_0000 <= i < 0x8000_0000 ==> r as int == i
  {
    var m := i % Modulus;
    if m < 0x8000_0000 then m as Int32 else (m - Modulus) as Int32
  }

  /** The quotient and remainder of two magnitudes. */
  lemma NatDivMod(n: nat, d: nat)
    requires d > 0
    ensures n / d >= 0 && 0 <= n % d < d
    ensures (n / d) * d + n % d == n
  {
  }

  /** C++ `/` on integers: the magnitude of the exact quotient rounded down,
      negative when the signs differ, i.e. the quotient rounded toward zero. */
  function TruncDiv(a: int, b: int): (q: int)
    requires b != 0
    ensures Abs(q) == Abs(a) / Abs(b)
    ensures (a < 0) == (b < 0) ==> q >= 0
    ensures (a < 0) != (b < 0) ==> q <= 0
  {
    NatDivMod(Abs(a), Abs(b));
    var q := Abs(a) / Abs(b);
    if (a < 0) == (b < 0) then q else -q
  }

  /** C++ `%` on integers: what remains after truncating division, so that
      `TruncDiv(a, b) * b + TruncMod(a, b) == a`; it takes the sign of the
      dividend and is smaller in magnitude than the divisor. */
  function TruncMod(a: int, b: int): (r: int)
    requires b != 0
    ensures TruncDiv(a, b) * b + r == a
    ensures Abs(r) < Abs(b)
    ensures a >= 0 ==> r >= 0
    ensures a <= 0 ==> r <= 0
  {
    TruncModMagnitude(a, b);
    a - TruncDiv(a, b) * b
  }

  /** The truncated remainder is the remainder of the magnitudes, signed like
      the dividend. */
  lemma TruncModMagnitude(a: int, b: int)
    requires b != 0
    ensures a - TruncDiv(a, b) * b == (if a < 0 then -(Abs(a) % Abs(b)) else Abs(a) % Abs(b))
  {
    var n, d := Abs(a), Abs(b);
    NatDivMod(n, d);
    var q := n / d;
    var r := n % d;
    assert n == q * d + r;
    if (a < 0) == (b < 0) {
      assert TruncDiv(a, b) == q;
      if a < 0 {
        assert q * b == -(q * d);
      } else {
        assert q * b == q * d;
      }
    } else {
      assert TruncDiv(a, b) == -q;
      if a < 0 {
        assert -q * b == -(q * d);
      } else {
        assert -q * b == q * d;
      }
    }
  }
}
