/** The fixed-width integer arithmetic the driver's compensation code is
    written in, over Dafny's unbounded integers.

    C++ leaves signed overflow undefined, so a formula is modelled as a
    `Checked` value: the exact mathematical value of the expression together
    with a flag that is true exactly when no step of it left the range of the
    C++ type it was computed in (and no division by zero happened). Where the
    flag holds, the value is the one the C++ expression produces. */
module FixedPoint {

  type Uint8 = x: int | 0 <= x < 0x100
  type Int8 = x: int | -0x80 <= x < 0x80
  type Uint16 = x: int | 0 <= x < 0x1_0000
  type Int16 = x: int | -0x8000 <= x < 0x8000
  type Int32 = x: int | -0x8000_0000 <= x < 0x8000_0000
  type Uint32 = x: int | 0 <= x < 0x1_0000_0000

  /** The two signed types the formulas compute in: int32_t and int64_t. */
  datatype Width = W32 | W64

  predicate InRange(w: Width, x: int) {
    match w
    case W32 => -0x8000_0000 <= x < 0x8000_0000
    case W64 => -0x8000_0000_0000_0000 <= x < 0x8000_0000_0000_0000
  }

  /** A C++ signed integer expression: its exact value and whether evaluating
      it stayed within defined behaviour. */
  datatype Checked = Checked(value: int, defined: bool)

  /** A variable or literal of the expression; its own type holds it. */
  function Const(x: int): (r: Checked)
    ensures r.defined
  {
    Checked(x, true)
  }

  /** `1 << k` for the shift counts an int64_t admits, a byte at a time. */
  function Pow2(k: nat): (r: int)
    requires k < 64
    ensures r >= 1
  {
    if k >= 8 then 0x100 * Pow2(k - 8) else [1, 2, 4, 8, 16, 32, 64, 128][k]
  }

  /** The width of the type in bits. */
  function Bits(w: Width): (n: nat)
    ensures n == 32 || n == 64
  {
    match w
    case W32 => 32
    case W64 => 64
  }

  /** The number of values of the type, 2^32 or 2^64. */
  function Modulus(w: Width): (m: int)
    ensures m == 0x1_0000_0000 || m == 0x1_0000_0000_0000_0000
  {
    match w
    case W32 => 0x1_0000_0000
    case W64 => 0x1_0000_0000_0000_0000
  }

  /** The value of the type congruent to `x` modulo the type's modulus: the
      two's-complement reduction C++20 applies to a left shift that leaves the
      range of its signed operand's type. */
  function Wrap(w: Width, x: int): (r: int)
    ensures InRange(w, r)
    ensures (x - r) % Modulus(w) == 0
    ensures InRange(w, x) ==> r == x
  {
    match w
    case W32 => (x + 0x8000_0000) % 0x1_0000_0000 - 0x8000_0000
    case W64 => (x + 0x8000_0000_0000_0000) % 0x1_0000_0000_0000_0000 - 0x8000_0000_0000_0000
  }

  /** Reduction forgets whole multiples of the modulus. */
  lemma WrapPeriodic(w: Width, x: int)
    ensures Wrap(w, x - Modulus(w)) == Wrap(w, x)
  {
    match w
    case W32 => ModPeriodic(x + 0x8000_0000, 0x1_0000_0000);
    case W64 => ModPeriodic(x + 0x8000_0000_0000_0000, 0x1_0000_0000_0000_0000);
  }

  lemma ModPeriodic(y: int, m: int)
    requires m > 0
    ensures (y - m) % m == y % m
  {
    assert y == m * (y / m) + y % m;
    assert y - m == m * (y / m - 1) + y % m;
    DivModUnique(y - m, m, y / m - 1, y % m);
  }

  /** Euclidean division has one quotient and one remainder. */
  lemma DivModUnique(z: int, m: int, k: int, r: int)
    requires m > 0 && 0 <= r < m && z == m * k + r
    ensures z / m == k && z % m == r
  {
    var q, s := z / m, z % m;
    assert z == m * q + s && 0 <= s < m;
    assert m * (q + 1) == m * q + m && m * (k + 1) == m * k + m;
    if q < k {
      ScaleMonotone(m, q + 1, k);
    } else if k < q {
      ScaleMonotone(m, k + 1, q);
    }
  }

  /** Signed `a + b`: overflow is undefined, so the result is defined exactly
      when both operands are and the exact sum fits the type. */
  function Add(w: Width, a: Checked, b: Checked): (r: Checked)
    ensures r.defined <==> a.defined && b.defined && InRange(w, a.value + b.value)
    ensures r.value == a.value + b.value
  {
    var v := a.value + b.value;
    Checked(v, a.defined && b.defined && InRange(w, v))
  }

  /** Signed `a - b`, defined exactly when the exact difference fits. */
  function Sub(w: Width, a: Checked, b: Checked): (r: Checked)
    ensures r.defined <==> a.defined && b.defined && InRange(w, a.value - b.value)
    ensures r.value == a.value - b.value
  {
    var v := a.value - b.value;
    Checked(v, a.defined && b.defined && InRange(w, v))
  }

  /** Signed `a * b`, defined exactly when the exact product fits. */
  function Mul(w: Width, a: Checked, b: Checked): (r: Checked)
    ensures r.defined <==> a.defined && b.defined && InRange(w, a.value * b.value)
    ensures r.value == a.value * b.value
  {
    var v := a.value * b.value;
    Checked(v, a.defined && b.defined && InRange(w, v))
  }

  /** `a << k` on a signed operand as C++20 defines it: 2^k times `a`, reduced
      into the type, so a negative operand or a carry into the sign bit is
      not an error. Only a count of the type's width or more is undefined. */
  function Shl(w: Width, a: Checked, k: nat): (r: Checked)
    requires k < 64
    ensures r.defined <==> a.defined && k < Bits(w)
    ensures InRange(w, r.value)
    ensures (a.value * Pow2(k) - r.value) % Modulus(w) == 0
    ensures InRange(w, a.value * Pow2(k)) ==> r.value == a.value * Pow2(k)
  {
    Checked(Wrap(w, a.value * Pow2(k)), a.defined && k < Bits(w))
  }

  /** `a >> k` on a signed operand: an arithmetic shift, which rounds toward
      minus infinity. It cannot overflow. */
  function Shr(a: Checked, k: nat): (r: Checked)
    requires k < 64
    ensures r.defined == a.defined
    ensures Pow2(k) * r.value <= a.value < Pow2(k) * (r.value + 1)
    ensures 0 <= a.value ==> 0 <= r.value <= a.value
    ensures a.value < 0 ==> a.value <= r.value < 0
  {
    var p := Pow2(k);
    FloorDivBetween(a.value, p);
    Checked(a.value / p, a.defined)
  }

  lemma FloorDivBetween(a: int, p: int)
    requires p >= 1
    ensures p * (a / p) <= a < p * (a / p + 1)
    ensures 0 <= a ==> 0 <= a / p <= a
    ensures a < 0 ==> a <= a / p < 0
  {
    var q, r := a / p, a % p;
    assert a == p * q + r && 0 <= r < p;
    assert p * (q + 1) == p * q + p;
    if a >= 0 {
      if q < 0 {
        ScaleMonotone(p, q + 1, 0);
      }
      assert (p - 1) * q == p * q - q;
      ScaleMonotone(p - 1, 0, q);
    } else {
      if q >= 0 {
        ScaleMonotone(p, 0, q);
      }
      assert (p - 1) * (q + 1) == p * (q + 1) - (q + 1);
      ScaleMonotone(p - 1, q + 1, 0);
    }
  }

  /** C++ integer division of `n` by a nonzero `d`: the quotient rounds toward
      zero, so the remainder takes the sign of the dividend. */
  function TruncDiv(n: int, d: int): (q: int)
    requires d != 0
    ensures Abs(q) * Abs(d) <= Abs(n) < (Abs(q) + 1) * Abs(d)
    ensures q == 0 || (q < 0 <==> (n < 0) != (d < 0))
  {
    var m := Abs(n) / Abs(d);
    FloorDivBounds(Abs(n), Abs(d));
    SignedQuotient(n, d, m);
    if (n < 0) == (d < 0) then m else -m
  }

  lemma FloorDivBounds(a: nat, b: nat)
    requires b > 0
    ensures 0 <= a / b
    ensures (a / b) * b <= a < (a / b + 1) * b
  {
    assert a == (a / b) * b + a % b;
  }

  /** Giving the quotient of the magnitudes the sign of the operands keeps
      the magnitude bounds. */
  lemma SignedQuotient(n: int, d: int, m: int)
    requires 0 <= m && m * Abs(d) <= Abs(n) < (m + 1) * Abs(d)
    ensures var q := if (n < 0) == (d < 0) then m else -m;
      Abs(q) * Abs(d) <= Abs(n) < (Abs(q) + 1) * Abs(d) && (q == 0 || (q < 0 <==> (n < 0) != (d < 0)))
  {
  }

  function Abs(x: int): (r: nat) {
    if x < 0 then -x else x
  }

  /** `a / b` in width `w`. C++ leaves division by zero undefined, so the
      model demands a nonzero divisor of every caller; a quotient that does
      not fit is undefined as well. */
  function Div(w: Width, a: Checked, b: Checked): (r: Checked)
    requires b.value != 0
    ensures r.defined <==> a.defined && b.defined && InRange(w, r.value)
    ensures Abs(r.value) * Abs(b.value) <= Abs(a.value) < (Abs(r.value) + 1) * Abs(b.value)
    ensures r.value == 0 || (r.value < 0 <==> (a.value < 0) != (b.value < 0))
  {
    var v := TruncDiv(a.value, b.value);
    Checked(v, a.defined && b.defined && InRange(w, v))
  }

  /** `(x < lo) ? lo : ((x > hi) ? hi : x)`, the two guarded assignments
      that saturate a value into [lo, hi]. */
  function Clamp(x: int, lo: int, hi: int): (r: int)
    requires lo <= hi
    ensures lo <= r <= hi
    ensures lo <= x <= hi ==> r == x
    ensures x < lo ==> r == lo
    ensures x > hi ==> r == hi
  {
    var r := if x < lo then lo else x;
    if r > hi then hi else r
  }

  /** Arithmetic right shift never reorders two values. */
  lemma ShrMonotone(a: Checked, b: Checked, k: nat)
    requires k < 64
    requires a.value <= b.value
    ensures Shr(a, k).value <= Shr(b, k).value
  {
    var p, qa, qb := Pow2(k), Shr(a, k).value, Shr(b, k).value;
    if qb < qa {
      ScaleMonotone(p, qb + 1, qa);
    }
  }

  lemma ScaleMonotone(p: int, x: int, y: int)
    requires 0 <= p && x <= y
    ensures p * x <= p * y
  {
    assert p * y - p * x == p * (y - x);
  }

  /** Multiplying by a non-negative factor never reorders two values. */
  lemma MulMonotone(w: Width, a: Checked, b: Checked, f: Checked)
    requires a.value <= b.value && f.value >= 0
    ensures Mul(w, a, f).value <= Mul(w, b, f).value
  {
    assert b.value * f.value - a.value * f.value == (b.value - a.value) * f.value;
  }

  /** The conversion `(uint32_t)x` of a signed value: reduction modulo 2^32,
      which C++ defines for every value. */
  function ToUint32(x: int): (r: Uint32)
    ensures (x - r) % 0x1_0000_0000 == 0
    ensures 0 <= x < 0x1_0000_0000 ==> r == x
  {
    x % 0x1_0000_0000
  }
}
