/** Machine integers of the C code: 32- and 64-bit unsigned words, and the bit operations applied to them. */
module Machine {

  const U32: int := 0x1_0000_0000
  const U64: int := 0x1_0000_0000_0000_0000

  /** `unsigned`: assigning a value to a u32 variable is a proof that nothing wraps. */
  type u32 = x: int | 0 <= x < 0x1_0000_0000
  /** `uint64_t` and `unsigned long`. */
  type u64 = x: int | 0 <= x < 0x1_0000_0000_0000_0000

  /** The value of an `unsigned` sum or difference where nothing rules out wrap-around. */
  function Wrap32(x: int): (w: u32)
    requires -U32 <= x < 2 * U32
  {
    if x < 0 then x + U32 else if x < U32 then x else x - U32
  }

  function Pow2(k: nat): (p: nat)
    ensures p > 0
  {
    if k == 0 then 1 else 2 * Pow2(k - 1)
  }

  /** Bitwise `|` on unsigned integers, bit by bit. */
  function BitOr(a: nat, b: nat): nat
    decreases a + b
  {
    if a == 0 && b == 0 then 0
    else 2 * BitOr(a / 2, b / 2) + (if a % 2 == 1 || b % 2 == 1 then 1 else 0)
  }

  lemma {:induction false} MulAtLeast(x: int, m: int)
    requires m > 0
    ensures x >= 1 ==> x * m >= m
    ensures x <= -1 ==> x * m <= -m
  {
    if x >= 1 { assert (x - 1) * m >= 0; }
    if x <= -1 { assert (-1 - x) * m >= 0; }
  }

  lemma {:induction false} ModUnique(a: int, m: int, q: int, r: int)
    requires 0 <= r < m && a == q * m + r
    ensures a / m == q && a % m == r
  {
    var q', r' := a / m, a % m;
    assert a == q' * m + r' by { assert a == m * q' + r'; }
    MulAtLeast(q - q', m);
    assert (q - q') * m == r' - r by { assert (q - q') * m == q * m - q' * m; }
  }

  lemma {:induction false} HalvesMod(a: nat, k: nat)
    requires k > 0
    ensures a % Pow2(k) == 2 * ((a / 2) % Pow2(k - 1)) + a % 2
  {
    var p := Pow2(k - 1);
    var q, r := (a / 2) / p, (a / 2) % p;
    assert a == q * (2 * p) + (2 * r + a % 2) by {
      assert a / 2 == q * p + r;
    }
    ModUnique(a, 2 * p, q, 2 * r + a % 2);
  }

  /** Or-ing in a mask of k ones and subtracting it again clears the low k bits. */
  lemma {:induction false} OrMaskMinusMask(a: nat, k: nat)
    ensures BitOr(a, Pow2(k) - 1) - (Pow2(k) - 1) == a - a % Pow2(k)
  {
    if k == 0 {
      OrZero(a);
    } else {
      HalvesMod(a, k);
      OrMaskMinusMask(a / 2, k - 1);
      assert (Pow2(k) - 1) / 2 == Pow2(k - 1) - 1 && (Pow2(k) - 1) % 2 == 1;
    }
  }

  lemma {:induction false} OrZero(a: nat)
    ensures BitOr(a, 0) == a
  {
    if a > 0 { OrZero(a / 2); }
  }

  lemma {:induction false} OrDoubles(a: nat, y: nat)
    requires BitOr(a, y / 2) == a + y / 2
    ensures BitOr(2 * a, y) == 2 * a + y
  {
    assert (2 * a) / 2 == a && (2 * a) % 2 == 0;
  }

  /** Fields that do not overlap add up under `|`. */
  lemma {:induction false} OrOfDisjointFields(x: nat, k: nat, y: nat)
    requires y < Pow2(k)
    ensures BitOr(x * Pow2(k), y) == x * Pow2(k) + y
  {
    if k == 0 {
      OrZero(x);
    } else {
      var a := x * Pow2(k - 1);
      assert x * Pow2(k) == 2 * a;
      OrOfDisjointFields(x, k - 1, y / 2);
      OrDoubles(a, y);
    }
  }
}
