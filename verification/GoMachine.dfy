/**
 The parts of Go's machine the generated codec uses: bytes, 64-bit words, the signed 64-bit `int`
 with wrap-around, the truncating conversions, and the bit operators read off the binary digits.
 */
module GoMachine {

  const TWO_31: nat := 0x8000_0000
  const TWO_32: nat := 0x1_0000_0000
  const TWO_63: nat := 0x8000_0000_0000_0000
  const TWO_64: nat := 0x1_0000_0000_0000_0000
  const MAX_INT: nat := 0x7FFF_FFFF_FFFF_FFFF

  type Byte = n: int | 0 <= n < 0x100
  type Uint64 = n: int | 0 <= n < 0x1_0000_0000_0000_0000
  type Int = n: int | -0x8000_0000_0000_0000 <= n < 0x8000_0000_0000_0000
  type Int32 = n: int | -0x8000_0000 <= n < 0x8000_0000

  /** The contents of a slice or a string: its length is an `int`. */
  type Bytes = s: seq<Byte> | |s| <= 0x7FFF_FFFF_FFFF_FFFF

  // ----- conversions

  /** `int(w)` for a `uint64`. */
  function ToInt(w: Uint64): (i: Int)
    ensures i == w || i == w - TWO_64
    ensures if i < 0 then w > MAX_INT else i == w
  {
    if w < TWO_63 then w else w - TWO_64
  }

  /** `uint64(i)` for an `int`. */
  function ToUint64(i: Int): Uint64 {
    if i >= 0 then i else i + TWO_64
  }

  /** `int32(w)` for a `uint64`: the low 32 bits, read as two's complement. */
  function ToInt32(w: Uint64): (r: Int32)
    ensures -0x8000_0000 <= r < 0x8000_0000 && (w - r) % 0x1_0000_0000 == 0
  {
    var low := w % 0x1_0000_0000;
    if low < TWO_31 then low else low - TWO_32
  }

  /** The `int` result of an addition whose exact value is `i`. */
  function WrapInt(i: int): Int {
    ToInt(i % 0x1_0000_0000_0000_0000)
  }

  /** Wrapping twice or once is the same, and a sum below 2^64 wraps exactly when it leaves the ints. */
  lemma WrapSum(x: nat, y: nat)
    requires x + y < TWO_64
    ensures WrapInt(WrapInt(x) + y) == WrapInt(x + y)
    ensures if x <= MAX_INT then WrapInt(x) == x else WrapInt(x) < 0
    ensures if x + y <= MAX_INT then WrapInt(x + y) == x + y else WrapInt(x + y) < 0
  {
  }

  /** `x + y` on two non-negative ints: a sign check on the result catches every wrap. */
  function AddInt(x: Int, y: Int): (r: Int)
    requires x >= 0 && y >= 0
    ensures if x + y <= MAX_INT then r == x + y else r < 0
  {
    WrapInt(x + y)
  }

  // ----- bit operators

  function Pow2(n: nat): (p: nat)
    ensures p > 0
  {
    if n == 0 then 1 else 2 * Pow2(n - 1)
  }

  function And(x: nat, y: nat): nat {
    if x == 0 || y == 0 then 0
    else 2 * And(x / 2, y / 2) + (if x % 2 == 1 && y % 2 == 1 then 1 else 0)
  }

  function Or(x: nat, y: nat): nat
    decreases x + y
  {
    if x == 0 && y == 0 then 0
    else 2 * Or(x / 2, y / 2) + (if x % 2 == 1 || y % 2 == 1 then 1 else 0)
  }

  /** `x << s` on a `uint64`: bits shifted past the top are lost. */
  function Shl(x: Uint64, s: nat): Uint64 {
    x * Pow2(s) % 0x1_0000_0000_0000_0000
  }

  /** `x >> s` on a `uint64`. */
  function Shr(x: Uint64, s: nat): Uint64 {
    DivBound(x, Pow2(s));
    x / Pow2(s)
  }

  /** `bits.Len64`: the number of binary digits. */
  function Len64(x: nat): nat {
    if x == 0 then 0 else 1 + Len64(x / 2)
  }

  lemma DivBound(x: nat, d: nat)
    requires d > 0
    ensures 0 <= x / d <= x
  {
    var q, r := x / d, x % d;
    assert x == q * d + r;
    MulMono(1, d, q);
  }

  lemma MulMono(a: nat, b: nat, c: nat)
    requires a <= b
    ensures a * c <= b * c && c * a <= c * b
  {
  }

  lemma {:induction false} Pow2Sum(m: nat, n: nat, p: nat, q: nat)
    requires Pow2(m) == p && Pow2(n) == q
    ensures Pow2(m + n) == p * q
  {
    if m > 0 {
      Pow2Sum(m - 1, n, p / 2, q);
      assert Pow2(m + n) == 2 * ((p / 2) * q) == (2 * (p / 2)) * q;
    }
  }

  lemma Pow2Add(m: nat, n: nat)
    ensures Pow2(m + n) == Pow2(m) * Pow2(n)
  {
    Pow2Sum(m, n, Pow2(m), Pow2(n));
  }

  lemma {:induction false} Pow2Mono(m: nat, n: nat)
    requires m <= n
    ensures Pow2(m) <= Pow2(n)
  {
    if m < n { Pow2Mono(m, n - 1); }
  }

  lemma Pow2Small()
    ensures Pow2(3) == 8 && Pow2(7) == 128 && Pow2(8) == 256
  {
  }

  lemma Pow2Word()
    ensures Pow2(63) == TWO_63 && Pow2(64) == TWO_64
  {
    Pow2Sum(8, 8, 0x100, 0x100);
    Pow2Sum(16, 16, 0x1_0000, 0x1_0000);
    Pow2Sum(32, 32, 0x1_0000_0000, 0x1_0000_0000);
    assert Pow2(64) == 2 * Pow2(63);
  }

  /** The number written by the `k` lowest digits of `x`. */
  function LowDigits(x: nat, k: nat): nat {
    if k == 0 then 0 else 2 * LowDigits(x / 2, k - 1) + x % 2
  }

  /** A mask of `k` ones keeps the `k` lowest digits. */
  lemma {:induction false} AndMask(x: nat, k: nat)
    ensures And(x, Pow2(k) - 1) == LowDigits(x, k)
  {
    if k > 0 {
      AndMask(x / 2, k - 1);
      AndOdd(x, Pow2(k - 1) - 1);
      hide And;
    }
  }

  lemma AndOdd(x: nat, m: nat)
    ensures And(x, 2 * m + 1) == 2 * And(x / 2, m) + x % 2
  {
    var y := 2 * m + 1;
    assert y / 2 == m && y % 2 == 1;
    if x == 0 { assert And(0, m) == 0; }
  }

  lemma {:induction false} LowDigitsSplit(x: nat, k: nat) returns (high: nat)
    ensures x == high * Pow2(k) + LowDigits(x, k) && LowDigits(x, k) < Pow2(k)
  {
    if k == 0 {
      high := x;
    } else {
      high := LowDigitsSplit(x / 2, k - 1);
      var p := Pow2(k - 1);
      assert high * (2 * p) == 2 * (high * p);
    }
  }

  lemma MaskMod(x: nat, k: nat, p: nat)
    requires Pow2(k) == p
    ensures And(x, p - 1) == x % p
  {
    AndMask(x, k);
    var high := LowDigitsSplit(x, k);
    hide *;
    ModUnique(x, p, high, LowDigits(x, k));
  }

  /** The two masks of the codec. */
  lemma Masks(x: nat)
    ensures And(x, 0x7F) == x % 128 && And(x, 0x7) == x % 8
  {
    Pow2Small();
    hide *;
    MaskMod(x, 7, 128);
    MaskMod(x, 3, 8);
  }

  lemma ModUnique(x: nat, d: nat, q: nat, r: nat)
    requires d > 0 && x == q * d + r && r < d
    ensures x % d == r && x / d == q
  {
    var q', r' := x / d, x % d;
    assert x == q' * d + r' && r' < d;
    if q' < q { MulMono(q' + 1, q, d); }
    if q < q' { MulMono(q + 1, q', d); }
  }

  lemma {:induction false} OrZero(y: nat)
    ensures Or(0, y) == y
  {
    if y > 0 { OrZero(y / 2); }
  }

  /** Or-ing a value below 2^k with a multiple of 2^k adds them: no bit is in both. */
  lemma {:induction false} OrDisjoint(x: nat, q: nat, k: nat)
    requires x < Pow2(k)
    ensures Or(x, q * Pow2(k)) == x + q * Pow2(k)
  {
    if k == 0 {
      OrZero(q);
    } else {
      var y := q * Pow2(k - 1);
      assert q * Pow2(k) == 2 * y;
      OrDisjoint(x / 2, q, k - 1);
      assert (2 * y) / 2 == y && (2 * y) % 2 == 0;
    }
  }

  /** One step of a varint loop: or in the next group, losing what is shifted past bit 63. */
  lemma OrShifted(x: nat, g: Uint64, k: nat)
    requires k <= 64 && x < Pow2(k)
    ensures Or(x, Shl(g, k)) == (x + g * Pow2(k)) % TWO_64
  {
    var p, q := Pow2(k), Pow2(64 - k);
    Pow2Add(k, 64 - k);
    Pow2Word();
    var h, t := DivMod(g, q);
    ShiftSplit(x, g, h, t, p, q);
    assert Shl(g, k) == t * p;
    OrDisjoint(x, t, k);
  }

  lemma DivMod(x: nat, d: nat) returns (q: nat, r: nat)
    requires d > 0
    ensures x == q * d + r && r < d
  {
    DivBound(x, d);
    q, r := x / d, x % d;
  }

  lemma ShiftSplit(x: nat, g: nat, h: nat, t: nat, p: nat, q: nat)
    requires p > 0 && q > 0 && x < p && g == h * q + t && t < q && p * q == TWO_64
    ensures g * p % TWO_64 == t * p && (x + g * p) % TWO_64 == x + t * p
  {
    calc {
      g * p;
      (h * q) * p + t * p;
      { assert (h * q) * p == h * (p * q); }
      h * TWO_64 + t * p;
    }
    MulMono(t + 1, q, p);
    assert (t + 1) * p == t * p + p;
    ModUnique(g * p, TWO_64, h, t * p);
    ModUnique(x + g * p, TWO_64, h, x + t * p);
  }

  /** The `int`-typed accumulator holds the same 64 bits as the `uint64` one. */
  function OrInt(x: Int, y: Int): Int {
    Pow2Word();
    OrBound(ToUint64(x), ToUint64(y), 64);
    ToInt(Or(ToUint64(x), ToUint64(y)))
  }

  function ShlInt(x: Int, s: nat): Int {
    ToInt(Shl(ToUint64(x), s))
  }

  lemma {:induction false} OrBound(x: nat, y: nat, k: nat)
    requires x < Pow2(k) && y < Pow2(k)
    ensures Or(x, y) < Pow2(k)
  {
    if k > 0 { OrBound(x / 2, y / 2, k - 1); }
  }

  /** `x | 1` only turns zero into one as far as the digit count is concerned. */
  lemma Len64Or1(x: nat)
    ensures Len64(Or(x, 1)) == if x == 0 then 1 else Len64(x)
  {
    OrOne(x);
    hide Or;
    var y := Or(x, 1);
    assert y / 2 == x / 2;
  }

  lemma OrOne(x: nat)
    ensures Or(x, 1) == 2 * (x / 2) + 1
  {
    assert Or(x, 1) == 2 * Or(x / 2, 0) + 1;
    OrComm(x / 2, 0);
    OrZero(x / 2);
  }

  lemma {:induction false} OrComm(x: nat, y: nat)
    ensures Or(x, y) == Or(y, x)
    decreases x + y
  {
    if x + y > 0 { OrComm(x / 2, y / 2); }
  }

  lemma {:induction false} Len64Bound(x: nat, k: nat)
    requires x < Pow2(k)
    ensures Len64(x) <= k
  {
    if x > 0 { Len64Bound(x / 2, k - 1); }
  }

  /** Dropping seven bits drops seven digits. */
  lemma Len64Div128(x: nat)
    requires x >= 128
    ensures Len64(x) == 7 + Len64(x / 128)
  {
    var c := x / 8;
    Len64Div8(x);
    Len64Div8(c);
    assert c / 8 == x / 64 && (x / 64) / 2 == x / 128;
  }

  lemma Len64Div8(x: nat)
    requires x >= 8
    ensures Len64(x) == 3 + Len64(x / 8)
  {
    var a := x / 2;
    var b := a / 2;
    assert Len64(x) == 1 + Len64(a) && Len64(a) == 1 + Len64(b) && Len64(b) == 1 + Len64(b / 2);
    assert b / 2 == x / 8;
  }
}
