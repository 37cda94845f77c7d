/** The machine word of the interpreter: 32-bit unsigned values as bounded mathematical
    integers, with the C++ operators on them written out, and the laws of their bits. */
module Words {
  const TWO32: int := 0x1_0000_0000

  type Word = w: int | 0 <= w < 0x1_0000_0000
  type Byte = b: int | 0 <= b < 0x100

  /** Conversion to `uint32_t`: reduction modulo 2^32. */
  function ToWord(x: int): Word {
    x % TWO32
  }

  /** Reinterpretation of a word as `int32_t`. */
  function Signed(w: Word): int {
    if w < 0x8000_0000 then w else w - TWO32
  }

  function Pow2(k: nat): (p: nat)
    ensures p >= 1
  {
    if k == 0 then 1 else 2 * Pow2(k - 1)
  }

  lemma Pow2Of32()
    ensures Pow2(32) == TWO32
    ensures Pow2(31) == 0x8000_0000
  {
    Pow2Add(4, 4);
    Pow2Add(8, 8);
    Pow2Add(16, 16);
  }

  /** Bit `i` of `x`; bit 0 is the least significant one. */
  predicate Bit(x: nat, i: nat)
    decreases x, i
  {
    if i == 0 then x % 2 == 1 else Bit(x / 2, i - 1)
  }

  datatype BitOp = AND | OR | XOR

  predicate OnBits(op: BitOp, a: bool, b: bool) {
    match op
    case AND => a && b
    case OR => a || b
    case XOR => a != b
  }

  /** The bitwise operator `op` on the low `n` bits of its operands. */
  function Bitwise(op: BitOp, a: nat, b: nat, n: nat): (r: nat)
    ensures r < Pow2(n)
  {
    if n == 0 then 0
    else 2 * Bitwise(op, a / 2, b / 2, n - 1) + if OnBits(op, a % 2 == 1, b % 2 == 1) then 1 else 0
  }

  function And(a: Word, b: Word): Word {
    Pow2Of32();
    Bitwise(AND, a, b, 32)
  }

  function Or(a: Word, b: Word): Word {
    Pow2Of32();
    Bitwise(OR, a, b, 32)
  }

  function Xor(a: Word, b: Word): Word {
    Pow2Of32();
    Bitwise(XOR, a, b, 32)
  }

  /** `~w` */
  function Not(w: Word): Word {
    TWO32 - 1 - w
  }

  /** `w << k` on `uint32_t` */
  function Shl(w: Word, k: nat): Word {
    w * Pow2(k) % TWO32
  }

  /** `w >> k` on `uint32_t` */
  function Shr(w: Word, k: nat): Word {
    DivBelow(w, Pow2(k));
    w / Pow2(k)
  }

  /** `x >> k` on a signed type: an arithmetic shift, which rounds down. */
  function Sar(x: int, k: nat): int {
    x / Pow2(k)
  }

  /** `x / y` on signed integers: the quotient rounded towards zero. */
  function TruncDiv(x: int, y: int): int
    requires y != 0
  {
    if x >= 0 then x / y else -(-x / y)
  }

  /** `x % y` on signed integers: the remainder that goes with `TruncDiv`. */
  function TruncMod(x: int, y: int): int
    requires y != 0
  {
    x - y * TruncDiv(x, y)
  }

  // ---- division and remainder ----

  /** A nonzero factor does not shrink a product towards zero. */
  lemma MulSize(d: int, q: int)
    requires d >= 0
    ensures q >= 1 ==> d * q >= d
    ensures q <= -1 ==> d * q <= -d
  {
  }

  lemma MulBelow(f: int, a: int, b: int)
    requires f < a && b >= 0
    ensures f * b <= a * b - b
    decreases b
  {
    if b > 0 {
      MulBelow(f, a, b - 1);
      assert f * b == f * (b - 1) + f && a * b == a * (b - 1) + a;
    }
  }

  lemma DivBelow(x: nat, d: nat)
    requires d >= 1
    ensures 0 <= x / d <= x
  {
    MulSize(d, x / d);
    MulSize(x / d, d);
    assert x == d * (x / d) + x % d;
  }

  lemma DivModUnique(x: int, d: int, q: int, r: int)
    requires 0 <= r < d
    requires x == d * q + r
    ensures x / d == q && x % d == r
  {
    var q', r' := x / d, x % d;
    assert d * (q' - q) == r - r';
    MulSize(d, q' - q);
  }

  /** Dividing by 2p is halving and then dividing by p. */
  lemma HalveDivMod(x: int, p: int)
    requires p >= 1
    ensures x / (2 * p) == (x / 2) / p
    ensures x % (2 * p) == 2 * ((x / 2) % p) + x % 2
  {
    var h := x / 2;
    assert p * (h / p) + h % p == h;
    assert (2 * p) * (h / p) == 2 * (p * (h / p));
    DivModUnique(x, 2 * p, h / p, 2 * (h % p) + x % 2);
  }

  lemma Pow2Add(i: nat, j: nat)
    ensures Pow2(i + j) == Pow2(i) * Pow2(j)
  {
    if i > 0 {
      Pow2Add(i - 1, j);
      assert Pow2(i + j) == 2 * (Pow2(i - 1) * Pow2(j));
      assert Pow2(i) * Pow2(j) == 2 * (Pow2(i - 1) * Pow2(j));
    }
  }

  /** Division and remainder by a product, one factor at a time. */
  lemma DivModProduct(x: int, a: int, b: int)
    requires a >= 1 && b >= 1
    ensures a * b >= 1
    ensures x / (a * b) == (x / a) / b
    ensures x % (a * b) == x % a + a * ((x / a) % b)
  {
    var y, r := x / a, x % a;
    var q, s := y / b, y % b;
    assert x == a * y + r && y == b * q + s;
    MulSize(a, b);
    MulBelow(s, b, a);
    assert (a * b) * q == a * (b * q);
    assert a * y == a * (b * q) + a * s;
    assert 0 <= a * s + r < a * b by { MulSize(a, s); }
    DivModUnique(x, a * b, q, a * s + r);
  }

  lemma Pow2Next(k: nat)
    ensures Pow2(k + 1) == 2 * Pow2(k)
  {
  }

  lemma Pow2Grows(i: nat, j: nat)
    requires i <= j
    ensures Pow2(i) <= Pow2(j)
  {
    if i < j {
      Pow2Grows(i, j - 1);
    }
  }

  // ---- the bits of each operator ----

  /** Numbers below 2^n with the same n bits are equal. */
  lemma {:induction false} SameBits(a: nat, b: nat, n: nat)
    requires a < Pow2(n) && b < Pow2(n)
    requires forall i :: 0 <= i < n ==> Bit(a, i) == Bit(b, i)
    ensures a == b
  {
    if n > 0 {
      assert Bit(a, 0) == Bit(b, 0);
      forall i | 0 <= i < n - 1
        ensures Bit(a / 2, i) == Bit(b / 2, i)
      {
        assert Bit(a, i + 1) == Bit(b, i + 1);
      }
      SameBits(a / 2, b / 2, n - 1);
    }
  }

  lemma NoHighBits(x: nat, n: nat, i: nat)
    requires x < Pow2(n) && n <= i
    ensures !Bit(x, i)
    decreases i
  {
    if n == 0 {
      if i > 0 {
        NoHighBits(x / 2, 0, i - 1);
      }
    } else {
      NoHighBits(x / 2, n - 1, i - 1);
    }
  }

  lemma {:induction false} BitwiseBit(op: BitOp, a: nat, b: nat, n: nat, i: nat)
    requires i < n
    ensures Bit(Bitwise(op, a, b, n), i) == OnBits(op, Bit(a, i), Bit(b, i))
  {
    var r := Bitwise(op, a, b, n);
    assert r / 2 == Bitwise(op, a / 2, b / 2, n - 1);
    if i > 0 {
      BitwiseBit(op, a / 2, b / 2, n - 1, i - 1);
    }
  }

  /** Masking the low bits is a remainder. */
  lemma {:induction false} AndOnes(x: nat, k: nat, n: nat)
    requires k <= n
    ensures Bitwise(AND, x, Pow2(k) - 1, n) == x % Pow2(k)
  {
    assert Pow2(0) == 1;
    hide Pow2;
    if n > 0 {
      var ones := Pow2(k) - 1;
      if k == 0 {
        AndOnes(x / 2, 0, n - 1);
      } else {
        Pow2Next(k - 1);
        assert ones / 2 == Pow2(k - 1) - 1 && ones % 2 == 1;
        HalveDivMod(x, Pow2(k - 1));
        AndOnes(x / 2, k - 1, n - 1);
      }
    }
  }

  lemma {:induction false} DivBit(x: nat, k: nat, i: nat)
    ensures x / Pow2(k) >= 0
    ensures Bit(x / Pow2(k), i) == Bit(x, k + i)
  {
    DivBelow(x, Pow2(k));
    if k > 0 {
      HalveDivMod(x, Pow2(k - 1));
      DivBit(x / 2, k - 1, i);
    }
  }

  lemma {:induction false} ModBit(x: nat, k: nat, i: nat)
    ensures x % Pow2(k) >= 0
    ensures Bit(x % Pow2(k), i) == (i < k && Bit(x, i))
    decreases k
  {
    if k == 0 {
      NoHighBits(0, 0, i);
    } else {
      HalveDivMod(x, Pow2(k - 1));
      var m := x % Pow2(k);
      assert m / 2 == (x / 2) % Pow2(k - 1) && m % 2 == x % 2;
      if i > 0 {
        ModBit(x / 2, k - 1, i - 1);
      }
    }
  }

  lemma {:induction false} MulBit(x: nat, k: nat, i: nat)
    ensures x * Pow2(k) >= 0
    ensures Bit(x * Pow2(k), i) == (k <= i && Bit(x, i - k))
    decreases k
  {
    if k > 0 {
      var m := x * Pow2(k - 1);
      assert x * Pow2(k) == 2 * m && m >= 0;
      if i > 0 {
        MulBit(x, k - 1, i - 1);
      }
    }
  }

  lemma {:induction false} NotBit(x: nat, n: nat, i: nat)
    requires x < Pow2(n) && i < n
    ensures Bit(Pow2(n) - 1 - x, i) == !Bit(x, i)
  {
    var c := Pow2(n) - 1 - x;
    assert c % 2 == 1 - x % 2 && c / 2 == Pow2(n - 1) - 1 - x / 2;
    if i > 0 {
      NotBit(x / 2, n - 1, i - 1);
    }
  }

  lemma OnesBit(n: nat, i: nat)
    ensures Bit(Pow2(n) - 1, i) == (i < n)
  {
    if i < n {
      NoHighBits(0, 0, i);
      NotBit(0, n, i);
    } else {
      NoHighBits(Pow2(n) - 1, n, i);
    }
  }

  /** Every operator of this module, bit by bit. */
  lemma BitLaws()
    ensures Pow2(32) == TWO32
    ensures forall a: Word, i: nat {:trigger Bit(a, i)} :: Bit(a, i) ==> i < 32
    ensures forall a: Word, b: Word, i: nat {:trigger Bit(And(a, b), i)} :: Bit(And(a, b), i) == (Bit(a, i) && Bit(b, i))
    ensures forall a: Word, b: Word, i: nat {:trigger Bit(Or(a, b), i)} :: Bit(Or(a, b), i) == (Bit(a, i) || Bit(b, i))
    ensures forall a: Word, b: Word, i: nat {:trigger Bit(Xor(a, b), i)} :: Bit(Xor(a, b), i) == (Bit(a, i) != Bit(b, i))
    ensures forall a: Word, i: nat {:trigger Bit(Not(a), i)} :: i < 32 ==> Bit(Not(a), i) == !Bit(a, i)
    ensures forall a: Word, k: nat, i: nat {:trigger Bit(Shl(a, k), i)} :: Bit(Shl(a, k), i) == (k <= i < 32 && Bit(a, i - k))
    ensures forall a: Word, k: nat, i: nat {:trigger Bit(Shr(a, k), i)} :: Bit(Shr(a, k), i) == Bit(a, k + i)
  {
    Pow2Of32();
    forall a: Word, i: nat | i >= 32
      ensures !Bit(a, i)
    {
      NoHighBits(a, 32, i);
    }
    forall op: BitOp, a: Word, b: Word, i: nat | i < 32
      ensures Bit(Bitwise(op, a, b, 32), i) == OnBits(op, Bit(a, i), Bit(b, i))
    {
      BitwiseBit(op, a, b, 32, i);
    }
    forall a: Word, i: nat | i < 32
      ensures Bit(Not(a), i) == !Bit(a, i)
    {
      NotBit(a, 32, i);
    }
    forall a: Word, k: nat, i: nat
      ensures Bit(Shl(a, k), i) == (k <= i < 32 && Bit(a, i - k))
    {
      MulBit(a, k, i);
      ModBit(a * Pow2(k), 32, i);
    }
    forall a: Word, k: nat, i: nat
      ensures Bit(Shr(a, k), i) == Bit(a, k + i)
    {
      DivBit(a, k, i);
    }
  }

  lemma SameWord(a: Word, b: Word)
    requires forall i: nat :: i < 32 ==> Bit(a, i) == Bit(b, i)
    ensures a == b
  {
    Pow2Of32();
    SameBits(a, b, 32);
  }

  /** A word without bits from `n` upwards is below 2^n. */
  lemma BelowByBits(x: Word, n: nat)
    requires forall i: nat :: n <= i < 32 ==> !Bit(x, i)
    ensures x < Pow2(n)
  {
    hide Bit, Pow2;
    var low := x % Pow2(n);
    DivBelow(x, Pow2(n));
    MulSize(Pow2(n), x / Pow2(n));
    forall i: nat | i < 32
      ensures Bit(low, i) == Bit(x, i)
    {
      ModBit(x, n, i);
    }
    SameWord(low, x);
  }

  /** `|` of operands without a common bit is their sum. */
  lemma {:induction false} DisjointOr(a: nat, b: nat, n: nat)
    requires a < Pow2(n) && b < Pow2(n)
    requires forall i :: 0 <= i < n ==> !(Bit(a, i) && Bit(b, i))
    ensures Bitwise(OR, a, b, n) == a + b
  {
    if n > 0 {
      assert !(Bit(a, 0) && Bit(b, 0));
      forall i | 0 <= i < n - 1
        ensures !(Bit(a / 2, i) && Bit(b / 2, i))
      {
        assert !(Bit(a, i + 1) && Bit(b, i + 1));
      }
      DisjointOr(a / 2, b / 2, n - 1);
    }
  }

  lemma OrIsSum(a: Word, b: Word)
    requires forall i: nat :: i < 32 ==> !(Bit(a, i) && Bit(b, i))
    ensures Or(a, b) == a + b
  {
    Pow2Of32();
    DisjointOr(a, b, 32);
  }

  /** The highest bit of an (n+1)-bit number tells its size. */
  lemma {:induction false} TopBit(x: nat, n: nat)
    requires x < Pow2(n + 1)
    ensures Bit(x, n) == (x >= Pow2(n))
  {
    if n > 0 {
      TopBit(x / 2, n - 1);
    }
  }
}
