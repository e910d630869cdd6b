/** The `&` and `^` of unsigned numbers, and masking with `capacity - 1`. */
module Bits {

  const U64 := 0x1_0000_0000_0000_0000
  const U32 := 0x1_0000_0000
  const U16 := 0x1_0000

  /** The `&` of two unsigned numbers, one bit at a time. */
  function BitAnd(a: nat, b: nat): (x: nat)
    ensures x <= a && x <= b
  {
    if a == 0 || b == 0 then 0
    else 2 * BitAnd(a / 2, b / 2) + (if a % 2 == 1 && b % 2 == 1 then 1 else 0)
  }

  function Pow2(k: nat): (p: nat)
    ensures p >= 1
  {
    if k == 0 then 1 else 2 * Pow2(k - 1)
  }

  ghost predicate IsPow2(n: nat) {
    exists k: nat :: n == Pow2(k)
  }

  lemma {:induction false} HalfMod(a: nat, m: nat)
    requires m >= 1
    ensures a % (2 * m) == 2 * ((a / 2) % m) + a % 2
  {
    var q, r := (a / 2) / m, (a / 2) % m;
    assert a / 2 == q * m + r;
    assert a == q * (2 * m) + (2 * r + a % 2) by {
      assert a == 2 * (a / 2) + a % 2;
      assert 2 * (q * m) == q * (2 * m);
    }
    ModUnique(a, 2 * m, q, 2 * r + a % 2);
  }

  lemma {:induction false} ModUnique(a: int, m: int, q: int, r: int)
    requires m > 0 && a == q * m + r && 0 <= r < m
    ensures a % m == r && a / m == q
  {
    var q', r' := a / m, a % m;
    assert a == q' * m + r';
    assert (q - q') * m == r' - r;
    MulAtLeast(q - q', m);
    MulAtLeast(q' - q, m);
    assert (q' - q) * m == -((q - q') * m);
  }

  lemma {:induction false} MulAtLeast(d: int, m: int)
    requires m > 0
    ensures d >= 1 ==> d * m >= m
  {
  }

  lemma {:induction false} SmallFactor(a: nat, b: nat)
    requires a > 0 && b >= 2
    ensures a < a * b
  {
    MulAtLeast(b - 1, a);
    assert a * b == (b - 1) * a + a;
  }

  lemma {:induction false} MulSmall(d: int, m: int)
    requires m > 0 && -m < d * m < m
    ensures d == 0
  {
    MulAtLeast(d, m);
    MulAtLeast(-d, m);
    assert -d * m == -(d * m);
  }

  /** Masking with 2^k - 1 is the remainder by 2^k. */
  lemma {:induction false} MaskIsMod(a: nat, k: nat)
    ensures BitAnd(a, Pow2(k) - 1) == a % Pow2(k)
    decreases k
  {
    if k == 0 {
    } else {
      var m := Pow2(k - 1);
      MaskIsMod(a / 2, k - 1);
      HalfMod(a, m);
      assert (Pow2(k) - 1) / 2 == m - 1 && (Pow2(k) - 1) % 2 == 1;
    }
  }

  lemma {:induction false} MaskPow2(a: nat, cap: nat)
    requires IsPow2(cap)
    ensures cap >= 1 && BitAnd(a, cap - 1) == a % cap
  {
    var k: nat :| cap == Pow2(k);
    MaskIsMod(a, k);
  }

  /** The `^` of two k-bit numbers, from the top bit down. */
  function Xor(a: nat, b: nat, k: nat): (x: nat)
    requires a < Pow2(k) && b < Pow2(k)
    ensures x < Pow2(k)
  {
    if k == 0 then 0
    else
      var m := Pow2(k - 1);
      if a < m && b < m then Xor(a, b, k - 1)
      else if a < m then m + Xor(a, b - m, k - 1)
      else if b < m then m + Xor(a - m, b, k - 1)
      else Xor(a - m, b - m, k - 1)
  }

  /** Applying the same `^` twice undoes it, so `^` is injective in either argument. */
  lemma {:induction false} XorCancel(a: nat, b: nat, k: nat)
    requires a < Pow2(k) && b < Pow2(k)
    ensures Xor(Xor(a, b, k), b, k) == a
    ensures Xor(Xor(a, b, k), a, k) == b
  {
    if k != 0 {
      var m := Pow2(k - 1);
      XorCancel(if a < m then a else a - m, if b < m then b else b - m, k - 1);
    }
  }

  lemma {:induction false} Pow2Sum(j: nat, k: nat)
    ensures Pow2(j + k) == Pow2(j) * Pow2(k)
  {
    if j != 0 {
      Pow2Sum(j - 1, k);
      assert 2 * (Pow2(j - 1) * Pow2(k)) == (2 * Pow2(j - 1)) * Pow2(k);
    }
  }

  lemma {:induction false} Pow2Of4()
    ensures Pow2(4) == 16
  {
    assert Pow2(2) == 4;
  }

  lemma {:induction false} Pow2Of64()
    ensures Pow2(16) == U16 && Pow2(64) == U64
  {
    hide Pow2;
    Pow2Of4();
    Pow2Sum(4, 4);
    Pow2Sum(8, 8);
    Pow2Sum(16, 16);
    Pow2Sum(32, 32);
  }

  // ---- masking with a capacity that is no power of two ----

  lemma {:induction false} MaskIdempotent(x: nat, m: nat)
    ensures BitAnd(BitAnd(x, m), m) == BitAnd(x, m)
    decreases x
  {
    if x != 0 && m != 0 {
      MaskIdempotent(x / 2, m / 2);
      var y := BitAnd(x, m);
      assert y / 2 == BitAnd(x / 2, m / 2) && y % 2 == if x % 2 == 1 && m % 2 == 1 then 1 else 0;
      if y == 0 { assert BitAnd(0, m) == 0; }
    }
  }

  function Masked(x: nat, cap: nat): nat
    requires cap > 0
  {
    BitAnd(x, cap - 1)
  }

  /** Masking leaves the slot index alone. */
  predicate Reached(y: nat, cap: nat)
    requires cap > 0
  {
    Masked(y, cap) == y
  }

  /** Only such slots are the index of any hash or step. */
  lemma {:induction false} ReachedExactly(y: nat, cap: nat)
    requires cap > 0
    ensures Reached(y, cap) <==> exists x: nat :: Masked(x, cap) == y
  {
    if x: nat :| Masked(x, cap) == y { MaskIdempotent(x, cap - 1); }
  }

  /** Masking with capacity - 1 reaches every slot exactly when the capacity is a power of two. */
  lemma {:induction false} AllReachedExactly(cap: nat)
    requires cap > 0
    ensures (forall y: nat | y < cap :: Reached(y, cap)) <==> IsPow2(cap)
    decreases cap
  {
    if IsPow2(cap) {
      forall y: nat | y < cap ensures Reached(y, cap) {
        MaskPow2(y, cap);
        ModUnique(y, cap, 0, y);
      }
    } else if forall y: nat | y < cap :: Reached(y, cap) {
      assert Pow2(0) == 1;
      assert Reached(1, cap);
      OddMask(cap);
      var half := cap / 2;
      forall y: nat | y < half ensures Reached(y, half) {
        assert Reached(2 * y, cap);
        HalfMask(y, cap);
      }
      AllReachedExactly(half);
      var k: nat :| half == Pow2(k);
      assert Pow2(k + 1) == cap;
    }
  }

  lemma {:induction false} OddMask(cap: nat)
    requires cap > 1 && Reached(1, cap)
    ensures cap % 2 == 0
  {
  }

  lemma {:induction false} HalfMask(y: nat, cap: nat)
    requires cap > 1 && cap % 2 == 0 && Reached(2 * y, cap)
    ensures Reached(y, cap / 2)
  {
    assert (cap - 1) / 2 == cap / 2 - 1;
    assert 2 * y / 2 == y;
  }

  // ---- the slots that an index reaches, segment by segment ----

  /** The largest power of two that divides n. */
  function LowBit(n: nat): (b: nat)
    requires n > 0
    ensures 0 < b <= n
  {
    if n % 2 == 1 then 1 else 2 * LowBit(n / 2)
  }

  lemma {:induction false} LowBitPow2(n: nat)
    requires n > 0
    ensures IsPow2(LowBit(n))
    decreases n
  {
    if n % 2 == 1 {
      assert Pow2(0) == 1;
    } else {
      LowBitPow2(n / 2);
      var k: nat :| LowBit(n / 2) == Pow2(k);
      assert Pow2(k + 1) == LowBit(n);
    }
  }

  /** What is left of n without it. */
  function OddPart(n: nat): (r: nat)
    requires n > 0
    ensures r % 2 == 1
  {
    if n % 2 == 1 then n else OddPart(n / 2)
  }

  lemma {:induction false} LowBitTimes(n: nat)
    requires n > 0
    ensures n == LowBit(n) * OddPart(n)
    decreases n
  {
    if n % 2 == 0 {
      LowBitTimes(n / 2);
      assert 2 * (LowBit(n / 2) * OddPart(n / 2)) == 2 * LowBit(n / 2) * OddPart(n / 2);
    }
  }

  /** The quotient, with what makes it one. */
  function Div(x: nat, m: nat): (q: nat)
    requires m > 0
    ensures x == q * m + x % m && x % m < m
  {
    DivAtLeast(x, m);
    x / m
  }

  lemma {:induction false} DivAtLeast(x: nat, m: nat)
    requires m > 0
    ensures x / m >= 0 && x == x / m * m + x % m
  {
    MulAtLeast(-(x / m), m);
    assert -(x / m) * m == -(x / m * m);
  }

  lemma {:induction false} DivUnique(a: nat, m: nat, q: nat, r: nat)
    requires m > 0 && r < m && a == q * m + r
    ensures Div(a, m) == q && a % m == r
  {
    ModUnique(a, m, q, r);
    assert (Div(a, m) - q) * m == Div(a, m) * m - q * m == 0;
    MulSmall(Div(a, m) - q, m);
  }

  /** A number is its own largest power of two exactly when it is a power of two. */
  lemma {:induction false} LowBitWhole(n: nat)
    requires n > 0
    ensures LowBit(n) == n <==> IsPow2(n)
  {
    if LowBit(n) == n { LowBitPow2(n); }
    if IsPow2(n) {
      var k: nat :| n == Pow2(k);
      LowBitOfPow2(k);
    }
  }

  lemma {:induction false} LowBitOfPow2(k: nat)
    ensures LowBit(Pow2(k)) == Pow2(k)
  {
    if k > 0 { LowBitOfPow2(k - 1); }
  }

  /** The mask of any capacity: it takes the remainder by LowBit and masks the rest. */
  lemma {:induction false} MaskSplit(x: nat, cap: nat)
    requires cap > 0
    ensures var l := LowBit(cap); BitAnd(x, cap - 1) == l * BitAnd(Div(x, l), OddPart(cap) - 1) + x % l
    decreases cap
  {
    if cap % 2 == 0 {
      MaskSplit(x / 2, cap / 2);
      EvenParts(cap);
      hide LowBit, OddPart, BitAnd, Div;
      MaskSplitEven(x, cap, LowBit(cap / 2), OddPart(cap / 2));
    } else {
      DivUnique(x, 1, x, 0);
    }
  }

  lemma {:induction false} EvenParts(n: nat)
    requires n > 0 && n % 2 == 0
    ensures LowBit(n) == 2 * LowBit(n / 2) && OddPart(n) == OddPart(n / 2)
  {
  }

  lemma {:induction false} MaskSplitEven(x: nat, cap: nat, h: nat, r: nat)
    requires cap > 0 && cap % 2 == 0 && h > 0 && r > 0
    requires BitAnd(x / 2, cap / 2 - 1) == h * BitAnd(Div(x / 2, h), r - 1) + x / 2 % h
    ensures BitAnd(x, cap - 1) == 2 * h * BitAnd(Div(x, 2 * h), r - 1) + x % (2 * h)
  {
    AndHalf(x, cap - 1);
    assert (cap - 1) / 2 == cap / 2 - 1;
    HalfMod(x, h);
    DivTwice(x, h);
    hide BitAnd, Div;
    Doubled(BitAnd(x, cap - 1), BitAnd(x / 2, cap / 2 - 1), h, BitAnd(Div(x / 2, h), r - 1), x / 2 % h, x % 2);
  }

  lemma {:induction false} Doubled(a: nat, b: nat, h: nat, y: nat, s: nat, c: nat)
    requires b == h * y + s && a == 2 * b + c
    ensures a == 2 * h * y + (2 * s + c)
  {
    assert 2 * (h * y) == 2 * h * y;
  }

  lemma {:induction false} AndHalf(x: nat, m: nat)
    requires m % 2 == 1
    ensures BitAnd(x, m) == 2 * BitAnd(x / 2, m / 2) + x % 2
  {
    if x == 0 { assert BitAnd(0, m / 2) == 0; }
  }

  lemma {:induction false} DivTwice(x: nat, h: nat)
    requires h > 0
    ensures Div(x / 2, h) == Div(x, 2 * h)
  {
    var q, r := Div(x / 2, h), x / 2 % h;
    assert x == 2 * (q * h + r) + x % 2;
    assert 2 * (q * h + r) == q * (2 * h) + 2 * r;
    DivUnique(x, 2 * h, q, 2 * r + x % 2);
  }

  /** The bit below an odd number's own does not survive its mask. */
  lemma {:induction false} AndEven(q: nat, r: nat)
    requires r % 2 == 1 && BitAnd(q, r - 1) == q
    ensures BitAnd(q + 1, r - 1) == q
  {
    if r == 1 {
    } else if q == 0 {
      assert BitAnd(0, (r - 1) / 2) == 0;
    } else {
      assert q % 2 == 0 && (q + 1) / 2 == q / 2;
    }
  }
}
