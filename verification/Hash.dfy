/** The hash functions of src/core/hash/hash.c and the snapshot checksum. */
module Hash {
  import opened Bytes
  import opened Bits

  const FNV_OFFSET := 14695981039346656037
  const FNV_PRIME := 1099511628211

  /** `h ^ b` for a byte b: only the low eight bits of h can change. */
  function XorByte(h: nat, b: byte): (x: nat)
    ensures x / 256 == h / 256
    ensures h < U64 ==> x < U64
  {
    assert Pow2(8) == 256;
    h / 256 * 256 + Xor(h % 256, b, 8)
  }

  function FnvStep(h: nat, b: byte): nat {
    XorByte(h, b) * FNV_PRIME % U64
  }

  /** The FNV-1a hash of all of `data`; the state after i bytes is Fnv1a(data[..i]). */
  function Fnv1a(data: bytes): (h: nat)
    ensures h < U64
  {
    if |data| == 0 then FNV_OFFSET
    else FnvStep(Fnv1a(data[..|data| - 1]), data[|data| - 1])
  }

  /** Hashing by x -> (x * mult + byte) mod modulus: djb2 and the snapshot checksum. */
  function PolyHash(mult: nat, modulus: nat, seed: nat, data: bytes): (h: nat)
    requires 0 < modulus && seed < modulus
    ensures h < modulus
  {
    if |data| == 0 then seed
    else (PolyHash(mult, modulus, seed, data[..|data| - 1]) * mult + data[|data| - 1]) % modulus
  }

  function Djb2(data: bytes): nat {
    PolyHash(33, U64, 5381, data)
  }

  function Checksum(data: bytes): (h: nat)
    ensures h < U32
  {
    PolyHash(31, U32, 0, data)
  }

  /** src/core/hash/hash.c, FNV_1a. */
  method ComputeFnv1a(data: bytes) returns (hash: nat)
    ensures hash == Fnv1a(data)
  {
    hash := FNV_OFFSET;
    assert data[..0] == [];
    for i := 0 to |data|
      invariant hash == Fnv1a(data[..i])
    {
      assert data[..i + 1][..i] == data[..i];
      hash := XorByte(hash, data[i]);
      hash := hash * FNV_PRIME % U64;
    }
    assert data[..|data|] == data;
  }

  /** src/core/hash/hash.c, djb2: `(hash << 5) + hash` is hash * 33 mod 2^64. */
  method ComputeDjb2(data: bytes) returns (hash: nat)
    ensures hash == Djb2(data)
  {
    hash := 5381;
    assert data[..0] == [];
    for i := 0 to |data|
      invariant hash == Djb2(data[..i])
    {
      assert data[..i + 1][..i] == data[..i];
      hash := (hash * 32 % U64 + hash + data[i]) % U64;
    }
    assert data[..|data|] == data;
  }

  /** src/core/storage/storage.c, checksum. */
  method ComputeChecksum(data: bytes) returns (sum: nat)
    ensures sum == Checksum(data)
  {
    sum := 0;
    assert data[..0] == [];
    for i := 0 to |data|
      invariant sum == Checksum(data[..i])
    {
      assert data[..i + 1][..i] == data[..i];
      sum := (sum * 31 + data[i]) % U32;
    }
    assert data[..|data|] == data;
  }

  // ---- one step is injective in the state and in the byte ----

  /** Multiplication by a unit modulo m is injective below m. */
  lemma {:induction false} UnitInjective(x: int, y: int, p: int, inv: int, m: int)
    requires m > 0 && 0 <= x < m && 0 <= y < m
    requires p * inv % m == 1
    requires x * p % m == y * p % m
    ensures x == y
  {
    UnitUndo(x, p, inv, m);
    UnitUndo(y, p, inv, m);
  }

  lemma {:induction false} UnitUndo(x: int, p: int, inv: int, m: int)
    requires m > 0 && 0 <= x < m
    requires p * inv % m == 1
    ensures (x * p % m) * inv % m == x
  {
    var q, r := x * p / m, x * p % m;
    var q1 := p * inv / m;
    assert x * p == q * m + r;
    assert p * inv == q1 * m + 1;
    assert r * inv == (x * q1 - q * inv) * m + x by {
      assert r * inv == (x * p - q * m) * inv;
      assert x * p * inv == x * (q1 * m + 1);
    }
    ModUnique(r * inv, m, x * q1 - q * inv, x);
  }

  lemma {:induction false} XorByteInjective(g: nat, h: nat, b: byte, c: byte)
    requires (g == h) != (b == c)
    ensures XorByte(g, b) != XorByte(h, c)
  {
    assert Pow2(8) == 256;
    XorCancel(g % 256, b, 8);
    XorCancel(h % 256, c, 8);
  }

  lemma {:induction false} FnvPrimeInverse()
    ensures FNV_PRIME * 14886173955864302971 % U64 == 1
  {
  }

  /** A change of the state alone, or of the byte alone, changes the next state. */
  lemma {:induction false} FnvStepInjective(g: nat, h: nat, b: byte, c: byte)
    requires g < U64 && h < U64
    requires (g == h) != (b == c)
    ensures FnvStep(g, b) != FnvStep(h, c)
  {
    XorByteInjective(g, h, b, c);
    FnvPrimeInverse();
    if FnvStep(g, b) == FnvStep(h, c) {
      UnitInjective(XorByte(g, b), XorByte(h, c), FNV_PRIME, 14886173955864302971, U64);
    }
  }

  /** Two byte strings that differ at position p and nowhere else. */
  ghost predicate DifferOnlyAt(a: bytes, b: bytes, p: nat) {
    && |a| == |b| && p < |a| && a[p] != b[p]
    && forall i | 0 <= i < |a| && i != p :: a[i] == b[i]
  }

  /** FNV-1a separates any two keys of one length that differ in a single byte. */
  lemma {:induction false} FnvOneByte(a: bytes, b: bytes, p: nat)
    requires DifferOnlyAt(a, b, p)
    ensures Fnv1a(a) != Fnv1a(b)
    decreases |a|
  {
    var n := |a| - 1;
    if p == n {
      assert a[..n] == b[..n];
    } else {
      FnvOneByte(a[..n], b[..n], p);
    }
    FnvStepInjective(Fnv1a(a[..n]), Fnv1a(b[..n]), a[n], b[n]);
  }

  /** Equal remainders mean a difference by a multiple. */
  lemma {:induction false} SameMod(x: int, y: int, m: int)
    requires m > 0 && x % m == y % m
    ensures x - y == (x / m - y / m) * m
  {
  }

  lemma {:induction false} PolyByteInjective(z: nat, m: nat, b: byte, c: byte)
    requires m >= 256 && b != c
    ensures (z + b) % m != (z + c) % m
  {
    if (z + b) % m == (z + c) % m {
      SameMod(z + b, z + c, m);
      MulSmall((z + b) / m - (z + c) / m, m);
    }
  }

  lemma {:induction false} CancelMod(x: int, y: int, b: int, m: int)
    requires m > 0 && (x + b) % m == (y + b) % m
    ensures x % m == y % m
  {
    SameMod(x + b, y + b, m);
    var k := (x + b) / m - (y + b) / m + y / m;
    assert x == k * m + y % m;
    ModUnique(x, m, k, y % m);
  }

  lemma {:induction false} PolyStateInjective(g: nat, h: nat, mult: nat, inv: nat, m: nat, b: byte)
    requires m > 0 && g < m && h < m && mult * inv % m == 1 && g != h
    ensures (g * mult + b) % m != (h * mult + b) % m
  {
    if (g * mult + b) % m == (h * mult + b) % m {
      CancelMod(g * mult, h * mult, b, m);
      UnitInjective(g, h, mult, inv, m);
    }
  }

  /** A change of the state alone, or of the byte alone, changes the next state. */
  lemma {:induction false} PolyStepInjective(g: nat, h: nat, mult: nat, inv: nat, m: nat, b: byte, c: byte)
    requires m >= 256 && g < m && h < m && mult * inv % m == 1
    requires (g == h) != (b == c)
    ensures (g * mult + b) % m != (h * mult + c) % m
  {
    if g == h { PolyByteInjective(g * mult, m, b, c); } else { PolyStateInjective(g, h, mult, inv, m, b); }
  }

  lemma {:induction false} PolyOneByte(mult: nat, inv: nat, m: nat, seed: nat, a: bytes, b: bytes, p: nat)
    requires m >= 256 && seed < m && mult * inv % m == 1
    requires DifferOnlyAt(a, b, p)
    ensures PolyHash(mult, m, seed, a) != PolyHash(mult, m, seed, b)
    decreases |a|
  {
    var n := |a| - 1;
    if p == n {
      assert a[..n] == b[..n];
    } else {
      PolyOneByte(mult, inv, m, seed, a[..n], b[..n], p);
    }
    PolyStepInjective(PolyHash(mult, m, seed, a[..n]), PolyHash(mult, m, seed, b[..n]), mult, inv, m, a[n], b[n]);
  }

  /** Changing one byte of a key or value changes its checksum, whatever its length. */
  lemma {:induction false} ChecksumOneByte(a: bytes, b: bytes, p: nat)
    requires DifferOnlyAt(a, b, p)
    ensures Checksum(a) != Checksum(b)
  {
    PolyOneByte(31, 3186588639, U32, 0, a, b, p);
  }

  /** djb2, which routes keys to shards, separates them in the same way. */
  lemma {:induction false} Djb2OneByte(a: bytes, b: bytes, p: nat)
    requires DifferOnlyAt(a, b, p)
    ensures Djb2(a) != Djb2(b)
  {
    PolyOneByte(33, 1117984489315730401, U64, 5381, a, b, p);
  }

  // ---- a key whose hash is the mark of an empty slot ----

  const ZERO_HASH_KEY: bytes := [0xd5, 0x6b, 0xb9, 0x53, 0x42, 0x87, 0x08, 0x36]

  /** One step from the state 256 q + r over the byte b. */
  lemma {:induction false} FnvAppend(k: bytes, q: nat, r: nat, b: byte, x: nat)
    requires r < 256 && Fnv1a(k) == 256 * q + r
    requires Pow2(8) == 256 && Xor(r, b, 8) == x
    ensures Fnv1a(k + [b]) == (256 * q + x) * FNV_PRIME % U64
  {
    assert (k + [b])[..|k|] == k;
    assert Fnv1a(k) / 256 == q && Fnv1a(k) % 256 == r;
    assert XorByte(Fnv1a(k), b) == 256 * q + x;
  }

  lemma {:induction false} ZeroHashStep1(k: bytes)
    requires Fnv1a(k) == 14695981039346656037
    ensures Fnv1a(k + [0xd5]) == 12638376316555694288
  {
    hide Fnv1a;
    assert Pow2(8) == 256;
    FnvAppend(k, 57406175934947875, 37, 0xd5, 240);
  }

  lemma {:induction false} ZeroHashStep2(k: bytes)
    requires Fnv1a(k) == 12638376316555694288
    ensures Fnv1a(k + [0x6b]) == 784845726696172993
  {
    hide Fnv1a;
    assert Pow2(8) == 256;
    FnvAppend(k, 49368657486545680, 208, 0x6b, 187);
  }

  lemma {:induction false} ZeroHashStep3(k: bytes)
    requires Fnv1a(k) == 784845726696172993
    ensures Fnv1a(k + [0xb9]) == 13216362983930266344
  {
    hide Fnv1a;
    assert Pow2(8) == 256;
    FnvAppend(k, 3065803619906925, 193, 0xb9, 120);
  }

  lemma {:induction false} ZeroHashStep4(k: bytes)
    requires Fnv1a(k) == 13216362983930266344
    ensures Fnv1a(k + [0x53]) == 8218091972537066433
  {
    hide Fnv1a;
    assert Pow2(8) == 256;
    FnvAppend(k, 51626417905977602, 232, 0x53, 187);
  }

  lemma {:induction false} ZeroHashStep5(k: bytes)
    requires Fnv1a(k) == 8218091972537066433
    ensures Fnv1a(k + [0x42]) == 6551918158621628313
  {
    hide Fnv1a;
    assert Pow2(8) == 256;
    FnvAppend(k, 32101921767722915, 193, 0x42, 131);
  }

  lemma {:induction false} ZeroHashStep6(k: bytes)
    requires Fnv1a(k) == 6551918158621628313
    ensures Fnv1a(k + [0x87]) == 10643398447161640954
  {
    hide Fnv1a;
    assert Pow2(8) == 256;
    FnvAppend(k, 25593430307115735, 153, 0x87, 30);
  }

  lemma {:induction false} ZeroHashStep7(k: bytes)
    requires Fnv1a(k) == 10643398447161640954
    ensures Fnv1a(k + [0x8]) == 54
  {
    hide Fnv1a;
    assert Pow2(8) == 256;
    FnvAppend(k, 41575775184225159, 250, 0x8, 242);
  }

  lemma {:induction false} ZeroHashStep8(k: bytes)
    requires Fnv1a(k) == 54
    ensures Fnv1a(k + [0x36]) == 0
  {
    hide Fnv1a;
    assert Pow2(8) == 256;
    FnvAppend(k, 0, 54, 0x36, 0);
  }

  lemma {:induction false} FnvEmpty()
    ensures Fnv1a([]) == FNV_OFFSET
  {
  }

  /** This NUL-free eight-byte key hashes to 0, the value that marks an empty slot. */
  lemma {:induction false} ZeroHashKey()
    ensures Fnv1a(ZERO_HASH_KEY) == 0
  {
    FnvEmpty();
    hide Fnv1a;
    var k := ZERO_HASH_KEY;
    assert k[..0] == [];
    ZeroHashStep1(k[..0]);
    assert k[..0] + [0xd5] == k[..1];
    ZeroHashStep2(k[..1]);
    assert k[..1] + [0x6b] == k[..2];
    ZeroHashStep3(k[..2]);
    assert k[..2] + [0xb9] == k[..3];
    ZeroHashStep4(k[..3]);
    assert k[..3] + [0x53] == k[..4];
    ZeroHashStep5(k[..4]);
    assert k[..4] + [0x42] == k[..5];
    ZeroHashStep6(k[..5]);
    assert k[..5] + [0x87] == k[..6];
    ZeroHashStep7(k[..6]);
    assert k[..6] + [0x8] == k[..7];
    ZeroHashStep8(k[..7]);
    assert k[..7] + [0x36] == k[..8];
    assert k[..8] == k;
  }

  // ---- the polynomial in closed form ----

  function Power(b: nat, e: nat): nat {
    if e == 0 then 1 else b * Power(b, e - 1)
  }

  /** The bytes as the coefficients of a polynomial in `mult`, the first one with the highest power. */
  function Weighted(mult: nat, data: bytes): nat
    decreases |data|
  {
    if |data| == 0 then 0 else data[0] * Power(mult, |data| - 1) + Weighted(mult, data[1..])
  }

  lemma {:induction false} WeightedSnoc(mult: nat, data: bytes, b: byte)
    ensures Weighted(mult, data + [b]) == Weighted(mult, data) * mult + b
    decreases |data|
  {
    var all := data + [b];
    if |data| == 0 {
      assert all[1..] == [] && Power(mult, 0) == 1;
    } else {
      assert all[1..] == data[1..] + [b];
      WeightedSnoc(mult, data[1..], b);
      var x, p, w := data[0], Power(mult, |data| - 1), Weighted(mult, data[1..]);
      assert Power(mult, |data|) == mult * p;
      assert x * (mult * p) + w * mult == (x * p + w) * mult;
    }
  }

  lemma {:induction false} StepMod(x: nat, a: nat, b: nat, m: nat)
    requires m > 0
    ensures (x % m * a + b) % m == (x * a + b) % m
  {
    var q, r := x / m, x % m;
    var y := r * a + b;
    assert x * a + b == (q * a) * m + y by { assert (q * m + r) * a == (q * a) * m + r * a; }
    ModUnique(x * a + b, m, q * a + y / m, y % m);
  }

  /** djb2 and the checksum in closed form: the value of a polynomial, cut to their width. */
  lemma {:induction false} PolyClosed(mult: nat, m: nat, seed: nat, data: bytes)
    requires 0 < m && seed < m
    ensures PolyHash(mult, m, seed, data) == (seed * Power(mult, |data|) + Weighted(mult, data)) % m
    decreases |data|
  {
    hide *;
    PolyUnfold(mult, m, seed, data);
    if |data| == 0 {
      assert data == [];
    } else {
      var d, b, n := data[..|data| - 1], data[|data| - 1], |data| - 1;
      assert data == d + [b];
      PolyClosed(mult, m, seed, d);
      WeightedSnoc(mult, d, b);
      PowerNext(mult, n);
      PolyNext(seed, Power(mult, n), Weighted(mult, d), mult, b, m);
    }
  }

  lemma {:induction false} PolyUnfold(mult: nat, m: nat, seed: nat, data: bytes)
    requires 0 < m && seed < m
    ensures |data| == 0 ==> PolyHash(mult, m, seed, data) == seed == (seed * Power(mult, 0) + Weighted(mult, [])) % m
    ensures |data| > 0 ==>
              PolyHash(mult, m, seed, data) ==
              (PolyHash(mult, m, seed, data[..|data| - 1]) * mult + data[|data| - 1]) % m
  {
    ModUnique(seed, m, 0, seed);
  }

  lemma {:induction false} PowerNext(b: nat, e: nat)
    ensures Power(b, e + 1) == b * Power(b, e)
  {
  }

  lemma {:induction false} PolyNext(seed: nat, p: nat, w: nat, mult: nat, b: nat, m: nat)
    requires m > 0
    ensures ((seed * p + w) % m * mult + b) % m == (seed * (mult * p) + (w * mult + b)) % m
  {
    StepMod(seed * p + w, mult, b, m);
    assert (seed * p + w) * mult == seed * p * mult + w * mult;
    assert seed * p * mult == seed * (mult * p);
  }

  lemma {:induction false} Djb2One(c: byte)
    ensures Djb2([c]) == 5381 * 33 + c
  {
    assert [c][..0] == [];
    assert PolyHash(33, U64, 5381, []) == 5381;
    ModUnique(5381 * 33 + c, U64, 0, 5381 * 33 + c);
  }

  /** The hash that routes a key, and the checksum of a field. */
  lemma {:induction false} HashesClosed(data: bytes)
    ensures Djb2(data) == (5381 * Power(33, |data|) + Weighted(33, data)) % U64
    ensures Checksum(data) == Weighted(31, data) % U32
  {
    PolyClosed(33, U64, 5381, data);
    PolyClosed(31, U32, 0, data);
  }
}
