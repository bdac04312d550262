/** The hash the table places keys with: 64-bit FNV-1a over the key's bytes, masked
    down to a slot index (ht.c:35-51). Hash values are the naturals below 2^64, so the
    C `uint64_t` arithmetic is written out: XOR and AND bit by bit, the multiplication
    modulo 2^64. */
module Fnv {

  /** An `unsigned char`. */
  type byte = x: int | 0 <= x < 256

  /** A C string as the table sees it: its bytes up to, and without, the NUL. */
  type Key = s: seq<byte> | forall i :: 0 <= i < |s| ==> s[i] != 0

  const TwoTo64: nat := 0x1_0000_0000_0000_0000

  const Offset: nat := 14695981039346656037
  const Prime: nat := 1099511628211

  /** The largest capacity `key_index` can be given: its capacity parameter is a C `int`,
      and 2^30 is the largest power of two an `int` holds. */
  const MaxCapacity: nat := Pow2(30)

  /** Bitwise exclusive or of two naturals. */
  function Xor(x: nat, y: nat): nat {
    if x == 0 then y
    else if y == 0 then x
    else 2 * Xor(x / 2, y / 2) + (x + y) % 2
  }

  /** Bitwise and of two naturals. */
  function And(x: nat, y: nat): nat {
    if x == 0 || y == 0 then 0
    else 2 * And(x / 2, y / 2) + (x % 2) * (y % 2)
  }

  /** One FNV-1a round on a `uint64_t`: XOR the byte in, then multiply by the prime,
      wrapping around at 2^64. */
  function Step(h: nat, b: byte): nat {
    (Xor(h, b) * Prime) % TwoTo64
  }

  /** FNV-1a of `s`: the rounds folded over the bytes from first to last, starting
      from the offset basis. */
  function Hash(s: seq<byte>): (h: nat)
    decreases |s|
    ensures h < TwoTo64
  {
    if s == [] then Offset else Step(Hash(s[..|s| - 1]), s[|s| - 1])
  }

  /** The power of two 2^k. */
  function Pow2(k: nat): (r: nat)
    ensures r >= 1
  {
    if k == 0 then 1 else 2 * Pow2(k - 1)
  }

  /** A capacity the table may have: a power of two from 16 up to MaxCapacity. */
  ghost predicate IsCapacity(n: nat) {
    exists k :: 4 <= k <= 30 && n == Pow2(k)
  }

  /** The home slot of `key` in a table of `n` slots: its hash masked with n - 1. For a
      power-of-two `n` the mask keeps the hash's remainder modulo `n`, so the home is a
      slot of the table. */
  function Home(key: Key, n: nat): (i: nat)
    requires IsCapacity(n)
    ensures i == Hash(key) % n
    ensures i < n
  {
    var k :| 4 <= k <= 30 && n == Pow2(k);
    MaskIsMod(Hash(key), k);
    And(Hash(key), n - 1)
  }

  lemma {:induction false} MaskIsMod(x: nat, k: nat)
    ensures And(x, Pow2(k) - 1) == x % Pow2(k)
  {
    if k == 0 {
      assert And(x, 0) == 0 == x % 1;
    } else if x == 0 {
      assert And(0, Pow2(k) - 1) == 0;
      assert 0 % Pow2(k) == 0;
    } else {
      MaskIsMod(x / 2, k - 1);
      MaskStep(x, k);
    }
  }

  /** The inductive step of MaskIsMod: masking with 2^k - 1 keeps the low bit and
      masks the rest of the value with 2^(k-1) - 1. */
  lemma MaskStep(x: nat, k: nat)
    requires k > 0 && x > 0
    requires And(x / 2, Pow2(k - 1) - 1) == (x / 2) % Pow2(k - 1)
    ensures And(x, Pow2(k) - 1) == x % Pow2(k)
  {
    var p := Pow2(k - 1);
    var m := Pow2(k) - 1;
    assert m / 2 == p - 1 && m % 2 == 1 by {
      assert m == 2 * (p - 1) + 1;
    }
    assert And(x, m) == 2 * ((x / 2) % p) + x % 2;
    HalvingMod(x, p);
  }

  /** Taking a remainder modulo 2p is taking the remainder of the halved value
      modulo p and putting the low bit back. */
  lemma HalvingMod(x: nat, p: nat)
    requires p >= 1
    ensures x % (2 * p) == 2 * ((x / 2) % p) + x % 2
  {
    var q, r := x / 2, x % 2;
    var a, b := q / p, q % p;
    assert x == 2 * p * a + (2 * b + r);
    assert 0 <= 2 * b + r < 2 * p;
    ModOfMultiple(x, 2 * p, a, 2 * b + r);
  }

  lemma ModOfMultiple(x: nat, m: nat, a: nat, r: nat)
    requires m >= 1 && r < m && x == m * a + r
    ensures x % m == r
  {
    var q, s := x / m, x % m;
    assert m * q + s == m * a + r;
    if a > q {
      assert m * a - m * q == m * (a - q);
      MulAtLeast(m, a - q);
    } else if a < q {
      assert m * q - m * a == m * (q - a);
      MulAtLeast(m, q - a);
    }
  }

  lemma {:induction false} MulAtLeast(m: nat, d: nat)
    requires d >= 1
    ensures m * d >= m
  {
    if d > 1 {
      MulAtLeast(m, d - 1);
      assert m * d == m * (d - 1) + m;
    }
  }

  lemma CapacityDoubles(n: nat)
    requires IsCapacity(n) && 2 * n <= MaxCapacity
    ensures IsCapacity(2 * n)
  {
    var k :| 4 <= k <= 30 && n == Pow2(k);
    assert 2 * n == Pow2(k + 1);
  }

  lemma SixteenIsCapacity()
    ensures IsCapacity(16)
  {
    assert Pow2(4) == 16;
  }

  /** The low `k` bits of `x`, taken one at a time from the bottom. */
  function Low(x: nat, k: nat): nat {
    if k == 0 then 0 else 2 * Low(x / 2, k - 1) + x % 2
  }

  lemma {:induction false} LowIsMod(x: nat, k: nat)
    ensures Low(x, k) == x % Pow2(k)
  {
    if k > 0 {
      LowIsMod(x / 2, k - 1);
      HalvingMod(x, Pow2(k - 1));
    }
  }

  /** The low k bits of an exclusive or depend only on the low k bits of its
      operands. */
  lemma {:induction false} XorLow(x: nat, y: nat, k: nat)
    ensures Low(Xor(x, y), k) == Xor(Low(x, k), Low(y, k))
  {
    if k > 0 {
      var lx, ly := Low(x / 2, k - 1), Low(y / 2, k - 1);
      var bit := (x % 2 + y % 2) % 2;
      XorLow(x / 2, y / 2, k - 1);
      XorHalves(x, y, x / 2, y / 2, x % 2, y % 2);
      LowStep(Xor(x, y), Xor(x / 2, y / 2), bit, k);
      XorHalves(Low(x, k), Low(y, k), lx, ly, x % 2, y % 2);
    }
  }

  /** Low for a value given by its half and its low bit. */
  lemma LowStep(z: nat, h: nat, bit: nat, k: nat)
    requires k > 0 && bit < 2 && z == 2 * h + bit
    ensures Low(z, k) == 2 * Low(h, k - 1) + bit
  {
    assert z / 2 == h && z % 2 == bit;
  }

  lemma ParitySum(x: nat, y: nat)
    ensures (x + y) % 2 == (x % 2 + y % 2) % 2
  {
  }

  /** XOR of two numbers given as halves and low bits. */
  lemma XorHalves(a: nat, b: nat, a2: nat, b2: nat, ab: nat, bb: nat)
    requires ab < 2 && bb < 2 && a == 2 * a2 + ab && b == 2 * b2 + bb
    ensures Xor(a, b) == 2 * Xor(a2, b2) + (ab + bb) % 2
  {
    if a == 0 {
      assert a2 == 0 && ab == 0 && (ab + bb) % 2 == bb;
      assert Xor(a, b) == b && Xor(a2, b2) == b2;
    } else if b == 0 {
      assert b2 == 0 && bb == 0 && (ab + bb) % 2 == ab;
      assert Xor(a, b) == a && Xor(a2, b2) == a2;
    } else {
      Halves(a, a2, ab);
      Halves(b, b2, bb);
      ParitySum(a, b);
      var z := Xor(a2, b2);
      assert Xor(a, b) == 2 * z + (a + b) % 2;
    }
  }

  /** A number given as its half and its low bit. */
  lemma Halves(a: nat, a2: nat, ab: nat)
    requires ab < 2 && a == 2 * a2 + ab
    ensures a / 2 == a2 && a % 2 == ab
  {
  }

  /** Reducing modulo a multiple of `m` first does not change the remainder modulo `m`. */
  lemma ModOfMod(a: nat, m: nat, c: nat)
    requires m >= 1 && c >= 1
    ensures (a % (m * c)) % m == a % m
  {
    var M := m * c;
    var q, r := a / M, a % M;
    var t, u := r / m, r % m;
    assert a == M * q + r;
    assert r == m * t + u;
    MulSwap(q, m, c);
    MulSum(m, c * q, t);
    assert a == m * (c * q + t) + u;
    ModOfMultiple(a, m, c * q + t, u);
  }

  /** Adding a multiple of `m` does not change the remainder modulo `m`. */
  lemma ModAddMultiple(m: nat, c: nat, d: nat)
    requires m >= 1
    ensures (m * c + d) % m == d % m
  {
    assert d == m * (d / m) + d % m;
    assert m * c + d == m * (c + d / m) + d % m;
    ModOfMultiple(m * c + d, m, c + d / m, d % m);
  }

  /** The home of a one-byte key in a table of 16 slots: only the byte's low four bits
      matter, because the offset basis ends in the bits 0101 and the prime in 0011. */
  lemma HomeOfByte(key: Key)
    requires |key| == 1
    ensures IsCapacity(16) && Home(key, 16) == (Xor(5, key[0] % 16) * 3) % 16
  {
    SixteenIsCapacity();
    var b := key[0];
    assert key[..0] == [];
    var x := Xor(Offset, b);
    assert Hash(key) == (x * Prime) % TwoTo64;
    assert TwoTo64 == 16 * 0x1000_0000_0000_0000;
    ModOfMod(x * Prime, 16, 0x1000_0000_0000_0000);
    assert Pow2(4) == 16;
    XorLow(Offset, b, 4);
    LowIsMod(x, 4);
    LowIsMod(Offset, 4);
    LowIsMod(b, 4);
    assert Offset % 16 == 5;
    assert x % 16 == Xor(5, b % 16);
    MulMod(x, Prime, 16, 68719476763, 3);
  }

  /** The remainder of a product modulo `m` depends only on the factors' remainders. */
  lemma MulMod(x: nat, y: nat, m: nat, c: nat, d: nat)
    requires m >= 1 && y == m * c + d
    ensures (x * y) % m == ((x % m) * d) % m
  {
    MulModFirst(x, m, c, d);
    MulModSecond(x, m, d);
  }

  /** The multiple of `m` in the second factor drops out of the remainder. */
  lemma MulModFirst(x: nat, m: nat, c: nat, d: nat)
    requires m >= 1
    ensures (x * (m * c + d)) % m == (x * d) % m
  {
    MulSum(x, m * c, d);
    MulSwap(x, m, c);
    ModAddMultiple(m, x * c, x * d);
  }

  /** The multiple of `m` in the first factor drops out of the remainder. */
  lemma MulModSecond(x: nat, m: nat, d: nat)
    requires m >= 1
    ensures (x * d) % m == ((x % m) * d) % m
  {
    var q, r := x / m, x % m;
    assert x == m * q + r;
    MulSum(d, m * q, r);
    MulSwap(d, m, q);
    assert x * d == m * (q * d) + r * d;
    ModAddMultiple(m, q * d, r * d);
  }

  lemma MulSum(x: nat, a: nat, b: nat)
    ensures x * (a + b) == x * a + x * b && (a + b) * x == a * x + b * x
  {
  }

  lemma MulSwap(x: nat, m: nat, c: nat)
    ensures x * (m * c) == m * (x * c) && (m * c) * x == m * (c * x)
  {
  }

  /** `key_index`: hashes the key byte by byte, then masks the hash with capacity - 1. */
  method KeyIndex(key: Key, capacity: nat) returns (index: nat)
    requires IsCapacity(capacity)
    ensures index == Home(key, capacity)
    ensures index < capacity
  {
    var hash := Offset;
    for i := 0 to |key|
      invariant hash == Hash(key[..i])
    {
      assert key[..i + 1][..i] == key[..i];
      hash := Xor(hash, key[i]);
      hash := (hash * Prime) % TwoTo64;
    }
    assert key[..|key|] == key;
    index := And(hash, capacity - 1);
  }
}
