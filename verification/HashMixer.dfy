/** The hash of `collector.c`: a 64-bit mixer followed by a mask.
    Bits are handled arithmetically: `x >> 33` is `x / 2^33`, `x & (2^k - 1)` is `x % 2^k`,
    and exclusive-or is defined bit by bit. */
module HashMixer {
  import opened Words

  const HASH_SIZE: nat := 65536
  const SHIFT: int := 0x2_0000_0000  // 2^33
  const KEPT: int := 0x8000_0000     // 2^31, the weight of the lowest bit that the shift leaves alone
  const MUL1: int := 0xff51_afd7_ed55_8ccd
  const MUL2: int := 0xc4ce_b9fe_1a85_ec53
  const INV1: int := 0x4f74_430c_22a5_4005
  const INV2: int := 0x9cb4_b2f8_1293_37db

  function Xor(a: nat, b: nat): nat
    decreases a + b
  {
    if a == 0 && b == 0 then 0
    else 2 * Xor(a / 2, b / 2) + (a % 2 + b % 2) % 2
  }

  function Pow2(k: nat): (r: int)
    ensures r > 0
  {
    if k == 0 then 1 else 2 * Pow2(k - 1)
  }

  /** The defining equation, bit by bit; it also holds for two zeros. */
  lemma XorBits(a: nat, b: nat)
    ensures Xor(a, b) / 2 == Xor(a / 2, b / 2) && Xor(a, b) % 2 == (a % 2 + b % 2) % 2
  {
    if a == 0 && b == 0 {
      assert Xor(0, 0) == 0;
    } else {
      DivUnique(Xor(a, b), 2, Xor(a / 2, b / 2), (a % 2 + b % 2) % 2);
    }
  }

  lemma BitCancels(x: int, y: int)
    requires 0 <= x < 2 && 0 <= y < 2
    ensures ((x + y) % 2 + y) % 2 == x
  {
  }

  lemma SameHalves(x: nat, y: nat)
    requires x / 2 == y / 2 && x % 2 == y % 2
    ensures x == y
  {
  }

  lemma {:induction false} XorCancels(a: nat, b: nat)
    ensures Xor(Xor(a, b), b) == a
    decreases a + b
  {
    if a == 0 && b == 0 {
      assert Xor(0, 0) == 0;
    } else {
      var x := Xor(a, b);
      XorBits(a, b);
      XorBits(x, b);
      BitCancels(a % 2, b % 2);
      XorCancels(a / 2, b / 2);
      SameHalves(Xor(x, b), a);
    }
  }

  lemma {:induction false} XorZero(a: nat)
    ensures Xor(a, 0) == a
  {
    if a != 0 {
      XorZero(a / 2);
    }
  }

  /** Above bit `k` the exclusive-or with a number below `2^k` changes nothing. */
  lemma {:induction false} XorHighBits(a: nat, b: nat, k: nat)
    requires b < Pow2(k)
    ensures Xor(a, b) / Pow2(k) == a / Pow2(k)
    decreases k
  {
    if k == 0 {
      XorZero(a);
    } else {
      HalfBelow(b, Pow2(k - 1));
      XorHighBits(a / 2, b / 2, k - 1);
      XorBits(a, b);
      HalfThen(Xor(a, b), k - 1);
      HalfThen(a, k - 1);
    }
  }

  lemma HalfBelow(x: nat, p: int)
    requires x < 2 * p
    ensures x / 2 < p
  {
  }

  lemma HalfThen(x: nat, k: nat)
    ensures x / (2 * Pow2(k)) == (x / 2) / Pow2(k)
  {
    var p := Pow2(k);
    var q := (x / 2) / p;
    var r := (x / 2) % p;
    assert x / 2 == q * p + r;
    assert x == q * (2 * p) + (2 * r + x % 2);
    DivUnique(x, 2 * p, q, 2 * r + x % 2);
  }

  function XorShift(h: u64): (r: u64) {
    XorShiftHigh(h);
    Xor(h, h / SHIFT)
  }

  lemma Pow31()
    ensures Pow2(31) == KEPT
  {
    assert Pow2(8) == 256;
    assert Pow2(16) == 65536;
    assert Pow2(24) == 0x100_0000;
  }

  /** A shift-xor keeps the bits from bit 31 up, so it stays a 64-bit word and keeps its top 31 bits. */
  lemma XorShiftHigh(h: u64)
    ensures var x := Xor(h, h / SHIFT); x < TWO64 && x / SHIFT == h / SHIFT
  {
    Pow31();
    XorHighBits(h, h / SHIFT, 31);
  }

  function Scale(h: u64, m: int): (r: u64) {
    Wrap64(h * m)
  }

  /** One round of the mixer: fold the high bits down, then multiply by an odd constant. */
  function Round(h: u64, m: int): (r: u64) {
    Scale(XorShift(h), m)
  }

  function Unround(h: u64, inv: int): (r: u64) {
    XorShift(Scale(h, inv))
  }

  function Mix(h: u64): (r: u64) {
    XorShift(Round(Round(h, MUL1), MUL2))
  }

  function Unmix(h: u64): (r: u64) {
    Unround(Unround(XorShift(h), INV2), INV1)
  }

  function AllocHash(addr: u64): (r: u32)
    ensures r < HASH_SIZE
  {
    Mix(addr) % HASH_SIZE
  }

  lemma XorShiftInvolution(h: u64)
    ensures XorShift(XorShift(h)) == h
  {
    XorShiftHigh(h);
    XorCancels(h, h / SHIFT);
  }

  lemma ScaleInverse(h: u64, m: int, inv: int)
    requires (m * inv) % TWO64 == 1
    ensures Scale(Scale(h, m), inv) == h
  {
    var q, k := h * m / TWO64, m * inv / TWO64;
    var r := Scale(h, m);
    assert h * m == q * TWO64 + r;
    assert m * inv == k * TWO64 + 1;
    calc {
      r * inv;
      (h * m - q * TWO64) * inv;
      h * (m * inv) - (q * inv) * TWO64;
      h * (k * TWO64 + 1) - (q * inv) * TWO64;
      (h * k - q * inv) * TWO64 + h;
    }
    DivUnique(r * inv, TWO64, h * k - q * inv, h);
  }

  lemma RoundInverse(h: u64, m: int, inv: int)
    requires (m * inv) % TWO64 == 1
    ensures Unround(Round(h, m), inv) == h && Round(Unround(h, inv), m) == h
  {
    XorShiftInvolution(h);
    XorShiftInvolution(Scale(h, inv));
    ScaleInverse(XorShift(h), m, inv);
    ScaleInverse(h, inv, m);
  }

  lemma RoundsInverse(h: u64, m1: int, inv1: int, m2: int, inv2: int)
    requires (m1 * inv1) % TWO64 == 1 && (m2 * inv2) % TWO64 == 1
    ensures Unround(Unround(Round(Round(h, m1), m2), inv2), inv1) == h
    ensures Round(Round(Unround(Unround(h, inv2), inv1), m1), m2) == h
  {
    RoundInverse(h, m1, inv1);
    RoundInverse(Round(h, m1), m2, inv2);
    RoundInverse(h, m2, inv2);
    RoundInverse(Unround(h, inv2), m1, inv1);
  }

  lemma InverseConstants()
    ensures (MUL1 * INV1) % TWO64 == 1 && (MUL2 * INV2) % TWO64 == 1
  {
  }

  /** The mixer is a bijection of the 64-bit words: `Unmix` inverts it on both sides. */
  lemma MixBijective(h: u64)
    ensures Unmix(Mix(h)) == h && Mix(Unmix(h)) == h
  {
    InverseConstants();
    RoundsInverse(h, MUL1, INV1, MUL2, INV2);
    XorShiftInvolution(Round(Round(h, MUL1), MUL2));
    RoundsInverse(XorShift(h), MUL1, INV1, MUL2, INV2);
    XorShiftInvolution(h);
  }

  /** Two addresses collide only through the final mask: the discarded high part tells them apart. */
  lemma CollisionsComeFromMask(x: u64, y: u64)
    ensures x == y <==> AllocHash(x) == AllocHash(y) && Mix(x) / HASH_SIZE == Mix(y) / HASH_SIZE
  {
    MixBijective(x);
    MixBijective(y);
  }
}
