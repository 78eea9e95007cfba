/**
  32-bit unsigned arithmetic as it is on the machine: wrap-around addition, and bitwise
  operations defined bit by bit, with what they compute on CIDR prefix masks (RFC 4632,
  section 3.1).
 */
module Uint32 {

  const MODULUS: int := 0x1_0000_0000
  const MAX: u32 := 0xffff_ffff

  type u32 = x: int | 0 <= x < 0x1_0000_0000

  function Add(a: u32, b: u32): u32 {
    (a + b) % MODULUS
  }

  lemma AddOne(a: u32)
    ensures Add(a, 1) == if a == MAX then 0 else a + 1
  {
  }

  function BitAnd(a: nat, b: nat): nat {
    if a == 0 || b == 0 then 0
    else (if a % 2 == 1 && b % 2 == 1 then 1 else 0) + 2 * BitAnd(a / 2, b / 2)
  }

  function BitOr(a: nat, b: nat): nat {
    if a == 0 then b else if b == 0 then a
    else (if a % 2 == 1 || b % 2 == 1 then 1 else 0) + 2 * BitOr(a / 2, b / 2)
  }

  function BitXor(a: nat, b: nat): nat {
    if a == 0 then b else if b == 0 then a
    else (if a % 2 != b % 2 then 1 else 0) + 2 * BitXor(a / 2, b / 2)
  }

  function Pow2(n: nat): (p: nat)
    ensures p >= 1
  {
    if n == 0 then 1 else 2 * Pow2(n - 1)
  }

  lemma {:induction false} Pow2Monotone(m: nat, n: nat)
    requires m <= n
    ensures Pow2(m) <= Pow2(n)
  {
    if m < n {
      Pow2Monotone(m, n - 1);
    }
  }

  lemma Pow2Of32()
    ensures Pow2(32) == MODULUS
  {
    assert Pow2(8) == 256;
    assert Pow2(16) == 0x1_0000;
    assert Pow2(24) == 0x100_0000;
    assert Pow2(32) == MODULUS;
  }

  /** None of the bitwise operations leaves `w` bits. */
  lemma {:induction false} BitwiseStaysInWidth(a: nat, b: nat, w: nat)
    requires a < Pow2(w) && b < Pow2(w)
    ensures BitAnd(a, b) < Pow2(w) && BitOr(a, b) < Pow2(w) && BitXor(a, b) < Pow2(w)
    decreases w
  {
    if w > 0 {
      BitwiseStaysInWidth(a / 2, b / 2, w - 1);
    }
  }

  /** `x` with its `k` lowest bits cleared. */
  function ClearLow(x: nat, k: nat): (r: nat)
    ensures r <= x < r + Pow2(k)
  {
    if k == 0 then x else 2 * ClearLow(x / 2, k - 1)
  }

  /** A mask of `w - k` ones followed by `k` zeros. */
  function PrefixMask(w: nat, k: nat): nat
    requires k <= w
  {
    Pow2Monotone(k, w);
    Pow2(w) - Pow2(k)
  }

  /** The operations work bit by bit, zero operands included. */
  lemma BitByBit(a: nat, p: nat, b: nat, q: nat)
    requires p < 2 && q < 2
    ensures BitAnd(2 * a + p, 2 * b + q) == (if p == q == 1 then 1 else 0) + 2 * BitAnd(a, b)
    ensures BitOr(2 * a + p, 2 * b + q) == (if p == q == 0 then 0 else 1) + 2 * BitOr(a, b)
    ensures BitXor(2 * a + p, 2 * b + q) == (if p != q then 1 else 0) + 2 * BitXor(a, b)
  {
    Halves(a, p);
    Halves(b, q);
  }

  lemma Halves(a: nat, p: nat)
    requires p < 2
    ensures (2 * a + p) / 2 == a && (2 * a + p) % 2 == p
  {
  }

  lemma WithZero(a: nat)
    ensures BitAnd(a, 0) == 0 && BitOr(a, 0) == a && BitXor(a, 0) == a
  {
  }

  lemma PrefixMaskStep(w: nat, k: nat)
    requires k <= w && w > 0
    ensures k == 0 ==> PrefixMask(w, 0) == 2 * PrefixMask(w - 1, 0) + 1
    ensures k > 0 ==> PrefixMask(w, k) == 2 * PrefixMask(w - 1, k - 1)
  {
  }

  lemma {:induction false} AndPrefixMask(x: nat, w: nat, k: nat)
    requires k <= w && x < Pow2(w)
    ensures BitAnd(x, PrefixMask(w, k)) == ClearLow(x, k)
    decreases w
  {
    hide BitAnd, PrefixMask;
    if w > 0 {
      PrefixMaskStep(w, k);
      if k == 0 {
        AndPrefixMask(x / 2, w - 1, 0);
        BitByBit(x / 2, x % 2, PrefixMask(w - 1, 0), 1);
      } else {
        AndPrefixMask(x / 2, w - 1, k - 1);
        BitByBit(x / 2, x % 2, PrefixMask(w - 1, k - 1), 0);
      }
    } else {
      WithZero(x);
      EmptyMask();
    }
  }

  lemma EmptyMask()
    ensures PrefixMask(0, 0) == 0
  {
  }

  lemma {:induction false} XorPrefixMask(w: nat, k: nat)
    requires k <= w
    ensures BitXor(PrefixMask(w, k), Pow2(w) - 1) == Pow2(k) - 1
  {
    hide BitXor, PrefixMask;
    if w > 0 {
      PrefixMaskStep(w, k);
      assert Pow2(w) - 1 == 2 * (Pow2(w - 1) - 1) + 1;
      if k == 0 {
        XorPrefixMask(w - 1, 0);
        BitByBit(PrefixMask(w - 1, 0), 1, Pow2(w - 1) - 1, 1);
      } else {
        XorPrefixMask(w - 1, k - 1);
        BitByBit(PrefixMask(w - 1, k - 1), 0, Pow2(w - 1) - 1, 1);
      }
    } else {
      EmptyMask();
      WithZero(0);
    }
  }

  lemma {:induction false} OrBelowCleared(x: nat, k: nat)
    ensures BitOr(ClearLow(x, k), Pow2(k) - 1) == ClearLow(x, k) + Pow2(k) - 1
    decreases k
  {
    hide BitOr;
    if k > 0 {
      OrBelowCleared(x / 2, k - 1);
      BitByBit(ClearLow(x / 2, k - 1), 0, Pow2(k - 1) - 1, 1);
      assert Pow2(k) - 1 == 2 * (Pow2(k - 1) - 1) + 1;
    } else {
      WithZero(x);
    }
  }

  /** A multiple of 2^k: its `k` lowest bits are clear. */
  predicate Aligned(x: nat, k: nat) {
    ClearLow(x, k) == x
  }

  lemma {:induction false} AlignedIffMultiple(x: nat, k: nat)
    ensures Aligned(x, k) <==> exists q: nat :: x == q * Pow2(k)
  {
    if k == 0 {
      assert x == x * Pow2(0);
    } else {
      var p := Pow2(k - 1);
      AlignedIffMultiple(x / 2, k - 1);
      if Aligned(x, k) {
        var q: nat :| x / 2 == q * p;
        assert x == q * Pow2(k);
      }
      if q: nat :| x == q * Pow2(k) {
        assert x == 2 * (q * p);
        assert x / 2 == q * p;
      }
    }
  }

  /** Clearing the host bits of an address inside an aligned block gives the block's base. */
  lemma {:induction false} ClearLowInBlock(base: nat, k: nat, d: nat)
    requires Aligned(base, k) && d < Pow2(k)
    ensures ClearLow(base + d, k) == base
    decreases k
  {
    if k > 0 {
      ClearLowInBlock(base / 2, k - 1, d / 2);
      assert (base + d) / 2 == base / 2 + d / 2;
    }
  }

  /** The block an address lies in starts at a multiple of the block size. */
  lemma {:induction false} ClearLowIsAligned(x: nat, k: nat)
    ensures Aligned(ClearLow(x, k), k)
  {
    if k > 0 {
      ClearLowIsAligned(x / 2, k - 1);
    }
  }

  /** `k` low bits cleared, the next address has the same block or begins the one after it. */
  lemma {:induction false} NextInBlock(x: nat, k: nat)
    ensures var base := ClearLow(x, k);
            ClearLow(x + 1, k) == if x == base + Pow2(k) - 1 then base + Pow2(k) else base
    decreases k
  {
    if k > 0 {
      NextInBlock(x / 2, k - 1);
      var p := ClearLow(x / 2, k - 1);
      assert Pow2(k) == 2 * Pow2(k - 1);
    }
  }

  lemma {:induction false} BlockFits(x: nat, k: nat, w: nat)
    requires k <= w && x < Pow2(w)
    ensures ClearLow(x, k) + Pow2(k) <= Pow2(w)
    ensures k == w ==> ClearLow(x, k) == 0
    decreases k
  {
    if k > 0 {
      BlockFits(x / 2, k - 1, w - 1);
    }
  }

  lemma {:induction false} ClearLowOfZero(k: nat)
    ensures ClearLow(0, k) == 0
  {
    if k > 0 {
      ClearLowOfZero(k - 1);
    }
  }

  /** Unless it is the whole address space, the highest block is not the lowest. */
  lemma BlockIsNotFirst(k: nat)
    requires k < 32
    ensures Pow2(k) - 1 <= ClearLow(MAX, k)
  {
    Pow2Monotone(k + 1, 32);
    Pow2Of32();
    BlockFits(MAX, k, 32);
    assert Pow2(k + 1) == 2 * Pow2(k);
  }

  // ---------- Bit by bit ----------

  /** Bit `j`, counted from the lowest. */
  function Bit(x: nat, j: nat): nat {
    if j == 0 then x % 2 else Bit(x / 2, j - 1)
  }

  lemma {:induction false} BitIsBinary(x: nat, j: nat)
    ensures Bit(x, j) == 0 || Bit(x, j) == 1
  {
    if j > 0 {
      BitIsBinary(x / 2, j - 1);
    }
  }

  /** Each operation computes each bit of its result from that bit of its operands. */
  lemma {:induction false} BitOfResult(a: nat, b: nat, j: nat)
    ensures Bit(BitAnd(a, b), j) == if Bit(a, j) == 1 && Bit(b, j) == 1 then 1 else 0
    ensures Bit(BitOr(a, b), j) == if Bit(a, j) == 1 || Bit(b, j) == 1 then 1 else 0
    ensures Bit(BitXor(a, b), j) == if Bit(a, j) != Bit(b, j) then 1 else 0
    decreases j
  {
    hide BitAnd, BitOr, BitXor;
    BitByBit(a / 2, a % 2, b / 2, b % 2);
    if j > 0 {
      BitOfResult(a / 2, b / 2, j - 1);
      Halves(BitAnd(a / 2, b / 2), if a % 2 == b % 2 == 1 then 1 else 0);
      Halves(BitOr(a / 2, b / 2), if a % 2 == b % 2 == 0 then 0 else 1);
      Halves(BitXor(a / 2, b / 2), if a % 2 != b % 2 then 1 else 0);
    }
  }

  lemma {:induction false} BitOfAllOnes(w: nat, j: nat)
    requires j < w
    ensures Bit(Pow2(w) - 1, j) == 1
    decreases j
  {
    assert Pow2(w) - 1 == 2 * (Pow2(w - 1) - 1) + 1;
    if j > 0 {
      BitOfAllOnes(w - 1, j - 1);
    }
  }

  /** A prefix mask has zeros in its `k` lowest bits and ones above. */
  lemma {:induction false} BitOfPrefixMask(w: nat, k: nat, j: nat)
    requires k <= w && j < w
    ensures Bit(PrefixMask(w, k), j) == if j < k then 0 else 1
    decreases j
  {
    PrefixMaskStep(w, k);
    if j > 0 {
      BitOfPrefixMask(w - 1, if k == 0 then 0 else k - 1, j - 1);
    }
  }
}
