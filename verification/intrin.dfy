/** The predicated lane engine the vector kernels are written against: vector
    registers of W lanes, masks of W booleans, and masked operations.

    Every masked operation follows one rule, `Masked`: an active lane takes
    the computed value, an inactive lane keeps what the destination held.
    Float lanes are modelled as reals and integer lanes as unbounded ints. */
module Intrin {

  /** One boolean per lane. */
  type Mask = seq<bool>

  // ---------------------------------------------------------------------------
  // Masks
  // ---------------------------------------------------------------------------

  /** `_cmu418_init_ones(first)`: the first `first` lanes set, the rest clear;
      `first = W` gives all ones and `first = 0` all zeros. */
  function InitOnes(w: nat, first: int): (m: Mask)
    ensures |m| == w
    ensures first >= w ==> forall k :: 0 <= k < w ==> m[k]
    ensures first <= 0 ==> forall k :: 0 <= k < w ==> !m[k]
  {
    seq(w, k => k < first)
  }

  /** `_cmu418_mask_not`. */
  function MaskNot(m: Mask): (r: Mask)
    ensures |r| == |m|
  {
    seq(|m|, k requires 0 <= k < |m| => !m[k])
  }

  /** `_cmu418_cntbits`: the number of set lanes. */
  function CntBits(m: Mask): nat
  {
    if |m| == 0 then 0 else CntBits(m[..|m| - 1]) + (if m[|m| - 1] then 1 else 0)
  }

  /** A mask has no set lane exactly when its count is zero. */
  lemma {:induction false} CntBitsZero(m: Mask)
    ensures CntBits(m) == 0 <==> forall k :: 0 <= k < |m| ==> !m[k]
  {
    if |m| > 0 {
      var init := m[..|m| - 1];
      CntBitsZero(init);
      assert forall k :: 0 <= k < |init| ==> init[k] == m[k];
    }
  }

  /** The set lanes of a mask and of its complement together are all lanes. */
  lemma {:induction false} CntBitsComplement(m: Mask)
    ensures CntBits(m) + CntBits(MaskNot(m)) == |m|
  {
    if |m| > 0 {
      var init := m[..|m| - 1];
      CntBitsComplement(init);
      assert MaskNot(m)[..|m| - 1] == MaskNot(init);
    }
  }

  // ---------------------------------------------------------------------------
  // Masked lane operations
  // ---------------------------------------------------------------------------

  /** The rule of every masked operation: lane k takes val[k] when mask[k] is
      set and keeps dst[k] otherwise. */
  function Masked<T>(dst: seq<T>, val: seq<T>, mask: Mask): (r: seq<T>)
    requires |val| == |dst| && |mask| == |dst|
    ensures |r| == |dst|
  {
    seq(|dst|, k requires 0 <= k < |dst| => if mask[k] then val[k] else dst[k])
  }

  /** Two masked writes under complementary masks assign every lane exactly
      once, so the destination's previous contents do not matter. */
  lemma ComplementCover<T>(dst: seq<T>, a: seq<T>, b: seq<T>, m: Mask)
    requires |a| == |dst| && |b| == |dst| && |m| == |dst|
    ensures forall k :: 0 <= k < |dst| ==>
      Masked(Masked(dst, a, m), b, MaskNot(m))[k] == if m[k] then a[k] else b[k]
  {
  }

  /** `_cmu418_vset_float(v)` / `_cmu418_vset_int(v)`: every lane set to v. */
  function VSet<T>(w: nat, v: T): (r: seq<T>)
    ensures |r| == w
  {
    seq(w, _ => v)
  }

  /** `_cmu418_vset_float(dst, v, mask)`: v in the active lanes. */
  function VSetMasked<T>(dst: seq<T>, v: T, mask: Mask): (r: seq<T>)
    requires |mask| == |dst|
    ensures |r| == |dst|
  {
    Masked(dst, VSet(|dst|, v), mask)
  }

  /** `_cmu418_vload_*(dst, src + base, mask)`: lane k takes src[base + k]. */
  function VLoad<T>(dst: seq<T>, src: seq<T>, base: int, mask: Mask): (r: seq<T>)
    requires |mask| == |dst| && 0 <= base && base + |dst| <= |src|
    ensures |r| == |dst|
  {
    Masked(dst, src[base..base + |dst|], mask)
  }

  /** `_cmu418_vstore_*(arr + base, src, mask)`: active lane k is written to
      arr[base + k]; nothing else in arr changes. */
  function VStore<T>(arr: seq<T>, base: int, src: seq<T>, mask: Mask): (r: seq<T>)
    requires |mask| == |src| && 0 <= base && base + |src| <= |arr|
    ensures |r| == |arr|
    ensures forall k :: 0 <= k < |arr| ==>
      r[k] == if base <= k < base + |src| && mask[k - base] then src[k - base] else arr[k]
  {
    arr[..base] + Masked(arr[base..base + |src|], src, mask) + arr[base + |src|..]
  }

  /** `_cmu418_vmove_*`. */
  function VMove<T>(dst: seq<T>, src: seq<T>, mask: Mask): (r: seq<T>)
    requires |src| == |dst| && |mask| == |dst|
    ensures |r| == |dst|
  {
    Masked(dst, src, mask)
  }

  /** `_cmu418_vsub_float`: a - b in the active lanes. */
  function VSubFloat(dst: seq<real>, a: seq<real>, b: seq<real>, mask: Mask): (r: seq<real>)
    requires |a| == |dst| && |b| == |dst| && |mask| == |dst|
    ensures |r| == |dst|
  {
    Masked(dst, seq(|dst|, k requires 0 <= k < |dst| => a[k] - b[k]), mask)
  }

  /** `_cmu418_vmult_float`: a * b in the active lanes. */
  function VMultFloat(dst: seq<real>, a: seq<real>, b: seq<real>, mask: Mask): (r: seq<real>)
    requires |a| == |dst| && |b| == |dst| && |mask| == |dst|
    ensures |r| == |dst|
  {
    Masked(dst, seq(|dst|, k requires 0 <= k < |dst| => a[k] * b[k]), mask)
  }

  /** `_cmu418_vbitand_int`: a & b in the active lanes. */
  function VBitAndInt(dst: seq<int>, a: seq<int>, b: seq<int>, mask: Mask): (r: seq<int>)
    requires |a| == |dst| && |b| == |dst| && |mask| == |dst|
    ensures |r| == |dst|
  {
    Masked(dst, seq(|dst|, k requires 0 <= k < |dst| => BitAnd(a[k], b[k])), mask)
  }

  /** `_cmu418_vshiftright_int`: a >> b in the active lanes. */
  function VShiftRightInt(dst: seq<int>, a: seq<int>, b: seq<int>, mask: Mask): (r: seq<int>)
    requires |a| == |dst| && |b| == |dst| && |mask| == |dst|
    ensures |r| == |dst|
  {
    Masked(dst, seq(|dst|, k requires 0 <= k < |dst| => ShiftRight(a[k], b[k])), mask)
  }

  /** `_cmu418_vlt_float`: the active lanes of the result mask record a < b. */
  function VLtFloat(dst: Mask, a: seq<real>, b: seq<real>, mask: Mask): (r: Mask)
    requires |a| == |dst| && |b| == |dst| && |mask| == |dst|
    ensures |r| == |dst|
  {
    Masked(dst, seq(|dst|, k requires 0 <= k < |dst| => a[k] < b[k]), mask)
  }

  /** `_cmu418_vgt_float`: the active lanes of the result mask record a > b. */
  function VGtFloat(dst: Mask, a: seq<real>, b: seq<real>, mask: Mask): (r: Mask)
    requires |a| == |dst| && |b| == |dst| && |mask| == |dst|
    ensures |r| == |dst|
  {
    Masked(dst, seq(|dst|, k requires 0 <= k < |dst| => a[k] > b[k]), mask)
  }

  /** `_cmu418_vgt_int`: the active lanes of the result mask record a > b. */
  function VGtInt(dst: Mask, a: seq<int>, b: seq<int>, mask: Mask): (r: Mask)
    requires |a| == |dst| && |b| == |dst| && |mask| == |dst|
    ensures |r| == |dst|
  {
    Masked(dst, seq(|dst|, k requires 0 <= k < |dst| => a[k] > b[k]), mask)
  }

  // ---------------------------------------------------------------------------
  // Integer lane arithmetic
  // ---------------------------------------------------------------------------

  function Abs(x: int): nat
  {
    if x < 0 then -x else x
  }

  /** Halving (rounding toward minus infinity) shrinks every integer other
      than 0 and -1, and fixes those two. */
  lemma HalfShrinks(x: int)
    ensures x == 0 || x == -1 ==> x / 2 == x
    ensures x != 0 && x != -1 ==> Abs(x / 2) < Abs(x)
  {
  }

  /** `x & y` on two's-complement integers: bit 0 is x % 2 AND y % 2, and the
      higher bits are those of x / 2 and y / 2. 0 has no bit set and -1 all. */
  function BitAnd(x: int, y: int): int
    decreases Abs(x) + Abs(y)
  {
    if (x == 0 || x == -1) && (y == 0 || y == -1) then
      (if x == -1 && y == -1 then -1 else 0)
    else
      HalfShrinks(x);
      HalfShrinks(y);
      2 * BitAnd(x / 2, y / 2) + (if x % 2 == 1 && y % 2 == 1 then 1 else 0)
  }

  /** Masking with 0 clears every bit. */
  lemma {:induction false} BitAndZero(x: int)
    ensures BitAnd(x, 0) == 0
    decreases Abs(x)
  {
    if x != 0 && x != -1 {
      HalfShrinks(x);
      BitAndZero(x / 2);
    }
  }

  /** `y & 1` is the low bit of y: 0 for even y and 1 for odd y, negative or not. */
  lemma BitAndOne(y: int)
    ensures BitAnd(y, 1) == y % 2
  {
    BitAndZero(y / 2);
  }

  /** `x >> s`: arithmetic shift, halving s times rounding toward minus
      infinity. A shift by a negative amount leaves x as it is. */
  function ShiftRight(x: int, s: int): int
    decreases s
  {
    if s <= 0 then x else ShiftRight(x / 2, s - 1)
  }
}
