/** The kernels of the vector-intrinsics program: absolute value, clamped
    exponentiation and array sum, each as the serial loop and (for the first
    two) its lane-engine twin.

    Arrays are sequences of reals (floats) and ints; a kernel returns the
    updated output sequence. A pointer offset such as `values + N_vec` is a
    `base` index. */
module Functions {
  import opened Arith
  import opened Intrin

  // ---------------------------------------------------------------------------
  // Absolute value
  // ---------------------------------------------------------------------------

  /** The per-element result of `absSerial`: the non-negative one of x and -x. */
  function AbsOf(x: real): (r: real)
    ensures r >= 0.0 && (r == x || r == -x)
  {
    if x < 0.0 then -x else x
  }

  /** `absSerial`: output[i] = |values[i]| for i < n. */
  method AbsSerial(values: seq<real>, output: seq<real>, n: nat) returns (out: seq<real>)
    requires n <= |values| && n <= |output|
    ensures |out| == |output|
    ensures forall k :: 0 <= k < n ==> out[k] >= 0.0 && (out[k] == values[k] || out[k] == -values[k])
    ensures forall k :: 0 <= k < n ==> out[k] == AbsOf(values[k])
    ensures forall k :: n <= k < |out| ==> out[k] == output[k]
  {
    out := output;
    var i := 0;
    while i < n
      invariant 0 <= i <= n && |out| == |output|
      invariant forall k :: 0 <= k < i ==> out[k] == AbsOf(values[k])
      invariant forall k :: i <= k < |out| ==> out[k] == output[k]
    {
      var x := values[i];
      if x < 0.0 {
        out := out[i := -x];
      } else {
        out := out[i := x];
      }
      i := i + 1;
    }
  }

  /** Chunk c starts at i = c*w; when i < n = q*w the whole chunk [i, i+w) lies below n. */
  lemma ChunkFits(i: int, c: int, n: int, q: int, w: int)
    requires w >= 1 && i == c * w && n == q * w && i < n
    ensures c + 1 <= q && i + w == (c + 1) * w && i + w <= n
  {
    assert (q - c) * w > 0;
    assert q - c > 0;
    MulMono(c + 1, q, w);
  }

  /** One chunk of `absVector`: lane k of the stored result is |x[k]|. */
  lemma AbsChunk(x: seq<real>, result: seq<real>, zero: seq<real>, m: Mask)
    requires |result| == |x| && |zero| == |x| && |m| == |x|
    requires forall k :: 0 <= k < |x| ==> zero[k] == 0.0
    requires m == VLtFloat(m, x, zero, InitOnes(|x|, |x|))
    ensures forall k :: 0 <= k < |x| ==>
      Masked(VSubFloat(result, zero, x, m), x, MaskNot(m))[k] == AbsOf(x[k])
  {
    ComplementCover(result, seq(|x|, k requires 0 <= k < |x| => zero[k] - x[k]), x, m);
  }

  /** `absVector`: W lanes at a time, the if/else turned into a mask and its
      complement. Only correct when n is a multiple of W, as the source notes;
      then it agrees with `absSerial` on every element. */
  method AbsVector(w: nat, values: seq<real>, output: seq<real>, n: nat) returns (out: seq<real>)
    requires w >= 1 && n % w == 0
    requires n <= |values| && n <= |output|
    ensures |out| == |output|
    ensures forall k :: 0 <= k < n ==> out[k] == AbsOf(values[k])
    ensures forall k :: n <= k < |out| ==> out[k] == output[k]
  {
    // Registers the source declares without initialising; every lane is
    // written before it is read.
    var x := VSet(w, 0.0);
    var result := VSet(w, 0.0);
    var zero := VSet(w, 0.0);
    DivMod(n, w);
    out := output;
    var i := 0;
    ghost var c := 0;
    while i < n
      invariant 0 <= i <= n && i == c * w
      invariant |out| == |output| && |x| == w && |result| == w
      invariant forall k :: 0 <= k < i ==> out[k] == AbsOf(values[k])
      invariant forall k :: i <= k < |out| ==> out[k] == output[k]
    {
      ChunkFits(i, c, n, n / w, w);
      var maskAll := InitOnes(w, w);
      var maskIsNegative := InitOnes(w, 0);
      x := VLoad(x, values, i, maskAll);
      maskIsNegative := VLtFloat(maskIsNegative, x, zero, maskAll);
      result := VSubFloat(result, zero, x, maskIsNegative);
      var maskIsNotNegative := MaskNot(maskIsNegative);
      AbsChunk(x, result, zero, maskIsNegative);
      result := VLoad(result, values, i, maskIsNotNegative);
      assert x == values[i..i + w];
      out := VStore(out, i, result, maskAll);
      i := i + w;
      c := c + 1;
    }
  }

  // ---------------------------------------------------------------------------
  // Clamped exponentiation
  // ---------------------------------------------------------------------------

  /** The ceiling every clamped result is capped at. */
  const ClampCeiling: real := 4.18

  /** `if (result > 4.18) result = 4.18`. */
  function Clamp(v: real): (r: real)
    ensures r <= ClampCeiling
    ensures v <= ClampCeiling ==> r == v
    ensures v > ClampCeiling ==> r == ClampCeiling
  {
    if v > ClampCeiling then ClampCeiling else v
  }

  /** The variables of the squaring loop. */
  datatype ExpState = ExpState(result: real, xpower: real, y: int)

  /** One pass of the squaring loop's body:
      `if (y & 1) result *= xpower; xpower *= xpower; y >>= 1`. */
  function ExpStep(s: ExpState): ExpState
  {
    ExpState(if BitAnd(s.y, 1) != 0 then s.result * s.xpower else s.result,
             s.xpower * s.xpower,
             ShiftRight(s.y, 1))
  }

  /** The squaring loop `while (y > 0) { ... }` of `clampedExpSerial`. */
  function ExpLoop(s: ExpState): ExpState
    decreases s.y
  {
    if s.y > 0 then ExpLoop(ExpStep(s)) else s
  }

  /** The per-element result of `clampedExpSerial`. */
  function ClampedExp(x: real, e: int): real
  {
    Clamp(ExpLoop(ExpState(1.0, x, e)).result)
  }

  /** x raised to the natural power e. */
  function Pow(x: real, e: nat): real
  {
    if e == 0 then 1.0 else x * Pow(x, e - 1)
  }

  lemma {:induction false} PowSquare(p: real, m: nat)
    ensures Pow(p * p, m) == Pow(p, 2 * m)
  {
    if m > 0 {
      PowSquare(p, m - 1);
      assert Pow(p, 2 * m) == p * (p * Pow(p, 2 * m - 2));
    }
  }

  /** Taking out the low bit of y: r * p^y is the next result times p^(2*(y/2)). */
  lemma PowLowBit(r: real, p: real, y: nat)
    ensures (if y % 2 == 1 then r * p else r) * Pow(p, 2 * (y / 2)) == r * Pow(p, y)
  {
    var m := y / 2;
    if y % 2 == 1 {
      assert Pow(p, y) == p * Pow(p, 2 * m);
      assert (r * p) * Pow(p, 2 * m) == r * (p * Pow(p, 2 * m));
    } else {
      assert y == 2 * m;
    }
  }

  /** The squaring loop multiplies result by xpower^y: started from result 1
      it computes x^e by repeated squaring. */
  lemma {:induction false} ExpLoopPow(r: real, p: real, y: int)
    requires y >= 0
    ensures ExpLoop(ExpState(r, p, y)).result == r * Pow(p, y)
    decreases y
  {
    if y > 0 {
      var m := y / 2;
      var r' := if y % 2 == 1 then r * p else r;
      BitAndOne(y);
      assert ExpStep(ExpState(r, p, y)) == ExpState(r', p * p, m);
      ExpLoopPow(r', p * p, m);
      PowSquare(p, m);
      PowLowBit(r, p, y);
    }
  }

  /** The value `clampedExpSerial` stores: x^e capped at the ceiling for a
      non-negative exponent, and 1 (the loop does not run) for a negative one. */
  lemma ClampedExpIsPow(x: real, e: int)
    ensures e >= 0 ==> ClampedExp(x, e) == Clamp(Pow(x, e))
    ensures e < 0 ==> ClampedExp(x, e) == 1.0
    ensures ClampedExp(x, e) <= ClampCeiling
  {
    if e >= 0 {
      ExpLoopPow(1.0, x, e);
    }
  }

  /** `clampedExpSerial` on the n elements starting at index base. */
  method ClampedExpSerial(values: seq<real>, exponents: seq<int>, output: seq<real>, base: nat, n: nat)
    returns (out: seq<real>)
    requires base + n <= |values| && base + n <= |exponents| && base + n <= |output|
    ensures |out| == |output|
    ensures forall k :: base <= k < base + n ==> out[k] == ClampedExp(values[k], exponents[k])
    ensures forall k :: base <= k < base + n ==>
      (out[k] <= ClampCeiling && (exponents[k] >= 0 ==> out[k] == Clamp(Pow(values[k], exponents[k]))))
    ensures forall k :: 0 <= k < |out| && !(base <= k < base + n) ==> out[k] == output[k]
  {
    out := output;
    var i := 0;
    while i < n
      invariant 0 <= i <= n && |out| == |output|
      invariant forall k :: base <= k < base + i ==> out[k] == ClampedExp(values[k], exponents[k])
      invariant forall k :: 0 <= k < |out| && !(base <= k < base + i) ==> out[k] == output[k]
    {
      var x := values[base + i];
      var result := 1.0;
      var y := exponents[base + i];
      var xpower := x;
      while y > 0
        invariant ExpLoop(ExpState(result, xpower, y)) == ExpLoop(ExpState(1.0, x, exponents[base + i]))
        decreases y
      {
        ghost var before := ExpState(result, xpower, y);
        if BitAnd(y, 1) != 0 {
          result := result * xpower;
        }
        xpower := xpower * xpower;
        y := ShiftRight(y, 1);
        assert ExpState(result, xpower, y) == ExpStep(before);
      }
      if result > ClampCeiling {
        result := ClampCeiling;
      }
      out := out[base + i := result];
      i := i + 1;
    }
    forall k | base <= k < base + n
      ensures out[k] <= ClampCeiling && (exponents[k] >= 0 ==> out[k] == Clamp(Pow(values[k], exponents[k])))
    {
      ClampedExpIsPow(values[k], exponents[k]);
    }
  }

  /** A lane whose exponent is already 0 is a no-op on result and y, and a
      lane still running takes one step of its own loop: either way the
      lane's eventual result is unchanged. */
  lemma StepKeepsOutcome(s: ExpState)
    requires s.y >= 0
    ensures ExpStep(s).y >= 0
    ensures s.y == 0 ==> ExpStep(s).y == 0 && ExpStep(s).result == s.result
    ensures ExpLoop(ExpStep(s)).result == ExpLoop(s).result
  {
    BitAndOne(s.y);
  }

  /** The total outstanding exponent of the running lanes. */
  function Pending(y: seq<int>): nat
  {
    if |y| == 0 then 0 else Pending(y[..|y| - 1]) + (if y[|y| - 1] > 0 then y[|y| - 1] else 0)
  }

  /** Halving every lane, with at least one lane positive, lowers the total. */
  lemma {:induction false} PendingShrinks(y: seq<int>, y': seq<int>)
    requires |y'| == |y|
    requires forall k :: 0 <= k < |y| ==> y[k] >= 0 && y'[k] == y[k] / 2
    ensures Pending(y') <= Pending(y)
    ensures (exists k :: 0 <= k < |y| && y[k] > 0) ==> Pending(y') < Pending(y)
  {
    if |y| > 0 {
      var n := |y| - 1;
      PendingShrinks(y[..n], y'[..n]);
      if exists k :: 0 <= k < |y| && y[k] > 0 {
        var k :| 0 <= k < |y| && y[k] > 0;
        if k < n {
          assert y[..n][k] > 0;
        }
      }
    }
  }

  /** The lanes' loop states after the lock-step loop has run: lane k holds
      its result, xpower and y. */
  function LaneState(result: seq<real>, xpower: seq<real>, y: seq<int>, k: int): ExpState
    requires 0 <= k < |result| && k < |xpower| && k < |y|
  {
    ExpState(result[k], xpower[k], y[k])
  }

  /** One pass of the lock-step loop body moves every lane, running or
      finished, by exactly one step of its own serial loop. */
  lemma LockStepPass(w: nat, result: seq<real>, xpower: seq<real>, y: seq<int>, bitand: seq<int>, mask: Mask)
    requires |result| == w && |xpower| == w && |y| == w && |bitand| == w && |mask| == w
    ensures var all := InitOnes(w, w);
      var b := VBitAndInt(bitand, y, VSet(w, 1), all);
      var m := VGtInt(mask, b, VSet(w, 0), all);
      var result' := VMultFloat(result, result, xpower, m);
      var xpower' := VMultFloat(xpower, xpower, xpower, all);
      var y' := VShiftRightInt(y, y, VSet(w, 1), all);
      forall k :: 0 <= k < w ==> LaneState(result', xpower', y', k) == ExpStep(LaneState(result, xpower, y, k))
  {
    forall k | 0 <= k < w {
      BitAndOne(y[k]);
    }
  }

  /** The lanes' eventual results survive a pass, and their exponents stay
      non-negative. */
  lemma LockStepKeepsOutcome(w: nat, result: seq<real>, xpower: seq<real>, y: seq<int>,
                             result': seq<real>, xpower': seq<real>, y': seq<int>,
                             values: seq<real>, exponents: seq<int>, base: nat)
    requires |result| == w && |xpower| == w && |y| == w
    requires |result'| == w && |xpower'| == w && |y'| == w
    requires base + w <= |values| && base + w <= |exponents|
    requires forall k :: 0 <= k < w ==> LaneState(result', xpower', y', k) == ExpStep(LaneState(result, xpower, y, k))
    requires forall k :: 0 <= k < w ==>
      (y[k] >= 0 && ExpLoop(LaneState(result, xpower, y, k)).result
                    == ExpLoop(ExpState(1.0, values[base + k], exponents[base + k])).result)
    ensures forall k :: 0 <= k < w ==>
      (y'[k] >= 0 && ExpLoop(LaneState(result', xpower', y', k)).result
                     == ExpLoop(ExpState(1.0, values[base + k], exponents[base + k])).result)
    ensures forall k :: 0 <= k < w ==> y'[k] == y[k] / 2
  {
    forall k | 0 <= k < w
      ensures y'[k] >= 0 && y'[k] == y[k] / 2
      ensures ExpLoop(LaneState(result', xpower', y', k)).result
        == ExpLoop(ExpState(1.0, values[base + k], exponents[base + k])).result
    {
      StepKeepsOutcome(LaneState(result, xpower, y, k));
    }
  }

  /** One chunk of `clampedExpVector`: load W lanes, run the lock-step
      squaring loop while any lane has y > 0, clamp, and return the W results.
      Lane k's result is what the serial loop gives element base + k. */
  method ClampedExpChunk(w: nat, values: seq<real>, exponents: seq<int>, base: nat) returns (result: seq<real>)
    requires w >= 1 && base + w <= |values| && base + w <= |exponents|
    requires forall k :: base <= k < base + w ==> exponents[k] >= 0
    ensures |result| == w
    ensures forall k :: 0 <= k < w ==> result[k] == ClampedExp(values[base + k], exponents[base + k])
  {
    var zeroInt := VSet(w, 0);
    var one := VSet(w, 1);
    var clamp := VSet(w, ClampCeiling);
    var bitand := VSet(w, 0);
    // Registers the source declares without initialising; every lane is
    // loaded before it is read.
    var x := VSet(w, 0.0);
    var xpower := VSet(w, 0.0);
    var y := VSet(w, 0);

    var maskAll := InitOnes(w, w);
    var maskClamp := InitOnes(w, 0);
    var maskIsGreaterOne := InitOnes(w, 0);
    var maskWhile := InitOnes(w, 0);

    x := VLoad(x, values, base, maskAll);
    y := VLoad(y, exponents, base, maskAll);
    xpower := VMove(xpower, x, maskAll);
    result := VSet(w, 1.0);
    while true
      invariant |result| == w && |xpower| == w && |y| == w && |bitand| == w
      invariant |maskWhile| == w && |maskIsGreaterOne| == w
      invariant forall k :: 0 <= k < w ==>
        (y[k] >= 0 && ExpLoop(LaneState(result, xpower, y, k)).result
                      == ExpLoop(ExpState(1.0, values[base + k], exponents[base + k])).result)
      decreases Pending(y)
    {
      maskWhile := VGtInt(maskWhile, y, zeroInt, maskAll);
      CntBitsZero(maskWhile);
      if CntBits(maskWhile) == 0 {
        // Every lane has y == 0 now, so its state is its loop's final state.
        forall k | 0 <= k < w
          ensures result[k] == ExpLoop(ExpState(1.0, values[base + k], exponents[base + k])).result
        {
          assert !maskWhile[k];
          assert ExpLoop(LaneState(result, xpower, y, k)) == LaneState(result, xpower, y, k);
        }
        break;
      }
      LockStepPass(w, result, xpower, y, bitand, maskIsGreaterOne);
      bitand := VBitAndInt(bitand, y, one, maskAll);
      maskIsGreaterOne := VGtInt(maskIsGreaterOne, bitand, zeroInt, maskAll);
      var result' := VMultFloat(result, result, xpower, maskIsGreaterOne);
      var xpower' := VMultFloat(xpower, xpower, xpower, maskAll);
      var y' := VShiftRightInt(y, y, one, maskAll);
      LockStepKeepsOutcome(w, result, xpower, y, result', xpower', y', values, exponents, base);
      PendingShrinks(y, y');
      result, xpower, y := result', xpower', y';
    }
    maskClamp := VGtFloat(maskClamp, result, clamp, maskAll);
    result := VSetMasked(result, ClampCeiling, maskClamp);
  }

  /** N_vec = n - n % w is a multiple of w, at most n, and fewer than w
      elements remain after it. */
  lemma VectorPart(n: nat, w: nat)
    requires w >= 1
    ensures 0 <= n - n % w <= n && n - (n - n % w) < w
    ensures n - n % w == (n / w) * w && (n - n % w) % w == 0
  {
    DivMod(n, w);
    var q := n / w;
    var v := n - n % w;
    assert v == q * w;
    DivMod(v, w);
    var q2, r2 := v / w, v % w;
    assert (q - q2) * w == r2;
    if q - q2 >= 1 {
      MulMono(1, q - q2, w);
    } else if q - q2 <= -1 {
      MulMono(q - q2, -1, w);
    }
  }

  /** `clampedExpVector`: the chunks of W lanes cover [0, N_vec) with
      N_vec = n - n % W, and `clampedExpSerial` finishes [N_vec, n). Every
      element equals the one `clampedExpSerial` computes, for any n. */
  method ClampedExpVector(w: nat, values: seq<real>, exponents: seq<int>, output: seq<real>, n: nat)
    returns (out: seq<real>)
    requires w >= 1 && n <= |values| && n <= |exponents| && n <= |output|
    requires forall k :: 0 <= k < n - n % w ==> exponents[k] >= 0
    ensures |out| == |output|
    ensures forall k :: 0 <= k < n ==> out[k] == ClampedExp(values[k], exponents[k]) && out[k] <= ClampCeiling
    ensures forall k :: n <= k < |out| ==> out[k] == output[k]
  {
    var nVec := n - n % w;
    VectorPart(n, w);
    out := output;
    var maskAll := InitOnes(w, w);
    var i := 0;
    ghost var c := 0;
    while i < nVec
      invariant 0 <= i <= nVec && i == c * w && |out| == |output|
      invariant forall k :: 0 <= k < i ==> out[k] == ClampedExp(values[k], exponents[k])
      invariant forall k :: i <= k < |out| ==> out[k] == output[k]
    {
      ChunkFits(i, c, nVec, n / w, w);
      var result := ClampedExpChunk(w, values, exponents, i);
      out := VStore(out, i, result, maskAll);
      i := i + w;
      c := c + 1;
    }
    out := ClampedExpSerial(values, exponents, out, nVec, n % w);
    forall k | 0 <= k < n
      ensures out[k] <= ClampCeiling
    {
      ClampedExpIsPow(values[k], exponents[k]);
    }
  }

  // ---------------------------------------------------------------------------
  // Array sum
  // ---------------------------------------------------------------------------

  /** The sum of s added left to right, as a reference. */
  function SumLeft(s: seq<real>): real
  {
    if |s| == 0 then 0.0 else SumLeft(s[..|s| - 1]) + s[|s| - 1]
  }

  /** The sum splits at any boundary, so it can be taken chunk by chunk. */
  lemma {:induction false} SumAppend(a: seq<real>, b: seq<real>)
    ensures SumLeft(a + b) == SumLeft(a) + SumLeft(b)
    decreases |b|
  {
    if |b| > 0 {
      var b' := b[..|b| - 1];
      assert (a + b)[..|a + b| - 1] == a + b';
      SumAppend(a, b');
    } else {
      assert a + b == a;
    }
  }

  /** `arraySumSerial`: the sum of values[0..n). */
  method ArraySumSerial(values: seq<real>, n: nat) returns (sum: real)
    requires n <= |values|
    ensures sum == SumLeft(values[..n])
  {
    sum := 0.0;
    var i := 0;
    while i < n
      invariant 0 <= i <= n
      invariant sum == SumLeft(values[..i])
    {
      assert values[..i + 1][..i] == values[..i];
      sum := sum + values[i];
      i := i + 1;
    }
  }
}
