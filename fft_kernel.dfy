/**
 * The in-place kernel of `perform_fft`: the bit-reversal loop with its
 * reversed counter, the stage/group/pair butterfly loops with the
 * trigonometric recurrence, and the division by the length for the
 * inverse transform. The kernel works on the two rows `values[0]` (real
 * parts) and `values[1]` (imaginary parts); each method is proved against
 * the declarative transform of `FftSpec`.
 */
module FftKernel {
  import opened Bits
  import opened ComplexNumbers
  import opened FftSpec

  // ---------------------------------------------------------------------
  // Bit reversal.

  /** A set top bit of the reversed counter is cleared and the carry moves down. */
  lemma CounterCarry(y: nat, j: nat)
    requires j >= 1 && y % 2 == 1
    ensures BitRev(y, j) - Pow2(j - 1) == BitRev(y / 2, j - 1)
    ensures BitRev(y + 1, j) == BitRev(y / 2 + 1, j - 1)
  {
    assert (y + 1) % 2 == 0 && (y + 1) / 2 == y / 2 + 1;
  }

  /** A clear top bit of the reversed counter is set, and the increment is complete. */
  lemma CounterSet(y: nat, j: nat)
    requires j >= 1 && y % 2 == 0
    ensures BitRev(y + 1, j) == BitRev(y, j) + Pow2(j - 1)
  {
    assert (y + 1) % 2 == 1 && (y + 1) / 2 == y / 2;
  }

  /** The mask bit while `j` bits of the reversed counter remain to be looked at. */
  function TopMask(j: nat): nat
  {
    if j == 0 then 0 else Pow2(j - 1)
  }

  lemma MaskHalves(j: nat)
    requires j >= 1
    ensures TopMask(j) / 2 == TopMask(j - 1)
  {
    if j >= 2 {
      assert Pow2(j - 1) == 2 * Pow2(j - 2);
    }
  }

  /** One round of the mask loop: a set top bit is cleared and one bit fewer remains. */
  lemma CarryRound(t: nat, mask: nat, y: nat, j: nat)
    requires mask == TopMask(j) && t == BitRev(y, j) && And(t, mask) != 0
    ensures j >= 1 && t >= mask && t - mask == BitRev(y / 2, j - 1) && mask / 2 == TopMask(j - 1)
    ensures BitRev(y + 1, j) == BitRev(y / 2 + 1, j - 1)
  {
    assert j >= 1;
    TopBitOfBitRev(y, j);
    CounterCarry(y, j);
    MaskHalves(j);
  }

  /** The mask loop stops at a clear bit, which it sets. */
  lemma SetRound(t: nat, mask: nat, y: nat, j: nat)
    requires mask == TopMask(j) && t == BitRev(y, j) && And(t, mask) == 0
    ensures t + mask == BitRev(y + 1, j)
  {
    if j >= 1 {
      TopBitOfBitRev(y, j);
      CounterSet(y, j);
    }
  }

  /**
   * The mask loop that advances the reversed counter: starting from the
   * top bit, every set bit is cleared until a clear bit is found and set.
   * This adds one to `position` as seen through the bit reversal, and
   * after the last position the counter wraps back to 0.
   */
  method NextTarget(target: nat, position: nat, n: nat) returns (next: nat)
    requires IsPowerOfTwo(n) && target == BitRev(position, Log2(n))
    ensures next == BitRev(position + 1, Log2(n))
    ensures position + 1 == n ==> next == 0
  {
    ghost var k := Log2(n);
    ghost var y := position;
    ghost var j := k;
    var t := target;
    var mask := n / 2;
    if k >= 1 {
      assert n == 2 * Pow2(k - 1);
    }
    while And(t, mask) != 0
      invariant j <= k
      invariant mask == TopMask(j)
      invariant t == BitRev(y, j)
      invariant BitRev(position + 1, k) == BitRev(y + 1, j)
      decreases j
    {
      CarryRound(t, mask, y, j);
      t := t - mask;
      mask := mask / 2;
      y := y / 2;
      j := j - 1;
    }
    SetRound(t, mask, y, j);
    next := t + mask;
    if position + 1 == n {
      BitRevWraps(k);
    }
  }

  /** The exchange of positions `i` and `j` in both rows. */
  method SwapBoth(re: array<real>, im: array<real>, i: nat, j: nat)
    requires re != im && re.Length == im.Length && i < re.Length && j < re.Length
    modifies re, im
    ensures re[..] == Swap(old(re[..]), i, j) && im[..] == Swap(old(im[..]), i, j)
  {
    var tempRe, tempIm := re[i], im[i];
    re[i] := re[j];
    im[i] := im[j];
    re[j] := tempRe;
    im[j] := tempIm;
  }

  /** Visiting position `p` exchanges it with `t`, its reversal, when `t > p`. */
  lemma SwapPassNext<T>(s: seq<T>, p: nat, t: nat)
    requires IsPowerOfTwo(|s|) && p < |s| && t == BitRev(p, Log2(|s|))
    ensures t < |s|
    ensures SwapPass(s, p + 1) == if t > p then Swap(SwapPass(s, p), p, t) else SwapPass(s, p)
  {
  }

  /** The body of the bit-reversal loop at `position`, whose reversal is `target`. */
  method VisitPosition(re: array<real>, im: array<real>, position: nat, target: nat, ghost re0: seq<real>, ghost im0: seq<real>)
    requires re != im && re.Length == im.Length == |re0| == |im0| && IsPowerOfTwo(|re0|)
    requires position < |re0| && target == BitRev(position, Log2(|re0|))
    requires re[..] == SwapPass(re0, position) && im[..] == SwapPass(im0, position)
    modifies re, im
    ensures re[..] == SwapPass(re0, position + 1) && im[..] == SwapPass(im0, position + 1)
  {
    SwapPassNext(re0, position, target);
    SwapPassNext(im0, position, target);
    if target > position {
      SwapBoth(re, im, position, target);
    }
  }

  /**
   * The bit-reversal loop: position `p` is exchanged with its reversal
   * `target` when `target > p`, in both rows alike.
   */
  method BitReverse(re: array<real>, im: array<real>)
    requires re != im && re.Length == im.Length && IsPowerOfTwo(re.Length)
    modifies re, im
    ensures re[..] == BitReversed(old(re[..])) && im[..] == BitReversed(old(im[..]))
  {
    var n := re.Length;
    ghost var k := Log2(n);
    ghost var re0, im0 := re[..], im[..];
    var target := 0;
    var position := 0;
    BitRevOfZero(k);
    while position < n
      invariant position <= n
      invariant target == BitRev(position, k)
      invariant re[..] == SwapPass(re0, position)
      invariant im[..] == SwapPass(im0, position)
    {
      VisitPosition(re, im, position, target, re0, im0);
      target := NextTarget(target, position, n);
      position := position + 1;
    }
    SwapPassComplete(re0);
    SwapPassComplete(im0);
  }

  // ---------------------------------------------------------------------
  // Butterflies.

  /**
   * Whether index `i` has been written by a stage of width `step` once the
   * groups below `group` are done and, in group `group`, the butterflies
   * starting below `pair`. With `r = i % (2 * step)`, index `i` is a
   * start when `r < step` and a partner otherwise.
   */
  predicate Visited(i: nat, step: Step, group: nat, pair: nat)
  {
    var r := i % (2 * step);
    r < group || step <= r < step + group || (r == group && i < pair) || (r == group + step && i < pair + step)
  }

  lemma ResidueAtMost(i: nat, d: nat)
    requires d >= 1
    ensures i % d <= i
  {
    MulMonotonic(0, i / d, d);
  }

  lemma ResidueShift(i: nat, d: nat)
    requires d >= 1
    ensures (i + d) % d == i % d
  {
    DivModUnique(i + d, d, i / d + 1, i % d);
  }

  /** Before the first group nothing has been visited. */
  lemma VisitedNone(i: nat, step: Step)
    ensures !Visited(i, step, 0, 0)
  {
    ResidueAtMost(i, 2 * step);
  }

  /** After the last group everything has been visited. */
  lemma VisitedAll(i: nat, step: Step)
    ensures Visited(i, step, step, step)
  {
  }

  /** Once the pair loop of `group` has run past the end, the group is done. */
  lemma VisitedGroupDone(i: nat, step: Step, group: nat, pair: nat)
    requires i < pair
    ensures Visited(i, step, group, pair) == Visited(i, step, group + 1, group + 1)
  {
    ResidueAtMost(i, 2 * step);
  }

  /** One butterfly of group `group` visits exactly its start `pair` and its partner `pair + step`. */
  lemma VisitedNext(i: nat, step: Step, group: nat, pair: nat)
    requires group < step && pair % (2 * step) == group
    ensures !Visited(pair, step, group, pair) && !Visited(pair + step, step, group, pair)
    ensures Visited(pair, step, group, pair + 2 * step) && Visited(pair + step, step, group, pair + 2 * step)
    ensures i != pair && i != pair + step ==> Visited(i, step, group, pair + 2 * step) == Visited(i, step, group, pair)
  {
    var d := 2 * step;
    var q := pair / d;
    DivModUnique(pair + step, d, q, group + step);
    if i != pair && i != pair + step && i % d == group && i < pair + d {
      SameResidueAtMost(i, pair, d);
    }
    if i != pair && i != pair + step && i % d == group + step && i < pair + d + step {
      SameResidueAtMost(i, pair + step, d);
    }
  }

  /**
   * One two-point transform on `z`: with `f` the factor, `(a, b)` at
   * `(pair, position)` becomes `(a + f b, a - f b)`.
   */
  function TwoPoint(z: seq<Complex>, pair: nat, position: nat, f: Complex): (r: seq<Complex>)
    requires pair < position < |z|
    ensures |r| == |z|
  {
    z[pair := Add(z[pair], Mul(f, z[position]))][position := Sub(z[pair], Mul(f, z[position]))]
  }

  /** The two outputs of a two-point transform, component by component. */
  lemma ButterflyParts(aRe: real, aIm: real, bRe: real, bIm: real, fRe: real, fIm: real)
    ensures Add(Complex(aRe, aIm), Mul(Complex(fRe, fIm), Complex(bRe, bIm)))
         == Complex(aRe + (fRe * bRe - fIm * bIm), aIm + (fIm * bRe + fRe * bIm))
    ensures Sub(Complex(aRe, aIm), Mul(Complex(fRe, fIm), Complex(bRe, bIm)))
         == Complex(aRe - (fRe * bRe - fIm * bIm), aIm - (fIm * bRe + fRe * bIm))
  {
    assert Mul(Complex(fRe, fIm), Complex(bRe, bIm)) == Complex(fRe * bRe - fIm * bIm, fIm * bRe + fRe * bIm);
  }

  /** The two-point transform in the rows, as the loop body writes it. */
  method ButterflyPair(re: array<real>, im: array<real>, pair: nat, position: nat, factorRe: real, factorIm: real)
    requires re != im && re.Length == im.Length && pair < position < re.Length
    modifies re, im
    ensures Pairs(re[..], im[..]) == TwoPoint(Pairs(old(re[..]), old(im[..])), pair, position, Complex(factorRe, factorIm))
  {
    ghost var z := Pairs(re[..], im[..]);
    ghost var f := Complex(factorRe, factorIm);
    var aRe, aIm, bRe, bIm := re[pair], im[pair], re[position], im[position];
    assert z[pair] == Complex(aRe, aIm) && z[position] == Complex(bRe, bIm);
    ButterflyParts(aRe, aIm, bRe, bIm, factorRe, factorIm);
    var productRe := factorRe * bRe - factorIm * bIm;
    var productIm := factorIm * bRe + factorRe * bIm;
    re[position] := aRe - productRe;
    im[position] := aIm - productIm;
    re[pair] := aRe + productRe;
    im[pair] := aIm + productIm;
    forall i | 0 <= i < re.Length
      ensures Pairs(re[..], im[..])[i] == TwoPoint(z, pair, position, f)[i]
    {
    }
  }

  /**
   * What a stage has written to `z` once groups below `group` and, in group
   * `group`, pairs below `pair` are done: `y` where visited, `x` elsewhere.
   */
  ghost predicate Progress(z: seq<Complex>, x: seq<Complex>, y: seq<Complex>, step: Step, group: nat, pair: nat)
    requires |z| == |x| == |y|
  {
    forall i :: 0 <= i < |x| ==> z[i] == if Visited(i, step, group, pair) then y[i] else x[i]
  }

  /** One butterfly of group `group` moves the progress from `pair` to the next pair. */
  lemma ProgressStep(z: seq<Complex>, x: seq<Complex>, step: Step, w: Complex, group: nat, pair: nat)
    requires |z| == |x| && |x| % (2 * step) == 0 && group < step && pair < |x| && pair % (2 * step) == group
    requires Progress(z, x, Stage(x, step, w), step, group, pair)
    requires pair + step < |x|
    ensures Progress(TwoPoint(z, pair, pair + step, Twiddle(w, group)), x, Stage(x, step, w), step, group, pair + 2 * step)
  {
    var y := Stage(x, step, w);
    var position := pair + step;
    var r := TwoPoint(z, pair, position, Twiddle(w, group));
    VisitedNext(pair, step, group, pair);
    StageLower(x, step, w, pair);
    PartnerBelow(pair, step, |x|);
    StageUpper(x, step, w, position);
    forall i | 0 <= i < |x|
      ensures r[i] == if Visited(i, step, group, pair + 2 * step) then y[i] else x[i]
    {
      VisitedNext(i, step, group, pair);
    }
  }

  /** Once the pair loop has run past the end, group `group` is done. */
  lemma ProgressGroupDone(z: seq<Complex>, x: seq<Complex>, y: seq<Complex>, step: Step, group: nat, pair: nat)
    requires |z| == |x| == |y| && pair >= |x|
    requires Progress(z, x, y, step, group, pair)
    ensures Progress(z, x, y, step, group + 1, group + 1)
  {
    forall i | 0 <= i < |x|
      ensures Visited(i, step, group, pair) == Visited(i, step, group + 1, group + 1)
    {
      VisitedGroupDone(i, step, group, pair);
    }
  }

  lemma ProgressStart(x: seq<Complex>, y: seq<Complex>, step: Step)
    requires |x| == |y|
    ensures Progress(x, x, y, step, 0, 0)
  {
    forall i | 0 <= i < |x|
      ensures !Visited(i, step, 0, 0)
    {
      VisitedNone(i, step);
    }
  }

  lemma ProgressComplete(z: seq<Complex>, x: seq<Complex>, y: seq<Complex>, step: Step)
    requires |z| == |x| == |y| && Progress(z, x, y, step, step, step)
    ensures z == y
  {
    forall i | 0 <= i < |x|
      ensures z[i] == y[i]
    {
      VisitedAll(i, step);
    }
  }

  /** The pair loop of group `group`, with the factor `Twiddle(w, group)`. */
  method ButterflyGroup(re: array<real>, im: array<real>, step: Step, group: nat, factorRe: real, factorIm: real,
                        ghost x: seq<Complex>, ghost w: Complex)
    requires re != im && re.Length == im.Length == |x| && |x| % (2 * step) == 0 && group < step
    requires Complex(factorRe, factorIm) == Twiddle(w, group)
    requires Progress(Pairs(re[..], im[..]), x, Stage(x, step, w), step, group, group)
    modifies re, im
    ensures Progress(Pairs(re[..], im[..]), x, Stage(x, step, w), step, group + 1, group + 1)
  {
    var n := re.Length;
    ghost var y := Stage(x, step, w);
    var jump := 2 * step;
    var pair := group;
    DivModUnique(group, jump, 0, group);
    while pair < n
      invariant pair % jump == group
      invariant Progress(Pairs(re[..], im[..]), x, y, step, group, pair)
      decreases n - pair
    {
      var position := pair + step;
      PartnerBelow(pair, step, n);
      ProgressStep(Pairs(re[..], im[..]), x, step, w, group, pair);
      ButterflyPair(re, im, pair, position, factorRe, factorIm);
      ResidueShift(pair, jump);
      pair := pair + jump;
    }
    ProgressGroupDone(Pairs(re[..], im[..]), x, y, step, group, pair);
  }

  /** The recurrence of the loop body, written on the two rows of the factor. */
  lemma AdvanceParts(multiplierRe: real, multiplierIm: real, factorRe: real, factorIm: real)
    ensures Advance(Complex(multiplierRe, multiplierIm), Complex(factorRe, factorIm))
         == Complex(multiplierRe * factorRe - multiplierIm * factorIm + factorRe,
                    multiplierIm * factorRe + multiplierRe * factorIm + factorIm)
  {
    var m, f := Complex(multiplierRe, multiplierIm), Complex(factorRe, factorIm);
    assert Advance(m, f) == Complex(m.re * f.re - m.im * f.im + f.re, m.im * f.re + m.re * f.im + f.im);
  }

  /**
   * One stage of width `step`: for each group `g < step` the factor
   * `Twiddle(w, g)` is applied to every pair `(g + t * 2 step, g + t * 2 step + step)`,
   * then advanced by the trigonometric recurrence.
   */
  method ButterflyStage(re: array<real>, im: array<real>, step: Step, multiplierRe: real, multiplierIm: real)
    requires re != im && re.Length == im.Length && re.Length % (2 * step) == 0
    modifies re, im
    ensures Pairs(re[..], im[..]) == Stage(Pairs(old(re[..]), old(im[..])), step, Complex(multiplierRe, multiplierIm))
  {
    var n := re.Length;
    ghost var w := Complex(multiplierRe, multiplierIm);
    ghost var x := Pairs(re[..], im[..]);
    ghost var y := Stage(x, step, w);
    var factorRe, factorIm := 1.0, 0.0;
    var group := 0;
    ProgressStart(x, y, step);
    while group < step
      invariant group <= step
      invariant Complex(factorRe, factorIm) == Twiddle(w, group)
      invariant Progress(Pairs(re[..], im[..]), x, y, step, group, group)
    {
      ButterflyGroup(re, im, step, group, factorRe, factorIm, x, w);
      AdvanceParts(multiplierRe, multiplierIm, factorRe, factorIm);
      TwiddleNext(w, group);
      var oldFactorRe := factorRe;
      factorRe := multiplierRe * factorRe - multiplierIm * factorIm + factorRe;
      factorIm := multiplierIm * oldFactorRe + multiplierRe * factorIm + factorIm;
      group := group + 1;
    }
    ProgressComplete(Pairs(re[..], im[..]), x, y, step);
  }

  /**
   * The stage loop: stage `step = 1, 2, 4, ...` below the length computes
   * `delta = pi / step` with `pi = direction * -pi`, the multiplier pair
   * `(-2 sin^2(delta / 2), sin(delta))`, and runs its butterflies.
   */
  method Butterflies(re: array<real>, im: array<real>, direction: int, libm: Libm)
    requires re != im && re.Length == im.Length && IsPowerOfTwo(re.Length)
    modifies re, im
    ensures Pairs(re[..], im[..]) == Network(Pairs(old(re[..]), old(im[..])), 1, TrigMultipliers(libm, direction))
  {
    var n := re.Length;
    ghost var mult := TrigMultipliers(libm, direction);
    ghost var x := Pairs(re[..], im[..]);
    var pi := direction as real * -Pi;
    var step: Step := 1;
    while step < n
      invariant IsPowerOfTwo(step)
      invariant Network(Pairs(re[..], im[..]), step, mult) == Network(x, 1, mult)
      decreases n - step
    {
      var delta := pi / step as real;
      var sine := libm.sin(delta * 0.5);
      var multiplierRe := -2.0 * sine * sine;
      var multiplierIm := libm.sin(delta);
      PowerOfTwoBelow(step, n);
      PowerOfTwoDivides(n, 2 * step);
      assert mult(step) == Complex(multiplierRe, multiplierIm);
      ButterflyStage(re, im, step, multiplierRe, multiplierIm);
      step := 2 * step;
    }
  }

  /** The division of every component by the length, for the inverse transform. */
  method ScaleInverse(re: array<real>, im: array<real>)
    requires re != im && re.Length == im.Length && re.Length >= 1
    modifies re, im
    ensures Pairs(re[..], im[..]) == Scaled(Pairs(old(re[..]), old(im[..])), re.Length)
  {
    var n := re.Length;
    var i := 0;
    while i < n
      invariant i <= n
      invariant forall j :: 0 <= j < i ==> re[j] == old(re[j]) / n as real && im[j] == old(im[j]) / n as real
      invariant forall j :: i <= j < n ==> re[j] == old(re[j]) && im[j] == old(im[j])
    {
      re[i] := re[i] / n as real;
      im[i] := im[i] / n as real;
      i := i + 1;
    }
  }

  /**
   * The whole in-place kernel of `perform_fft`: bit reversal, the stages,
   * and the division by the length only when `direction == -1`.
   */
  method Transform(re: array<real>, im: array<real>, direction: int, libm: Libm)
    requires re != im && re.Length == im.Length && IsPowerOfTwo(re.Length)
    modifies re, im
    ensures Pairs(re[..], im[..]) == Fft(Pairs(old(re[..]), old(im[..])), direction, TrigMultipliers(libm, direction))
  {
    ghost var x := Pairs(re[..], im[..]);
    BitReverse(re, im);
    BitReversedPairs(old(re[..]), old(im[..]));
    Butterflies(re, im, direction, libm);
    if direction == -1 {
      ScaleInverse(re, im);
    }
  }
}
