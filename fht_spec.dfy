/**
 * What the fast Hartley transform of `perform_fht` computes, stated
 * declaratively: the cosine/sine table, the `scale` ladder, one level
 * (a rotation of complementary pairs, then sums and differences) as a
 * closed form per index, and the ladder of levels 2, 4, 8, ...
 */
module FhtSpec {
  import opened Bits
  import opened ComplexNumbers
  import FftSpec

  // ---------------------------------------------------------------------
  // The table of cosines and sines.

  /** The `n / 2` cosines and sines the ladder reads; entry `k` is for angle `k * 2 pi / n`. */
  datatype HartleyTable = HartleyTable(c: seq<real>, s: seq<real>)

  /** Angle of table entry `k` for `n` points, as the table is meant to be built. */
  function TableAngle(n: nat, k: nat): real
    requires n >= 1
  {
    2.0 * Pi / n as real * k as real
  }

  /**
   * Angle of table entry `k` as `perform_fht` builds it: the increment
   * `2 pi / n` is stored in a `long`, so its fraction is dropped.
   */
  function TruncatedTableAngle(n: nat, k: nat): real
    requires n >= 1
  {
    (2.0 * Pi / n as real).Floor as real * k as real
  }

  /** The table built with the intended angles. */
  function TableFor(libm: Libm, n: nat): (t: HartleyTable)
    ensures |t.c| == n / 2 && |t.s| == n / 2
    ensures forall k :: 0 <= k < n / 2 ==> t.c[k] == libm.cos(TableAngle(n, k)) && t.s[k] == libm.sin(TableAngle(n, k))
  {
    HartleyTable(seq(n / 2, k requires 0 <= k < n / 2 => libm.cos(TableAngle(n, k))),
                 seq(n / 2, k requires 0 <= k < n / 2 => libm.sin(TableAngle(n, k))))
  }

  /**
   * The intended angles step by `2 pi / n`, a positive amount, so the
   * entries of the table are for distinct angles in `[0, pi)`.
   */
  lemma TableAnglesIncrease(n: nat, k: nat)
    requires n >= 1 && k < n / 2
    ensures TableAngle(n, k + 1) - TableAngle(n, k) == 2.0 * Pi / n as real > 0.0
    ensures 0.0 <= TableAngle(n, k) < Pi
  {
    var d := 2.0 * Pi / n as real;
    assert TableAngle(n, k + 1) == d * k as real + d;
    assert 2 * k < n;
    assert (2 * k) as real <= n as real - 1.0;
    assert TableAngle(n, k) == Pi * (2 * k) as real / n as real;
    assert Pi * (2 * k) as real < Pi * n as real;
  }

  /** For eight or more points the truncated increment is zero, so every angle is zero. */
  lemma TruncatedAnglesVanish(n: nat, k: nat)
    requires n >= 7
    ensures TruncatedTableAngle(n, k) == 0.0
  {
    var d := 2.0 * Pi / n as real;
    assert d * n as real == 2.0 * Pi;
    assert d < 1.0;
    assert d.Floor == 0;
  }

  /**
   * With eight points the truncated table entry 1 is `(cos 0, sin 0)`
   * where the transform needs the entry at angle `pi / 4`.
   */
  lemma TruncatedTableDiffers(n: nat)
    requires n == 8
    ensures TruncatedTableAngle(n, 1) == 0.0
    ensures TableAngle(n, 1) == Pi / 4.0
  {
    TruncatedAnglesVanish(n, 1);
  }

  /** The table as `perform_fht` builds it, from the truncated angle step. */
  function TableAsWritten(libm: Libm, n: nat): (t: HartleyTable)
    ensures |t.c| == n / 2 && |t.s| == n / 2
    ensures forall k :: 0 <= k < n / 2 ==>
      t.c[k] == libm.cos(TruncatedTableAngle(n, k)) && t.s[k] == libm.sin(TruncatedTableAngle(n, k))
  {
    HartleyTable(seq(n / 2, k requires 0 <= k < n / 2 => libm.cos(TruncatedTableAngle(n, k))),
                 seq(n / 2, k requires 0 <= k < n / 2 => libm.sin(TruncatedTableAngle(n, k))))
  }

  /** From eight points on, every entry of the as-written table is `(cos 0, sin 0)`. */
  lemma TableAsWrittenFlat(libm: Libm, n: nat, k: nat)
    requires n >= 8 && k < n / 2
    ensures TableAsWritten(libm, n).c[k] == libm.cos(0.0) && TableAsWritten(libm, n).s[k] == libm.sin(0.0)
  {
    TruncatedAnglesVanish(n, k);
  }

  /** Eight values with a single one at index 5. */
  function UnitAtFive(): (x: seq<real>)
    ensures |x| == 8 && x[5] == 1.0 && x[7] == 0.0
  {
    seq(8, i requires 0 <= i < 8 => if i == 5 then 1.0 else 0.0)
  }

  /**
   * With eight points the level-8 rotation reads table entry 1: given the
   * intended table it leaves `cos(pi / 4)` at index 5 of `UnitAtFive()`,
   * given the as-written table `cos 0`. The two differ whenever the cosine
   * takes different values at `pi / 4` and at 0.
   */
  lemma TruncatedTableMisrotates(libm: Libm)
    requires libm.cos(Pi / 4.0) != libm.cos(0.0)
    ensures LevelShape(8, 8, 1, TableFor(libm, 8)) && LevelShape(8, 8, 1, TableAsWritten(libm, 8))
    ensures Rotate(UnitAtFive(), TableFor(libm, 8), 8, 1)[5] == libm.cos(Pi / 4.0)
    ensures Rotate(UnitAtFive(), TableAsWritten(libm, 8), 8, 1)[5] == libm.cos(0.0)
    ensures Rotate(UnitAtFive(), TableFor(libm, 8), 8, 1) != Rotate(UnitAtFive(), TableAsWritten(libm, 8), 8, 1)
  {
    var x := UnitAtFive();
    var intended, written := TableFor(libm, 8), TableAsWritten(libm, 8);
    assert InRotation(8, 1);
    TruncatedTableDiffers(8);
    TableAsWrittenFlat(libm, 8, 1);
    assert intended.c[1] == libm.cos(Pi / 4.0);
    assert Rotate(x, intended, 8, 1)[5] == RotateInGroup(x, intended, 8, 1, 0, 5);
    assert Rotate(x, written, 8, 1)[5] == RotateInGroup(x, written, 8, 1, 0, 5);
    assert RotateInGroup(x, intended, 8, 1, 0, 5) == RotatedPair(1.0, 0.0, intended, 1).0;
    assert RotateInGroup(x, written, 8, 1, 0, 5) == RotatedPair(1.0, 0.0, written, 1).0;
  }

  // ---------------------------------------------------------------------
  // The scale ladder.

  /** The value the loop `for (i = n; i > 2; i >>= 1) scale <<= 1` leaves in `scale`. */
  function ScaleFor(n: nat): (s: nat)
    ensures s >= 1 && IsPowerOfTwo(s)
  {
    if n > 2 then
      var h := ScaleFor(n / 2);
      assert IsPowerOfTwo(2 * h) by {
        assert (2 * h) / 2 == h;
      }
      2 * h
    else 1
  }

  /** For a power of two `n >= 2` the loop leaves `scale == n / 2`. */
  lemma {:induction false} ScaleForPowerOfTwo(n: nat)
    requires IsPowerOfTwo(n) && n >= 2
    ensures 2 * ScaleFor(n) == n
  {
    if n > 2 {
      ScaleForPowerOfTwo(n / 2);
    }
  }

  // ---------------------------------------------------------------------
  // Index facts of one level.

  /** The group of `level` elements that holds `idx` ends inside the sequence. */
  lemma GroupFits(idx: nat, level: nat, n: nat)
    requires level >= 1 && n % level == 0 && idx < n
    ensures idx % level <= idx && idx - idx % level + level <= n
  {
    var q, m := idx / level, n / level;
    MulMonotonic(0, q, level);
    assert n == m * level;
    if q >= m {
      MulMonotonic(m, q, level);
      assert false;
    }
    MulMonotonic(q + 1, m, level);
  }

  /**
   * The rotation loop of a group visits `t = 1, 2, ...` while
   * `position = half + t` is below `match = level - t` (offsets in the group).
   */
  predicate InRotation(level: nat, t: nat)
  {
    1 <= t && level / 2 + t < level - t
  }

  /** The table index `t * scale` of a rotation stays below a quarter of the length. */
  lemma TableIndexBound(t: nat, level: nat, scale: nat, n: nat)
    requires InRotation(level, t) && scale >= 1 && level * scale == n
    ensures 4 * (t * scale) < n && t * scale < n / 2
  {
    assert 4 * t < level;
    MulMonotonic(4 * t + 1, level, scale);
    assert 4 * (t * scale) + scale <= n;
  }

  /** The two sides of the rotation are disjoint: no offset is both a `position` and a `match`. */
  lemma RotationSidesDisjoint(level: nat, t1: nat, t2: nat)
    requires InRotation(level, t1) && InRotation(level, t2)
    ensures level / 2 + t1 != level - t2
  {
  }

  /**
   * The shape a level needs: an even group size that tiles the sequence,
   * and a table index `t * scale` inside the table.
   */
  predicate LevelShape(n: nat, level: nat, scale: nat, tab: HartleyTable)
  {
    level >= 2 && level % 2 == 0 && n % level == 0 && level * scale == n
    && |tab.c| == n / 2 && |tab.s| == n / 2
  }

  /** Index `group + o` with `group` a multiple of `level` and `o < level` has offset `o` in its group. */
  lemma GroupOffset(idx: nat, level: nat, group: nat, o: nat)
    requires level >= 1 && group % level == 0 && o < level && idx == group + o
    ensures idx % level == o && idx - idx % level == group
  {
    assert group == group / level * level;
    DivModUnique(idx, level, group / level, o);
  }

  /**
   * The rotation of the pair `(a, b)` at `(position, match)` with table
   * entry `k`: `a' = a C + b S` lands at `position`, `b' = a S - b C` at `match`.
   */
  function RotatedPair(a: real, b: real, tab: HartleyTable, k: nat): (r: (real, real))
    requires k < |tab.c| && k < |tab.s|
  {
    (a * tab.c[k] + b * tab.s[k], a * tab.s[k] - b * tab.c[k])
  }

  /**
   * The value the rotation loop of the group starting at `group` leaves at
   * offset `o`. With `half = level / 2`, pair `t` couples offset `half + t`
   * (a `position`) with offset `level - t` (a `match`) and uses table
   * entry `t * scale`; the other offsets keep their values.
   */
  function RotateInGroup(x: seq<real>, tab: HartleyTable, level: nat, scale: nat, group: nat, o: nat): real
    requires LevelShape(|x|, level, scale, tab) && group + level <= |x| && o < level
  {
    var half := level / 2;
    assert scale >= 1;
    if o > half && InRotation(level, o - half) then
      var t := o - half;
      TableIndexBound(t, level, scale, |x|);
      RotatedPair(x[group + o], x[group + level - t], tab, t * scale).0
    else if o > half && InRotation(level, level - o) then
      var t := level - o;
      TableIndexBound(t, level, scale, |x|);
      RotatedPair(x[group + half + t], x[group + o], tab, t * scale).1
    else
      x[group + o]
  }

  /** The rotation loops of every group of a level. */
  function Rotate(x: seq<real>, tab: HartleyTable, level: nat, scale: nat): (y: seq<real>)
    requires LevelShape(|x|, level, scale, tab)
    ensures |y| == |x|
  {
    seq(|x|, idx requires 0 <= idx < |x| =>
      GroupFits(idx, level, |x|);
      RotateInGroup(x, tab, level, scale, idx - idx % level, idx % level))
  }

  /**
   * The value the sum/difference loop of the group starting at `group`
   * leaves at offset `o`: `(a, b) -> (a + b, a - b)` across the two halves.
   */
  function SumDiffInGroup(x: seq<real>, level: nat, group: nat, o: nat): real
    requires level >= 2 && level % 2 == 0 && group + level <= |x| && o < level
  {
    var half := level / 2;
    if o < half then x[group + o] + x[group + o + half] else x[group + o - half] - x[group + o]
  }

  /** The sum/difference loops of every group of a level. */
  function SumDiff(x: seq<real>, level: nat): (y: seq<real>)
    requires level >= 2 && level % 2 == 0 && |x| % level == 0
    ensures |y| == |x|
  {
    seq(|x|, idx requires 0 <= idx < |x| =>
      GroupFits(idx, level, |x|);
      SumDiffInGroup(x, level, idx - idx % level, idx % level))
  }

  /** One level of the ladder: rotate, then sums and differences. */
  function Level(x: seq<real>, tab: HartleyTable, level: nat, scale: nat): (y: seq<real>)
    requires LevelShape(|x|, level, scale, tab)
    ensures |y| == |x|
  {
    SumDiff(Rotate(x, tab, level, scale), level)
  }

  /** A group's rotation reads only that group. */
  lemma RotateInGroupLocal(x: seq<real>, y: seq<real>, tab: HartleyTable, level: nat, scale: nat, group: nat, o: nat)
    requires LevelShape(|x|, level, scale, tab) && |y| == |x| && group + level <= |x| && o < level
    requires forall k :: group <= k < group + level ==> x[k] == y[k]
    ensures RotateInGroup(x, tab, level, scale, group, o) == RotateInGroup(y, tab, level, scale, group, o)
  {
  }

  /** A group's sums and differences read only that group. */
  lemma SumDiffInGroupLocal(x: seq<real>, y: seq<real>, level: nat, group: nat, o: nat)
    requires level >= 2 && level % 2 == 0 && |y| == |x| && group + level <= |x| && o < level
    requires forall k :: group <= k < group + level ==> x[k] == y[k]
    ensures SumDiffInGroup(x, level, group, o) == SumDiffInGroup(y, level, group, o)
  {
  }

  /** The level's values in the group starting at `group`, offset by offset. */
  lemma LevelInGroup(x: seq<real>, tab: HartleyTable, level: nat, scale: nat, group: nat, o: nat)
    requires LevelShape(|x|, level, scale, tab) && group % level == 0 && group + level <= |x| && o < level
    ensures Rotate(x, tab, level, scale)[group + o] == RotateInGroup(x, tab, level, scale, group, o)
    ensures Level(x, tab, level, scale)[group + o] == SumDiffInGroup(Rotate(x, tab, level, scale), level, group, o)
  {
    GroupOffset(group + o, level, group, o);
  }

  /** What the ladder state must satisfy before level `level`. */
  predicate LadderState(n: nat, level: nat, scale: nat, tab: HartleyTable)
  {
    (n == 0 || IsPowerOfTwo(n)) && IsPowerOfTwo(level) && level >= 2
    && (level <= n ==> level * scale == n && IsPowerOfTwo(scale))
    && |tab.c| == n / 2 && |tab.s| == n / 2
  }

  /** A ladder state whose level fits has the shape that level needs. */
  lemma LadderStateShape(n: nat, level: nat, scale: nat, tab: HartleyTable)
    requires LadderState(n, level, scale, tab) && level <= n
    ensures LevelShape(n, level, scale, tab)
  {
    PowerOfTwoDivides(n, level);
    PowerOfTwoDivides(level, 2);
  }

  /** Doubling the level and halving the scale keeps the ladder state. */
  lemma LadderStateNext(n: nat, level: nat, scale: nat, tab: HartleyTable)
    requires LadderState(n, level, scale, tab) && level <= n
    ensures LadderState(n, 2 * level, scale / 2, tab)
  {
    assert IsPowerOfTwo(2 * level) by {
      assert (2 * level) / 2 == level;
    }
    if 2 * level <= n {
      if scale == 1 {
        assert false;
      }
      assert scale % 2 == 0;
      assert 2 * level * (scale / 2) == level * scale;
    }
  }

  /** The levels `level`, `2 * level`, ... up to the length, each with its scale. */
  function Ladder(x: seq<real>, tab: HartleyTable, level: nat, scale: nat): (y: seq<real>)
    requires LadderState(|x|, level, scale, tab)
    ensures |y| == |x|
    decreases |x| - level
  {
    if level > |x| then x
    else
      LadderStateShape(|x|, level, scale, tab);
      LadderStateNext(|x|, level, scale, tab);
      Ladder(Level(x, tab, level, scale), tab, 2 * level, scale / 2)
  }

  /** The whole ladder of `perform_fht`, from level 2 with the scale of the scale loop. */
  function Fht(x: seq<real>, tab: HartleyTable): (y: seq<real>)
    requires |x| == 0 || IsPowerOfTwo(|x|)
    requires |tab.c| == |x| / 2 && |tab.s| == |x| / 2
    ensures |y| == |x|
  {
    Pow2IsPowerOfTwo(1);
    assert |x| >= 2 ==> 2 * ScaleFor(|x|) == |x| by {
      if |x| >= 2 {
        ScaleForPowerOfTwo(|x|);
      }
    }
    Ladder(x, tab, 2, ScaleFor(|x|))
  }

  /** `v` with every value divided by `root`. */
  function Divided(v: seq<real>, root: real): (w: seq<real>)
    requires |v| == 0 || root != 0.0
    ensures |w| == |v| && forall i :: 0 <= i < |v| ==> w[i] * root == v[i]
  {
    seq(|v|, i requires 0 <= i < |v| => v[i] / root)
  }

  /**
   * The values `perform_fht` returns (as the real parts of its complex
   * results), built with the intended table: the ladder divided by `sqrt(n)`.
   */
  function FhtOutput(x: seq<real>, libm: Libm): (y: seq<real>)
    requires |x| == 0 || IsPowerOfTwo(|x|)
    requires |x| == 0 || libm.sqrt(|x| as real) != 0.0
    ensures |y| == |x|
  {
    Divided(Fht(x, TableFor(libm, |x|)), libm.sqrt(|x| as real))
  }

  // ---------------------------------------------------------------------
  // Which lengths the ladder's indices fit.

  /**
   * The as-written index ranges stay inside `n` values at every level
   * `level, 2 * level, ...` up to `n`: a level's groups `[group, group + level)`
   * start at multiples of `level` below `n`, so the last group ends inside
   * exactly when `level` divides `n`.
   */
  predicate LevelsFit(n: nat, level: nat)
    requires level >= 1
    decreases n - level
  {
    level > n || (n % level == 0 && LevelsFit(n, 2 * level))
  }

  lemma {:induction false} PowerOfTwoLevelsFit(n: nat, level: nat)
    requires IsPowerOfTwo(n) && IsPowerOfTwo(level)
    ensures LevelsFit(n, level)
    decreases n - level
  {
    if level <= n {
      PowerOfTwoDivides(n, level);
      if level < n {
        PowerOfTwoBelow(level, n);
        PowerOfTwoLevelsFit(n, 2 * level);
      } else {
        assert 2 * level > n;
      }
    }
  }

  /** When `level` is a power of two at most `n < 2 * level`, the ladder fails at `level` unless `n == level`. */
  lemma {:induction false} LevelsFitOnlyPowers(n: nat, level: nat)
    requires IsPowerOfTwo(level) && level <= n && LevelsFit(n, level)
    ensures IsPowerOfTwo(n)
    decreases n - level
  {
    if 2 * level <= n {
      assert IsPowerOfTwo(2 * level) by {
        assert (2 * level) / 2 == level;
      }
      LevelsFitOnlyPowers(n, 2 * level);
    } else {
      var q := n / level;
      assert n == q * level;
      if q >= 2 {
        MulMonotonic(2, q, level);
        assert false;
      }
      assert n == level;
    }
  }

  /**
   * The ladder's index ranges fit exactly the lengths 0 and the powers of
   * two: for every other length some group runs past the end.
   */
  lemma LevelsFitIffPowerOfTwo(n: nat)
    ensures LevelsFit(n, 2) <==> n <= 1 || IsPowerOfTwo(n)
  {
    Pow2IsPowerOfTwo(1);
    if IsPowerOfTwo(n) && n >= 2 {
      PowerOfTwoLevelsFit(n, 2);
    }
    if LevelsFit(n, 2) && n >= 2 {
      LevelsFitOnlyPowers(n, 2);
    }
  }

  /** With six values the level-4 group at 4 reaches index 7. */
  lemma SixOverruns()
    ensures !LevelsFit(6, 2)
  {
    assert 6 % 4 != 0;
    assert LevelsFit(6, 2) == LevelsFit(6, 4);
  }

  // ---------------------------------------------------------------------
  // Properties of the transform.

  /** Ones below `m`, zeros from `m` on. */
  function Prefix(n: nat, m: nat): (x: seq<real>)
    ensures |x| == n
  {
    seq(n, i requires 0 <= i < n => if i < m then 1.0 else 0.0)
  }

  /** A level leaves the rotation of a prefix of ones alone: it only reads and writes upper halves. */
  lemma RotateOfPrefix(n: nat, level: nat, scale: nat, tab: HartleyTable)
    requires LevelShape(n, level, scale, tab)
    ensures Rotate(Prefix(n, level / 2), tab, level, scale) == Prefix(n, level / 2)
  {
    var x := Prefix(n, level / 2);
    forall idx | 0 <= idx < n
      ensures Rotate(x, tab, level, scale)[idx] == x[idx]
    {
      RotateOfPrefixAt(x, n, level, scale, tab, idx);
    }
  }

  lemma RotateOfPrefixAt(x: seq<real>, n: nat, level: nat, scale: nat, tab: HartleyTable, idx: nat)
    requires LevelShape(n, level, scale, tab) && x == Prefix(n, level / 2) && idx < n
    ensures Rotate(x, tab, level, scale)[idx] == x[idx]
  {
    var o := idx % level;
    var half := level / 2;
    GroupFits(idx, level, n);
    var group := idx - o;
    assert Rotate(x, tab, level, scale)[idx] == RotateInGroup(x, tab, level, scale, group, o);
    if o > half {
      assert idx >= half;
      if InRotation(level, o - half) {
        var t := o - half;
        assert x[group + level - t] == 0.0;
      } else if InRotation(level, level - o) {
        var t := level - o;
        assert x[group + half + t] == 0.0;
      }
    }
  }

  lemma SumDiffOfPrefixAt(n: nat, level: nat, idx: nat)
    requires level >= 2 && level % 2 == 0 && n % level == 0 && idx < n
    ensures SumDiff(Prefix(n, level / 2), level)[idx] == if idx < level then 1.0 else 0.0
  {
    var x := Prefix(n, level / 2);
    if idx < level {
      DivModUnique(idx, level, 0, idx);
    }
    GroupFits(idx, level, n);
    assert SumDiff(x, level)[idx] == SumDiffInGroup(x, level, idx - idx % level, idx % level);
    if idx % level < level / 2 {
      assert idx >= level ==> idx + level / 2 >= level / 2;
    } else {
      assert idx >= level / 2;
    }
  }

  /** A level turns `level / 2` leading ones into `level`. */
  lemma LevelOfPrefix(n: nat, level: nat, scale: nat, tab: HartleyTable)
    requires LevelShape(n, level, scale, tab)
    ensures Level(Prefix(n, level / 2), tab, level, scale) == Prefix(n, level)
  {
    RotateOfPrefix(n, level, scale, tab);
    forall idx | 0 <= idx < n
      ensures SumDiff(Prefix(n, level / 2), level)[idx] == Prefix(n, level)[idx]
    {
      SumDiffOfPrefixAt(n, level, idx);
    }
  }

  lemma {:induction false} LadderOfPrefix(n: nat, level: nat, scale: nat, tab: HartleyTable)
    requires LadderState(n, level, scale, tab) && level / 2 <= n
    ensures Ladder(Prefix(n, level / 2), tab, level, scale) == Prefix(n, n)
    decreases n - level
  {
    if level <= n {
      LadderStateShape(n, level, scale, tab);
      LadderStateNext(n, level, scale, tab);
      LevelOfPrefix(n, level, scale, tab);
      assert (2 * level) / 2 == level;
      LadderOfPrefix(n, 2 * level, scale / 2, tab);
    } else {
      assert level / 2 == n by {
        if n >= 1 {
          PowerOfTwoDivides(level, 2);
          if level / 2 < n {
            assert IsPowerOfTwo(level / 2);
            PowerOfTwoBelow(level / 2, n);
            assert false;
          }
        }
      }
    }
  }

  /**
   * The ladder maps an impulse to a flat sequence of ones, whatever the
   * table holds.
   */
  lemma FhtOfImpulse(n: nat, tab: HartleyTable)
    requires IsPowerOfTwo(n) && |tab.c| == n / 2 && |tab.s| == n / 2
    ensures Fht(Prefix(n, 1), tab) == seq(n, i => 1.0)
  {
    Pow2IsPowerOfTwo(1);
    if n >= 2 {
      ScaleForPowerOfTwo(n);
    }
    assert 2 / 2 == 1;
    LadderOfPrefix(n, 2, ScaleFor(n), tab);
    assert Prefix(n, n) == seq(n, i => 1.0);
  }

  /** Groups of at most four values have no complementary pairs to rotate. */
  lemma RotateSmall(x: seq<real>, tab: HartleyTable, level: nat, scale: nat)
    requires LevelShape(|x|, level, scale, tab) && level <= 4
    ensures Rotate(x, tab, level, scale) == x
  {
  }

  /** The ladder on two values is one sum and one difference. */
  lemma FhtOfTwo(x: seq<real>, tab: HartleyTable)
    requires |x| == 2 && |tab.c| == 1 && |tab.s| == 1
    ensures Fht(x, tab) == [x[0] + x[1], x[0] - x[1]]
  {
    Pow2IsPowerOfTwo(1);
    assert ScaleFor(2) == 1;
    RotateSmall(x, tab, 2, 1);
    var y := Level(x, tab, 2, 1);
    assert y[0] == SumDiffInGroup(x, 2, 0, 0);
    assert y[1] == SumDiffInGroup(x, 2, 0, 1);
    assert Fht(x, tab) == Ladder(y, tab, 4, 0);
  }

  /**
   * The ladder on four values: the table is never read, and the result is
   * the sums and differences of the Walsh-Hadamard transform.
   */
  lemma FhtOfFour(x: seq<real>, tab: HartleyTable)
    requires |x| == 4 && |tab.c| == 2 && |tab.s| == 2
    ensures Fht(x, tab) == [x[0] + x[1] + x[2] + x[3], x[0] - x[1] + x[2] - x[3],
                            x[0] + x[1] - x[2] - x[3], x[0] - x[1] - x[2] + x[3]]
  {
    Pow2IsPowerOfTwo(2);
    assert ScaleFor(4) == 2;
    RotateSmall(x, tab, 2, 2);
    var y := Level(x, tab, 2, 2);
    assert y[0] == SumDiffInGroup(x, 2, 0, 0);
    assert y[1] == SumDiffInGroup(x, 2, 0, 1);
    assert y[2] == SumDiffInGroup(x, 2, 2, 0);
    assert y[3] == SumDiffInGroup(x, 2, 2, 1);
    RotateSmall(y, tab, 4, 1);
    var z := Level(y, tab, 4, 1);
    assert z[0] == SumDiffInGroup(y, 4, 0, 0);
    assert z[1] == SumDiffInGroup(y, 4, 0, 1);
    assert z[2] == SumDiffInGroup(y, 4, 0, 2);
    assert z[3] == SumDiffInGroup(y, 4, 0, 3);
    assert Fht(x, tab) == Ladder(y, tab, 4, 1);
    assert Ladder(y, tab, 4, 1) == Ladder(z, tab, 8, 0);
  }

  /** On two values, with `sqrt(2)` squaring to 2, the output of `perform_fht` is its own inverse. */
  lemma OutputInvolutionTwo(x: seq<real>, libm: Libm)
    requires |x| == 2 && libm.sqrt(2.0) * libm.sqrt(2.0) == 2.0
    ensures FhtOutput(FhtOutput(x, libm), libm) == x
  {
    Pow2IsPowerOfTwo(1);
    var r := libm.sqrt(2.0);
    var y := FhtOutput(x, libm);
    FhtOfTwo(x, TableFor(libm, 2));
    FhtOfTwo(y, TableFor(libm, 2));
    assert y == [(x[0] + x[1]) / r, (x[0] - x[1]) / r];
    var z := FhtOutput(y, libm);
    assert z[0] == (y[0] + y[1]) / r;
    assert (y[0] + y[1]) * r == 2.0 * x[0];
    assert z[0] * (r * r) == 2.0 * x[0];
    assert (y[0] - y[1]) * r == 2.0 * x[1];
    assert z[1] * (r * r) == 2.0 * x[1];
    assert z[0] == x[0] && z[1] == x[1];
    assert z == x;
  }

  /** On four values, with `sqrt(4) == 2`, the output of `perform_fht` is its own inverse. */
  lemma OutputInvolutionFour(x: seq<real>, libm: Libm)
    requires |x| == 4 && libm.sqrt(4.0) == 2.0
    ensures FhtOutput(FhtOutput(x, libm), libm) == x
  {
    Pow2IsPowerOfTwo(2);
    var y := FhtOutput(x, libm);
    FhtOfFour(x, TableFor(libm, 4));
    assert y == [(x[0] + x[1] + x[2] + x[3]) / 2.0, (x[0] - x[1] + x[2] - x[3]) / 2.0,
                 (x[0] + x[1] - x[2] - x[3]) / 2.0, (x[0] - x[1] - x[2] + x[3]) / 2.0];
    FhtOfFour(y, TableFor(libm, 4));
    var z := FhtOutput(y, libm);
    assert z == [(y[0] + y[1] + y[2] + y[3]) / 2.0, (y[0] - y[1] + y[2] - y[3]) / 2.0,
                 (y[0] + y[1] - y[2] - y[3]) / 2.0, (y[0] - y[1] - y[2] + y[3]) / 2.0];
    assert y[0] + y[1] + y[2] + y[3] == 2.0 * x[0];
    assert y[0] - y[1] + y[2] - y[3] == 2.0 * x[1];
    assert y[0] + y[1] - y[2] - y[3] == 2.0 * x[2];
    assert y[0] - y[1] - y[2] + y[3] == 2.0 * x[3];
    assert z[0] == x[0] && z[1] == x[1] && z[2] == x[2] && z[3] == x[3];
    assert z == x;
  }

  /** Elementwise sum. */
  function AddReals(x: seq<real>, y: seq<real>): (z: seq<real>)
    requires |x| == |y|
    ensures |z| == |x| && forall i :: 0 <= i < |x| ==> z[i] == x[i] + y[i]
  {
    seq(|x|, i requires 0 <= i < |x| => x[i] + y[i])
  }

  lemma RotatedPairAdditive(a1: real, b1: real, a2: real, b2: real, tab: HartleyTable, k: nat)
    requires k < |tab.c| && k < |tab.s|
    ensures RotatedPair(a1 + a2, b1 + b2, tab, k).0 == RotatedPair(a1, b1, tab, k).0 + RotatedPair(a2, b2, tab, k).0
    ensures RotatedPair(a1 + a2, b1 + b2, tab, k).1 == RotatedPair(a1, b1, tab, k).1 + RotatedPair(a2, b2, tab, k).1
  {
    var c, s := tab.c[k], tab.s[k];
    assert (a1 + a2) * c == a1 * c + a2 * c && (b1 + b2) * s == b1 * s + b2 * s;
    assert (a1 + a2) * s == a1 * s + a2 * s && (b1 + b2) * c == b1 * c + b2 * c;
  }

  /** Additivity of the rotation at a `position` offset. */
  lemma PositionAdditive(x: seq<real>, y: seq<real>, tab: HartleyTable, level: nat, scale: nat, group: nat, o: nat)
    requires |x| == |y| && LevelShape(|x|, level, scale, tab) && group + level <= |x| && o < level
    requires o > level / 2 && InRotation(level, o - level / 2)
    ensures RotateInGroup(AddReals(x, y), tab, level, scale, group, o)
         == RotateInGroup(x, tab, level, scale, group, o) + RotateInGroup(y, tab, level, scale, group, o)
  {
    var t := o - level / 2;
    TableIndexBound(t, level, scale, |x|);
    var a, b := group + o, group + level - t;
    RotatedPairAdditive(x[a], x[b], y[a], y[b], tab, t * scale);
    assert AddReals(x, y)[a] == x[a] + y[a] && AddReals(x, y)[b] == x[b] + y[b];
  }

  /** Additivity of the rotation at a `match` offset. */
  lemma MatchAdditive(x: seq<real>, y: seq<real>, tab: HartleyTable, level: nat, scale: nat, group: nat, o: nat)
    requires |x| == |y| && LevelShape(|x|, level, scale, tab) && group + level <= |x| && o < level
    requires o > level / 2 && !InRotation(level, o - level / 2) && InRotation(level, level - o)
    ensures RotateInGroup(AddReals(x, y), tab, level, scale, group, o)
         == RotateInGroup(x, tab, level, scale, group, o) + RotateInGroup(y, tab, level, scale, group, o)
  {
    var t := level - o;
    TableIndexBound(t, level, scale, |x|);
    var a, b := group + level / 2 + t, group + o;
    RotatedPairAdditive(x[a], x[b], y[a], y[b], tab, t * scale);
    assert AddReals(x, y)[a] == x[a] + y[a] && AddReals(x, y)[b] == x[b] + y[b];
  }

  lemma RotateInGroupAdditive(x: seq<real>, y: seq<real>, tab: HartleyTable, level: nat, scale: nat, group: nat, o: nat)
    requires |x| == |y| && LevelShape(|x|, level, scale, tab) && group + level <= |x| && o < level
    ensures RotateInGroup(AddReals(x, y), tab, level, scale, group, o)
         == RotateInGroup(x, tab, level, scale, group, o) + RotateInGroup(y, tab, level, scale, group, o)
  {
    var half := level / 2;
    if o > half && InRotation(level, o - half) {
      PositionAdditive(x, y, tab, level, scale, group, o);
    } else if o > half && InRotation(level, level - o) {
      MatchAdditive(x, y, tab, level, scale, group, o);
    } else {
      assert AddReals(x, y)[group + o] == x[group + o] + y[group + o];
    }
  }

  lemma RotateAdditive(x: seq<real>, y: seq<real>, tab: HartleyTable, level: nat, scale: nat)
    requires |x| == |y| && LevelShape(|x|, level, scale, tab)
    ensures Rotate(AddReals(x, y), tab, level, scale) == AddReals(Rotate(x, tab, level, scale), Rotate(y, tab, level, scale))
  {
    forall idx | 0 <= idx < |x|
      ensures Rotate(AddReals(x, y), tab, level, scale)[idx] == Rotate(x, tab, level, scale)[idx] + Rotate(y, tab, level, scale)[idx]
    {
      GroupFits(idx, level, |x|);
      RotateInGroupAdditive(x, y, tab, level, scale, idx - idx % level, idx % level);
    }
  }

  lemma SumDiffAdditive(x: seq<real>, y: seq<real>, level: nat)
    requires |x| == |y| && level >= 2 && level % 2 == 0 && |x| % level == 0
    ensures SumDiff(AddReals(x, y), level) == AddReals(SumDiff(x, level), SumDiff(y, level))
  {
    forall idx | 0 <= idx < |x|
      ensures SumDiff(AddReals(x, y), level)[idx] == SumDiff(x, level)[idx] + SumDiff(y, level)[idx]
    {
      GroupFits(idx, level, |x|);
    }
  }

  lemma LevelAdditive(x: seq<real>, y: seq<real>, tab: HartleyTable, level: nat, scale: nat)
    requires |x| == |y| && LevelShape(|x|, level, scale, tab)
    ensures Level(AddReals(x, y), tab, level, scale) == AddReals(Level(x, tab, level, scale), Level(y, tab, level, scale))
  {
    RotateAdditive(x, y, tab, level, scale);
    SumDiffAdditive(Rotate(x, tab, level, scale), Rotate(y, tab, level, scale), level);
  }

  lemma {:induction false} LadderAdditive(x: seq<real>, y: seq<real>, tab: HartleyTable, level: nat, scale: nat)
    requires |x| == |y| && LadderState(|x|, level, scale, tab)
    ensures Ladder(AddReals(x, y), tab, level, scale) == AddReals(Ladder(x, tab, level, scale), Ladder(y, tab, level, scale))
    decreases |x| - level
  {
    if level <= |x| {
      LadderStateShape(|x|, level, scale, tab);
      LadderStateNext(|x|, level, scale, tab);
      LevelAdditive(x, y, tab, level, scale);
      LadderAdditive(Level(x, tab, level, scale), Level(y, tab, level, scale), tab, 2 * level, scale / 2);
    }
  }

  /** The ladder is linear: the transform of a sum is the sum of the transforms. */
  lemma FhtAdditive(x: seq<real>, y: seq<real>, tab: HartleyTable)
    requires |x| == |y| && (|x| == 0 || IsPowerOfTwo(|x|))
    requires |tab.c| == |x| / 2 && |tab.s| == |x| / 2
    ensures Fht(AddReals(x, y), tab) == AddReals(Fht(x, tab), Fht(y, tab))
  {
    Pow2IsPowerOfTwo(1);
    if |x| >= 2 {
      ScaleForPowerOfTwo(|x|);
    }
    LadderAdditive(x, y, tab, 2, ScaleFor(|x|));
  }

  // ---------------------------------------------------------------------
  // The direct transform of `perform_dht`, as a reference for what the
  // ladder should return.

  /** The angle `k * (2 pi i / n)` at which `perform_dht` evaluates `cos` and `sin`. */
  function DhtAngle(n: nat, i: nat, k: nat): real
    requires n >= 1
  {
    k as real * (2.0 * Pi * i as real / n as real)
  }

  /** The sum `x[0] cas(0) + ... + x[k - 1] cas((k - 1) arg)` of output `i`, added up in the loop's order. */
  function CasSum(x: seq<real>, libm: Libm, i: nat, k: nat): real
    requires k <= |x|
  {
    if k == 0 then 0.0
    else
      var a := DhtAngle(|x|, i, k - 1);
      CasSum(x, libm, i, k - 1) + x[k - 1] * (libm.sin(a) + libm.cos(a))
  }

  /** The values `perform_dht` returns: every sum divided by `sqrt(n)`. */
  function Dht(x: seq<real>, libm: Libm): (y: seq<real>)
    requires |x| == 0 || libm.sqrt(|x| as real) != 0.0
    ensures |y| == |x| && forall i :: 0 <= i < |x| ==> y[i] * libm.sqrt(|x| as real) == CasSum(x, libm, i, |x|)
  {
    seq(|x|, i requires 0 <= i < |x| => CasSum(x, libm, i, |x|) / libm.sqrt(|x| as real))
  }

  /** `m` quarter turns. */
  function QuarterTurn(m: nat): real
  {
    m as real * Pi / 2.0
  }

  function CosQuarter(m: nat): real
  {
    [1.0, 0.0, -1.0, 0.0][m % 4]
  }

  function SinQuarter(m: nat): real
  {
    [0.0, 1.0, 0.0, -1.0][m % 4]
  }

  /** `cos` and `sin` are exact at the quarter turns that a four-point transform reaches (up to 9). */
  predicate QuarterTurnValues(libm: Libm)
  {
    forall m: nat :: m < 10 ==>
      libm.cos(QuarterTurn(m)) == CosQuarter(m) && libm.sin(QuarterTurn(m)) == SinQuarter(m)
  }

  lemma AngleFour(i: nat, k: nat)
    requires i < 4 && k < 4
    ensures DhtAngle(4, i, k) == QuarterTurn(i * k)
  {
    if i == 0 {
    } else if i == 1 {
      assert DhtAngle(4, 1, k) == k as real * Pi / 2.0;
    } else if i == 2 {
      assert DhtAngle(4, 2, k) == (2 * k) as real * Pi / 2.0;
    } else {
      assert DhtAngle(4, 3, k) == (3 * k) as real * Pi / 2.0;
    }
  }

  /** `cas` (`sin + cos`) at `m` quarter turns: `1` for the first two quarters, `-1` for the others. */
  function CasQuarter(m: nat): (c: real)
    ensures c == if m % 4 < 2 then 1.0 else -1.0
  {
    SinQuarter(m) + CosQuarter(m)
  }

  /** A value times `cas` at `m` quarter turns. */
  function CasSigned(v: real, m: nat): real
  {
    if m % 4 < 2 then v else -v
  }

  /** The `cas` factor of term `k` of output `i`, for four points. */
  lemma CasTermFour(libm: Libm, i: nat, k: nat)
    requires QuarterTurnValues(libm) && i < 4 && k < 4
    ensures libm.sin(DhtAngle(4, i, k)) + libm.cos(DhtAngle(4, i, k)) == CasQuarter(i * k)
  {
    AngleFour(i, k);
    assert i * k < 10;
  }

  /** One step of the inner loop of `perform_dht`, for four points. */
  lemma CasStepFour(x: seq<real>, libm: Libm, i: nat, k: nat)
    requires |x| == 4 && QuarterTurnValues(libm) && i < 4 && k < 4
    ensures CasSum(x, libm, i, k + 1) == CasSum(x, libm, i, k) + CasSigned(x[k], i * k)
  {
    CasTermFour(libm, i, k);
    var a := DhtAngle(4, i, k);
    var cas := libm.sin(a) + libm.cos(a);
    assert CasSum(x, libm, i, k + 1) == CasSum(x, libm, i, k) + x[k] * cas;
    if (i * k) % 4 < 2 {
      assert cas == 1.0;
    } else {
      assert cas == -1.0;
    }
  }

  /** Output `i` of the four-point sum, with `cas` at the quarter turns `0, i, 2i, 3i`. */
  lemma CasSumFour(x: seq<real>, libm: Libm, i: nat)
    requires |x| == 4 && QuarterTurnValues(libm) && i < 4
    ensures CasSum(x, libm, i, 4)
         == CasSigned(x[0], i * 0) + CasSigned(x[1], i * 1) + CasSigned(x[2], i * 2) + CasSigned(x[3], i * 3)
  {
    CasStepFour(x, libm, i, 0);
    CasStepFour(x, libm, i, 1);
    CasStepFour(x, libm, i, 2);
    CasStepFour(x, libm, i, 3);
  }

  /** The four-point direct transform in closed form. */
  lemma DhtFour(x: seq<real>, libm: Libm)
    requires |x| == 4 && QuarterTurnValues(libm) && libm.sqrt(4.0) == 2.0
    ensures Dht(x, libm) == [(x[0] + x[1] + x[2] + x[3]) / 2.0, (x[0] + x[1] - x[2] - x[3]) / 2.0,
                             (x[0] - x[1] + x[2] - x[3]) / 2.0, (x[0] - x[1] - x[2] + x[3]) / 2.0]
  {
    CasSumFour(x, libm, 0);
    CasSumFour(x, libm, 1);
    CasSumFour(x, libm, 2);
    CasSumFour(x, libm, 3);
    var d := Dht(x, libm);
    assert d[0] * 2.0 == x[0] + x[1] + x[2] + x[3];
    assert d[1] * 2.0 == x[0] + x[1] - x[2] - x[3];
    assert d[2] * 2.0 == x[0] - x[1] + x[2] - x[3];
    assert d[3] * 2.0 == x[0] - x[1] - x[2] + x[3];
  }

  /** Four values whose doubles are the four butterfly sums are the halved sums. */
  lemma HalvedButterflyFour(y: seq<real>, x: seq<real>)
    requires |y| == 4 && |x| == 4
    requires y[0] * 2.0 == x[0] + x[1] + x[2] + x[3] && y[1] * 2.0 == x[0] - x[1] + x[2] - x[3]
    requires y[2] * 2.0 == x[0] + x[1] - x[2] - x[3] && y[3] * 2.0 == x[0] - x[1] - x[2] + x[3]
    ensures y == [(x[0] + x[1] + x[2] + x[3]) / 2.0, (x[0] - x[1] + x[2] - x[3]) / 2.0,
                  (x[0] + x[1] - x[2] - x[3]) / 2.0, (x[0] - x[1] - x[2] + x[3]) / 2.0]
  {
  }

  /** The four-point output of `perform_fht` in closed form. */
  lemma FhtOutputFour(x: seq<real>, libm: Libm)
    requires |x| == 4 && libm.sqrt(4.0) == 2.0
    ensures IsPowerOfTwo(|x|)
    ensures FhtOutput(x, libm) == [(x[0] + x[1] + x[2] + x[3]) / 2.0, (x[0] - x[1] + x[2] - x[3]) / 2.0,
                                   (x[0] + x[1] - x[2] - x[3]) / 2.0, (x[0] - x[1] - x[2] + x[3]) / 2.0]
  {
    Pow2IsPowerOfTwo(2);
    var f := Fht(x, TableFor(libm, 4));
    FhtOfFour(x, TableFor(libm, 4));
    var y := FhtOutput(x, libm);
    assert y == Divided(f, 2.0);
    assert y[0] * 2.0 == x[0] + x[1] + x[2] + x[3];
    assert y[1] * 2.0 == x[0] - x[1] + x[2] - x[3];
    assert y[2] * 2.0 == x[0] + x[1] - x[2] - x[3];
    assert y[3] * 2.0 == x[0] - x[1] - x[2] + x[3];
    HalvedButterflyFour(y, x);
  }

  /**
   * The ladder has no bit-reversal pass on its input. On four values (and
   * only there) this makes its output the direct transform read in
   * bit-reversed order: the two agree exactly when outputs 1 and 2 of the
   * direct transform coincide, that is when `x[1] == x[2]`.
   */
  lemma FhtOrderFour(x: seq<real>, libm: Libm)
    requires |x| == 4 && QuarterTurnValues(libm) && libm.sqrt(4.0) == 2.0
    ensures IsPowerOfTwo(|x|)
    ensures FhtOutput(x, libm) == FftSpec.BitReversed(Dht(x, libm))
    ensures FhtOutput(x, libm) == Dht(x, libm) <==> x[1] == x[2]
  {
    FhtOutputFour(x, libm);
    DhtFour(x, libm);
    var y, d := FhtOutput(x, libm), Dht(x, libm);
    FftSpec.BitReversedFour(d);
    assert y == [d[0], d[2], d[1], d[3]];
    if y == d {
      assert y[1] == d[1];
    }
  }

  /** An input on which `fht` and `dht` differ: `[0, 1, 0, 0]`. */
  lemma FhtDhtDifferFour(libm: Libm)
    requires QuarterTurnValues(libm) && libm.sqrt(4.0) == 2.0
    ensures FhtOutput([0.0, 1.0, 0.0, 0.0], libm) == [0.5, -0.5, 0.5, -0.5]
    ensures Dht([0.0, 1.0, 0.0, 0.0], libm) == [0.5, 0.5, -0.5, -0.5]
  {
    FhtOutputFour([0.0, 1.0, 0.0, 0.0], libm);
    DhtFour([0.0, 1.0, 0.0, 0.0], libm);
  }

  /**
   * Read in bit-reversed order, the ladder's output on four values is the
   * direct transform. This reordering of the output is particular to four
   * values; `BitReversedInputFour` states the correction that holds in general.
   */
  lemma NaturalOrderFour(x: seq<real>, libm: Libm)
    requires |x| == 4 && QuarterTurnValues(libm) && libm.sqrt(4.0) == 2.0
    ensures IsPowerOfTwo(|x|)
    ensures FftSpec.BitReversed(FhtOutput(x, libm)) == Dht(x, libm)
  {
    FhtOrderFour(x, libm);
    FftSpec.BitReversedInvolution(Dht(x, libm));
  }

  /**
   * The evident intent of `perform_fht`: bit-reverse the input, then run the
   * ladder. On four values this gives exactly the direct transform of
   * `perform_dht`.
   */
  lemma BitReversedInputFour(x: seq<real>, libm: Libm)
    requires |x| == 4 && QuarterTurnValues(libm) && libm.sqrt(4.0) == 2.0
    ensures IsPowerOfTwo(|x|)
    ensures FhtOutput(FftSpec.BitReversed(x), libm) == Dht(x, libm)
  {
    FftSpec.BitReversedFour(x);
    var r := FftSpec.BitReversed(x);
    assert r[0] == x[0] && r[1] == x[2] && r[2] == x[1] && r[3] == x[3];
    FhtOutputFour(r, libm);
    DhtFour(x, libm);
    var y, d := FhtOutput(r, libm), Dht(x, libm);
    assert y[0] == d[0] && y[1] == d[1] && y[2] == d[2] && y[3] == d[3];
  }
}
