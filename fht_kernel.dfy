/**
 * The in-place Hartley kernel of `perform_fht`: the table of cosines and
 * sines, the scale loop, and the level / group / pair loops, each proved
 * against the declarative ladder of `FhtSpec`.
 */
module FhtKernel {
  import opened Bits
  import opened ComplexNumbers
  import opened FhtSpec

  /**
   * The tables `C` and `S` of `n / 2` entries. The angle step is kept as a
   * real number; for `n == 0` no entry is written and the step is not used.
   */
  method BuildTable(libm: Libm, n: nat) returns (c: array<real>, s: array<real>)
    ensures fresh(c) && fresh(s)
    ensures c[..] == TableFor(libm, n).c && s[..] == TableFor(libm, n).s
  {
    c := new real[n / 2];
    s := new real[n / 2];
    var arg := if n >= 1 then 2.0 * Pi / n as real else 0.0;
    var k := 0;
    while k < n / 2
      invariant 0 <= k <= n / 2
      invariant forall m :: 0 <= m < k ==> c[m] == libm.cos(TableAngle(n, m)) && s[m] == libm.sin(TableAngle(n, m))
    {
      assert arg * k as real == TableAngle(n, k);
      c[k] := libm.cos(arg * k as real);
      s[k] := libm.sin(arg * k as real);
      k := k + 1;
    }
  }

  /**
   * The table loop as written: the angle step `2 pi / n` is assigned to a
   * `long`, so only its integer part is used.
   */
  method BuildTableAsWritten(libm: Libm, n: nat) returns (c: array<real>, s: array<real>)
    ensures fresh(c) && fresh(s)
    ensures c[..] == TableAsWritten(libm, n).c && s[..] == TableAsWritten(libm, n).s
  {
    c := new real[n / 2];
    s := new real[n / 2];
    var arg: int := if n >= 1 then (2.0 * Pi / n as real).Floor else 0;
    var k := 0;
    while k < n / 2
      invariant 0 <= k <= n / 2
      invariant forall m :: 0 <= m < k ==>
        c[m] == libm.cos(TruncatedTableAngle(n, m)) && s[m] == libm.sin(TruncatedTableAngle(n, m))
    {
      assert arg as real * k as real == TruncatedTableAngle(n, k);
      c[k] := libm.cos(arg as real * k as real);
      s[k] := libm.sin(arg as real * k as real);
      k := k + 1;
    }
  }

  lemma DoubleMoves(a: nat, b: nat)
    ensures a * (2 * b) == (2 * a) * b
  {
  }

  /** The loop that doubles `scale` while halving a copy of the length down to 2. */
  method InitialScale(n: nat) returns (scale: nat)
    ensures scale == ScaleFor(n)
    ensures IsPowerOfTwo(n) && n >= 2 ==> 2 * scale == n
  {
    scale := 1;
    var i := n;
    while i > 2
      invariant scale * ScaleFor(i) == ScaleFor(n)
    {
      var h := ScaleFor(i / 2);
      assert ScaleFor(i) == 2 * h;
      DoubleMoves(scale, h);
      scale := 2 * scale;
      i := i / 2;
    }
    if IsPowerOfTwo(n) && n >= 2 {
      ScaleForPowerOfTwo(n);
    }
  }

  // ---------------------------------------------------------------------
  // The rotation loop of one group.

  /** Offsets of a group that the rotation loop has rewritten before pair `t`. */
  predicate Rotated(level: nat, t: nat, o: nat)
  {
    level / 2 < o < level && (o - level / 2 < t || level - o < t)
  }

  /** The sequence after the rotation loop of the group at `group` has done pairs `1 .. t - 1`. */
  function RotatedUpTo(x: seq<real>, tab: HartleyTable, level: nat, scale: nat, group: nat, t: nat): (y: seq<real>)
    requires LevelShape(|x|, level, scale, tab) && group + level <= |x|
    ensures |y| == |x|
  {
    seq(|x|, idx requires 0 <= idx < |x| =>
      if group <= idx < group + level && Rotated(level, t, idx - group)
      then RotateInGroup(x, tab, level, scale, group, idx - group)
      else x[idx])
  }

  /** The sequence with the group at `group` rotated and everything else kept. */
  function RotateGroupValues(x: seq<real>, tab: HartleyTable, level: nat, scale: nat, group: nat): (y: seq<real>)
    requires LevelShape(|x|, level, scale, tab) && group + level <= |x|
    ensures |y| == |x|
  {
    seq(|x|, idx requires 0 <= idx < |x| =>
      if group <= idx < group + level
      then RotateInGroup(x, tab, level, scale, group, idx - group)
      else x[idx])
  }

  /**
   * Pair `t` of the rotation: `position = group + level / 2 + t` and
   * `match = group + level - t` still hold their original values, lie in
   * the group, use a table entry inside the table, and are the only
   * cells the pair rewrites.
   */
  lemma RotateStep(x: seq<real>, tab: HartleyTable, level: nat, scale: nat, group: nat, t: nat)
    requires LevelShape(|x|, level, scale, tab) && group + level <= |x| && InRotation(level, t)
    ensures var position, opposite := group + level / 2 + t, group + level - t;
      group <= position < opposite < group + level && t * scale < |tab.c|
      && RotatedUpTo(x, tab, level, scale, group, t)[position] == x[position]
      && RotatedUpTo(x, tab, level, scale, group, t)[opposite] == x[opposite]
      && RotatedUpTo(x, tab, level, scale, group, t + 1)
         == RotatedUpTo(x, tab, level, scale, group, t)
              [position := RotatedPair(x[position], x[opposite], tab, t * scale).0]
              [opposite := RotatedPair(x[position], x[opposite], tab, t * scale).1]
  {
    TableIndexBound(t, level, scale, |x|);
    var half := level / 2;
    assert level == 2 * half;
    var position, opposite := group + half + t, group + level - t;
    var k := t * scale;
    var y := RotatedUpTo(x, tab, level, scale, group, t);
    assert !Rotated(level, t, half + t) && !Rotated(level, t, level - t);
    assert y[position] == x[position] && y[opposite] == x[opposite];
    var y' := RotatedUpTo(x, tab, level, scale, group, t + 1);
    var z := y[position := RotatedPair(x[position], x[opposite], tab, k).0]
              [opposite := RotatedPair(x[position], x[opposite], tab, k).1];
    assert RotateInGroup(x, tab, level, scale, group, half + t) == RotatedPair(x[position], x[opposite], tab, k).0;
    assert !InRotation(level, half - t);
    assert RotateInGroup(x, tab, level, scale, group, level - t) == RotatedPair(x[position], x[opposite], tab, k).1;
    forall idx | 0 <= idx < |x|
      ensures y'[idx] == z[idx]
    {
      if idx == position {
        assert Rotated(level, t + 1, half + t);
      } else if idx == opposite {
        assert Rotated(level, t + 1, level - t);
      } else if group <= idx < group + level {
        assert Rotated(level, t + 1, idx - group) == Rotated(level, t, idx - group);
      }
    }
  }

  /** When the loop condition fails at pair `t`, the whole group is rotated. */
  lemma RotateDone(x: seq<real>, tab: HartleyTable, level: nat, scale: nat, group: nat, t: nat)
    requires LevelShape(|x|, level, scale, tab) && group + level <= |x|
    requires t >= 1 && !InRotation(level, t)
    ensures RotatedUpTo(x, tab, level, scale, group, t) == RotateGroupValues(x, tab, level, scale, group)
  {
    var half := level / 2;
    assert level == 2 * half;
    var y := RotatedUpTo(x, tab, level, scale, group, t);
    var z := RotateGroupValues(x, tab, level, scale, group);
    forall idx | 0 <= idx < |x|
      ensures y[idx] == z[idx]
    {
      if group <= idx < group + level && !Rotated(level, t, idx - group) {
        var o := idx - group;
        assert !(o > half && InRotation(level, o - half));
        assert !(o > half && InRotation(level, level - o));
      }
    }
  }

  /** Before the first pair nothing is rotated. */
  lemma RotateStart(x: seq<real>, tab: HartleyTable, level: nat, scale: nat, group: nat)
    requires LevelShape(|x|, level, scale, tab) && group + level <= |x|
    ensures RotatedUpTo(x, tab, level, scale, group, 1) == x
  {
    var y := RotatedUpTo(x, tab, level, scale, group, 1);
    forall idx | 0 <= idx < |x|
      ensures y[idx] == x[idx]
    {
      if group <= idx < group + level {
        assert !Rotated(level, 1, idx - group);
      }
    }
  }

  /** A rotated pair written into the array, as the loop body writes it. */
  method RotatePair(values: array<real>, c: array<real>, s: array<real>, position: nat, opposite: nat, k: nat,
                    ghost tab: HartleyTable)
    requires values != c && values != s && c[..] == tab.c && s[..] == tab.s
    requires position < opposite < values.Length && k < c.Length && k < s.Length
    modifies values
    ensures values[..] == old(values[..])
      [position := RotatedPair(old(values[position]), old(values[opposite]), tab, k).0]
      [opposite := RotatedPair(old(values[position]), old(values[opposite]), tab, k).1]
  {
    ghost var v := values[..];
    var a := values[position];
    var b := values[opposite];
    var ck, sk := c[k], s[k];
    values[position] := a * ck + b * sk;
    values[opposite] := a * sk - b * ck;
    assert values[..] == v[position := a * ck + b * sk][opposite := a * sk - b * ck];
    assert a * ck + b * sk == RotatedPair(a, b, tab, k).0;
    assert a * sk - b * ck == RotatedPair(a, b, tab, k).1;
  }

  /**
   * The rotation loop of the group at `group`: `position` walks up from
   * `group + level / 2 + 1`, `match` walks down from `group + level - 1`,
   * pair `i` uses table entry `i * scale`.
   */
  method RotateGroup(values: array<real>, c: array<real>, s: array<real>, level: nat, scale: nat, group: nat,
                     ghost tab: HartleyTable)
    requires values != c && values != s && c[..] == tab.c && s[..] == tab.s
    requires LevelShape(values.Length, level, scale, tab) && group + level <= values.Length
    modifies values
    ensures values[..] == RotateGroupValues(old(values[..]), tab, level, scale, group)
  {
    ghost var x := values[..];
    RotateStart(x, tab, level, scale, group);
    var i := 1;
    var position := group + level / 2 + 1;
    var opposite := group + level - 1;
    while position < opposite
      invariant 1 <= i && position == group + level / 2 + i && opposite == group + level - i
      invariant values[..] == RotatedUpTo(x, tab, level, scale, group, i)
      decreases opposite - position
    {
      RotateStep(x, tab, level, scale, group, i);
      var k := i * scale;
      i := i + 1;
      RotatePair(values, c, s, position, opposite, k, tab);
      position := position + 1;
      opposite := opposite - 1;
    }
    RotateDone(x, tab, level, scale, group, i);
  }

  // ---------------------------------------------------------------------
  // The sum/difference loop of one group.

  /** Offsets of a group that the sum/difference loop has rewritten after `j` pairs. */
  predicate Summed(level: nat, j: nat, o: nat)
  {
    o < j || level / 2 <= o < level / 2 + j
  }

  /** The sequence after `j` pairs of the sum/difference loop of the group at `group`. */
  function SummedUpTo(x: seq<real>, level: nat, group: nat, j: nat): (y: seq<real>)
    requires level >= 2 && level % 2 == 0 && group + level <= |x|
    ensures |y| == |x|
  {
    seq(|x|, idx requires 0 <= idx < |x| =>
      if group <= idx < group + level && Summed(level, j, idx - group)
      then SumDiffInGroup(x, level, group, idx - group)
      else x[idx])
  }

  /** Pair `j` turns `(a, b)` at `(group + j, group + level / 2 + j)` into `(a + b, a - b)`. */
  lemma SumStep(x: seq<real>, level: nat, group: nat, j: nat)
    requires level >= 2 && level % 2 == 0 && group + level <= |x| && j < level / 2
    ensures var position, opposite := group + j, group + level / 2 + j;
      SummedUpTo(x, level, group, j)[position] == x[position]
      && SummedUpTo(x, level, group, j)[opposite] == x[opposite]
      && SummedUpTo(x, level, group, j + 1)
         == SummedUpTo(x, level, group, j)[position := x[position] + x[opposite]][opposite := x[position] - x[opposite]]
  {
    var half := level / 2;
    assert level == 2 * half;
    var position, opposite := group + j, group + half + j;
    var y := SummedUpTo(x, level, group, j);
    assert !Summed(level, j, j) && !Summed(level, j, half + j);
    assert y[position] == x[position] && y[opposite] == x[opposite];
    var y' := SummedUpTo(x, level, group, j + 1);
    var z := y[position := x[position] + x[opposite]][opposite := x[position] - x[opposite]];
    forall idx | 0 <= idx < |x|
      ensures y'[idx] == z[idx]
    {
      if idx == position {
        assert Summed(level, j + 1, j);
      } else if idx == opposite {
        assert Summed(level, j + 1, half + j);
      } else if group <= idx < group + level {
        assert Summed(level, j + 1, idx - group) == Summed(level, j, idx - group);
      }
    }
  }

  /** Before the first pair nothing is summed. */
  lemma SumStart(x: seq<real>, level: nat, group: nat)
    requires level >= 2 && level % 2 == 0 && group + level <= |x|
    ensures SummedUpTo(x, level, group, 0) == x
  {
    var y := SummedUpTo(x, level, group, 0);
    forall idx | 0 <= idx < |x|
      ensures y[idx] == x[idx]
    {
      if group <= idx < group + level {
        assert !Summed(level, 0, idx - group);
      }
    }
  }

  /** The sum/difference loop of the group at `group`. */
  method SumDiffGroup(values: array<real>, level: nat, group: nat)
    requires level >= 2 && level % 2 == 0 && group + level <= values.Length
    modifies values
    ensures values[..] == SummedUpTo(old(values[..]), level, group, level / 2)
  {
    ghost var x := values[..];
    SumStart(x, level, group);
    var position := group;
    var opposite := group + level / 2;
    while opposite < group + level
      invariant group <= position && opposite == position + level / 2 && opposite <= group + level
      invariant values[..] == SummedUpTo(x, level, group, position - group)
      decreases group + level - opposite
    {
      SumStep(x, level, group, position - group);
      var a := values[position];
      var b := values[opposite];
      values[position] := a + b;
      values[opposite] := a - b;
      position := position + 1;
      opposite := opposite + 1;
    }
  }

  // ---------------------------------------------------------------------
  // One level: every group in turn.

  /** The sequence after the groups below `group` of one level are done. */
  function LevelUpTo(x: seq<real>, tab: HartleyTable, level: nat, scale: nat, group: nat): (y: seq<real>)
    requires LevelShape(|x|, level, scale, tab)
    ensures |y| == |x|
  {
    seq(|x|, idx requires 0 <= idx < |x| => if idx < group then Level(x, tab, level, scale)[idx] else x[idx])
  }

  /** Rotating the group at `group` of a partly done level gives that group of `Rotate(x)`. */
  lemma RotatedGroupAgrees(x: seq<real>, z: seq<real>, tab: HartleyTable, level: nat, scale: nat, group: nat)
    requires LevelShape(|x|, level, scale, tab) && group % level == 0 && group + level <= |x|
    requires z == LevelUpTo(x, tab, level, scale, group)
    ensures forall k :: group <= k < group + level ==>
      RotateGroupValues(z, tab, level, scale, group)[k] == Rotate(x, tab, level, scale)[k]
  {
    forall k | group <= k < group + level
      ensures RotateGroupValues(z, tab, level, scale, group)[k] == Rotate(x, tab, level, scale)[k]
    {
      RotateInGroupLocal(z, x, tab, level, scale, group, k - group);
      LevelInGroup(x, tab, level, scale, group, k - group);
    }
  }

  /** Both loops of the group at `group` extend a partly done level by that group. */
  lemma LevelGroupStep(x: seq<real>, z: seq<real>, tab: HartleyTable, level: nat, scale: nat, group: nat)
    requires LevelShape(|x|, level, scale, tab) && group % level == 0 && group + level <= |x|
    requires z == LevelUpTo(x, tab, level, scale, group)
    ensures SummedUpTo(RotateGroupValues(z, tab, level, scale, group), level, group, level / 2)
         == LevelUpTo(x, tab, level, scale, group + level)
  {
    var r := RotateGroupValues(z, tab, level, scale, group);
    var y := SummedUpTo(r, level, group, level / 2);
    var y' := LevelUpTo(x, tab, level, scale, group + level);
    RotatedGroupAgrees(x, z, tab, level, scale, group);
    forall idx | 0 <= idx < |x|
      ensures y[idx] == y'[idx]
    {
      if group <= idx < group + level {
        LevelGroupStepAt(x, r, tab, level, scale, group, idx - group);
      }
    }
  }

  /** Offset `o` of the group: the sum or difference of the rotated group is the level's value. */
  lemma LevelGroupStepAt(x: seq<real>, r: seq<real>, tab: HartleyTable, level: nat, scale: nat, group: nat, o: nat)
    requires LevelShape(|x|, level, scale, tab) && group % level == 0 && group + level <= |x| && o < level
    requires |r| == |x| && forall k :: group <= k < group + level ==> r[k] == Rotate(x, tab, level, scale)[k]
    ensures SummedUpTo(r, level, group, level / 2)[group + o] == Level(x, tab, level, scale)[group + o]
  {
    var rotated := Rotate(x, tab, level, scale);
    assert Summed(level, level / 2, o);
    assert SummedUpTo(r, level, group, level / 2)[group + o] == SumDiffInGroup(r, level, group, o);
    SumDiffInGroupLocal(r, rotated, level, group, o);
    LevelInGroup(x, tab, level, scale, group, o);
  }

  /** One level of the ladder: for every group, the rotation loop, then the sum/difference loop. */
  method LevelPass(values: array<real>, c: array<real>, s: array<real>, level: nat, scale: nat, ghost tab: HartleyTable)
    requires values != c && values != s && c[..] == tab.c && s[..] == tab.s
    requires LevelShape(values.Length, level, scale, tab)
    modifies values
    ensures values[..] == Level(old(values[..]), tab, level, scale)
  {
    ghost var x := values[..];
    ghost var q := 0;
    var group := 0;
    while group < values.Length
      invariant group == q * level && group <= values.Length
      invariant values[..] == LevelUpTo(x, tab, level, scale, group)
      decreases values.Length - group
    {
      DivModUnique(group, level, q, 0);
      GroupFits(group, level, values.Length);
      ghost var z := values[..];
      RotateGroup(values, c, s, level, scale, group, tab);
      SumDiffGroup(values, level, group);
      LevelGroupStep(x, z, tab, level, scale, group);
      group := group + level;
      q := q + 1;
    }
    assert values[..] == Level(x, tab, level, scale);
  }

  /**
   * The ladder: levels `2, 4, ...` up to the length, `scale` halving at
   * each level, so that `level * scale` stays equal to the length.
   */
  method Levels(values: array<real>, c: array<real>, s: array<real>, initialScale: nat, ghost tab: HartleyTable)
    requires values != c && values != s && c[..] == tab.c && s[..] == tab.s
    requires LadderState(values.Length, 2, initialScale, tab)
    modifies values
    ensures values[..] == Ladder(old(values[..]), tab, 2, initialScale)
  {
    ghost var x := values[..];
    var level := 2;
    var scale := initialScale;
    while level <= values.Length
      invariant LadderState(values.Length, level, scale, tab)
      invariant Ladder(values[..], tab, level, scale) == Ladder(x, tab, 2, initialScale)
      decreases values.Length - level
    {
      LadderStateShape(values.Length, level, scale, tab);
      LadderStateNext(values.Length, level, scale, tab);
      LevelPass(values, c, s, level, scale, tab);
      level := 2 * level;
      scale := scale / 2;
    }
  }

  /**
   * `perform_fht` with the intended table: the values are transformed in
   * place and returned divided by `sqrt(n)` as complex numbers with a zero
   * imaginary part.
   */
  method PerformFht(values: array<real>, libm: Libm) returns (output: seq<Complex>)
    requires values.Length == 0 || IsPowerOfTwo(values.Length)
    requires values.Length == 0 || libm.sqrt(values.Length as real) != 0.0
    modifies values
    ensures values[..] == Fht(old(values[..]), TableFor(libm, values.Length))
    ensures output == FromReals(FhtOutput(old(values[..]), libm))
  {
    var n := values.Length;
    var sqrtLength := libm.sqrt(n as real);
    var c, s := BuildTable(libm, n);
    var scale := InitialScale(n);
    ghost var tab := TableFor(libm, n);
    Pow2IsPowerOfTwo(1);
    Levels(values, c, s, scale, tab);
    output := [];
    var i := 0;
    while i < n
      invariant 0 <= i <= n && |output| == i
      invariant forall m :: 0 <= m < i ==> output[m] == Complex(values[m] / sqrtLength, 0.0)
    {
      output := output + [Complex(values[i] / sqrtLength, 0.0)];
      i := i + 1;
    }
  }
}
