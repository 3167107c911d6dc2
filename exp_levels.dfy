/**
 * Level arithmetic of the experience system: `convert_exp_to_level`,
 * `convert_level_to_exp` and the derived "next level" and "left" values.
 *
 * `int(sqrt(exp) / 1.5 - 1)` is characterised with integers only:
 * sqrt(exp) / 1.5 >= k holds exactly when 9 k^2 <= 4 exp.
 */
module Levels {

  function Sq(n: int): int
  {
    n * n
  }

  /** floor(sqrt(exp) / 1.5): the largest k >= 0 with 9 k^2 <= 4 exp. */
  function Steps(exp: nat): (k: nat)
    ensures 9 * Sq(k) <= 4 * exp < 9 * Sq(k + 1)
  {
    if exp == 0 then 0
    else
      var k := Steps(exp - 1);
      if 9 * Sq(k + 1) <= 4 * exp then
        assert Sq(k + 2) == Sq(k + 1) + 2 * k + 3;
        k + 1
      else
        k
  }

  /**
   * `convert_exp_to_level`: `int(...)` truncates toward zero, so the value
   * sqrt(exp) / 1.5 - 1, which lies in (-1, 0) for exp 1 and 2, becomes 0;
   * only exp 0 gives exactly -1.0. For exp >= 1 the level is
   * max(0, the largest L with 9 (L + 1)^2 <= 4 exp).
   */
  function ExpToLevel(exp: nat): (level: int)
    ensures exp == 0 ==> level == -1
    ensures exp > 0 ==> level >= 0 && (level == 0 || 9 * Sq(level + 1) <= 4 * exp)
    ensures 4 * exp < 9 * Sq(level + 2)
  {
    var k := Steps(exp);
    if k >= 1 then k - 1    // sqrt(exp) / 1.5 - 1 >= 0: truncation is the floor
    else if exp == 0 then -1
    else 0                  // a value in (-1, 0) truncates to 0
  }

  lemma SquareLe(x: int, y: int)
    requires 0 <= x <= y
    ensures Sq(x) <= Sq(y)
  {
    assert x * x <= x * y;
    assert x * y <= y * y;
  }

  lemma SqStep(n: int)
    ensures Sq(n + 1) == Sq(n) + 2 * n + 1
  {
  }

  /** The bounds in ExpToLevel's contract pin the level down. */
  lemma LevelFromBounds(exp: nat, level: int)
    requires exp > 0 && level >= 0
    requires level == 0 || 9 * Sq(level + 1) <= 4 * exp
    requires 4 * exp < 9 * Sq(level + 2)
    ensures ExpToLevel(exp) == level
  {
    var m := ExpToLevel(exp);
    if m > level {
      SquareLe(level + 2, m + 1);
    } else if m < level {
      SquareLe(m + 2, level + 1);
    }
  }

  /** The level never decreases as experience grows. */
  lemma LevelMonotone(a: nat, b: nat)
    requires a <= b
    ensures ExpToLevel(a) <= ExpToLevel(b)
  {
    var la, lb := ExpToLevel(a), ExpToLevel(b);
    if a > 0 && la > lb {
      SquareLe(lb + 2, la + 1);
    }
  }

  /** Edge values: 0 gives -1, 1..8 give 0, 9 and 20 give 1. */
  lemma LevelSamples()
    ensures ExpToLevel(0) == -1
    ensures forall e: nat :: 1 <= e <= 8 ==> ExpToLevel(e) == 0
    ensures ExpToLevel(9) == 1 && ExpToLevel(20) == 1
  {
    forall e: nat | 1 <= e <= 8 ensures ExpToLevel(e) == 0 {
      LevelFromBounds(e, 0);
    }
    LevelFromBounds(9, 1);
    LevelFromBounds(20, 1);
  }

  /** The square of an integer, read as a real, is the square of the real. */
  lemma SqReal(n: int)
    ensures Sq(n) as real == n as real * n as real
  {
  }

  lemma ScaledSquare(x: real, y: real)
    requires y == x * x
    ensures (x * 1.5) * (x * 1.5) == 2.25 * y
  {
  }

  /** `convert_level_to_exp`: ((level + 1) * 1.5) ** 2, that is 9 (level + 1)^2 / 4. */
  function LevelToExp(level: int): (threshold: real)
    ensures threshold == (9 * Sq(level + 1)) as real / 4.0
  {
    var x := (level + 1) as real;
    SqReal(level + 1);
    ScaledSquare(x, Sq(level + 1) as real);
    (x * 1.5) * (x * 1.5)
  }

  /** The threshold grows strictly from level -1 on. */
  lemma ThresholdIncreasing(level: int)
    requires level >= -1
    ensures LevelToExp(level) < LevelToExp(level + 1)
  {
    assert Sq(level + 2) == Sq(level + 1) + 2 * level + 3;
  }

  /** The least whole experience that reaches LevelToExp(level): its ceiling. */
  function ThresholdExp(level: int): nat
  {
    (9 * Sq(level + 1) + 3) / 4
  }

  /** ThresholdExp is the ceiling of convert_level_to_exp. */
  lemma ThresholdExpIsCeiling(level: int)
    ensures (ThresholdExp(level) - 1) as real < LevelToExp(level) <= ThresholdExp(level) as real
  {
  }

  /** For level >= 1, the experience totals at that level are exactly one band of thresholds. */
  lemma {:induction false} LevelBand(exp: nat, level: int)
    requires level >= 1
    ensures ExpToLevel(exp) == level <==> ThresholdExp(level) <= exp < ThresholdExp(level + 1)
  {
    var lo := 9 * Sq(level + 1);
    var hi := 9 * Sq(level + 2);
    assert ThresholdExp(level) <= exp <==> lo <= 4 * exp;
    assert exp < ThresholdExp(level + 1) <==> 4 * exp < hi;
    if ThresholdExp(level) <= exp < ThresholdExp(level + 1) {
      LevelFromBounds(exp, level);
    }
  }

  /** Whole thresholds are strictly increasing too. */
  lemma ThresholdExpIncreasing(level: int)
    requires level >= -1
    ensures ThresholdExp(level) < ThresholdExp(level + 1)
  {
    assert Sq(level + 2) == Sq(level + 1) + 2 * level + 3;
  }

  /** Level L >= 0 is held at the ceiling of its threshold. */
  lemma ReachedAtThreshold(level: int)
    requires level >= 0
    ensures ExpToLevel(ThresholdExp(level)) == level
  {
    if level == 0 {
      assert ThresholdExp(0) == 3;
      LevelFromBounds(3, 0);
    } else {
      ThresholdExpIncreasing(level);
      LevelBand(ThresholdExp(level), level);
    }
  }

  /** For L >= 1, one exp below the ceiling of its threshold is still level L - 1. */
  lemma NotReachedBelowThreshold(level: int)
    requires level >= 1
    ensures ExpToLevel(ThresholdExp(level) - 1) == level - 1
  {
    if level == 1 {
      assert ThresholdExp(1) == 9;
      LevelFromBounds(8, 0);
    } else {
      var t := ThresholdExp(level);
      ThresholdExpIncreasing(level - 1);
      LevelBand(t - 1, level - 1);
    }
  }

  /** One message's roll (at most 6) raises the level by at most one. */
  lemma OneRollAtMostOneLevel(exp: nat, gain: nat)
    requires gain <= 6
    ensures ExpToLevel(exp + gain) <= ExpToLevel(exp) + 1
  {
    var l, m := ExpToLevel(exp), ExpToLevel(exp + gain);
    if m > l + 1 {
      assert l >= -1 && m >= 1 && exp + gain > 0;
      SquareLe(l + 3, m + 1);
      SqStep(l + 2);
      assert false;
    }
  }

  /** `exp_next_level`: the threshold of the level after the current one. */
  function NextLevelExp(exp: nat): (next: real)
    ensures exp as real < next
  {
    LevelToExp(ExpToLevel(exp) + 1)
  }

  /** `left`: `int(exp_next - exp)`, truncated toward zero. */
  function ExpLeft(exp: nat): (left: int)
    ensures 0 <= left
    ensures left == 9 * Sq(ExpToLevel(exp) + 2) / 4 - exp
    ensures exp + left <= ThresholdExp(ExpToLevel(exp) + 1) <= exp + left + 1
  {
    ThresholdExpIsCeiling(ExpToLevel(exp) + 1);
    FloorOfQuarter(9 * Sq(ExpToLevel(exp) + 2), exp);
    (NextLevelExp(exp) - exp as real).Floor
  }

  /** Taking away a whole number commutes with truncating a quarter. */
  lemma FloorOfQuarter(n: nat, e: int)
    ensures (n as real / 4.0 - e as real).Floor == n / 4 - e
  {
    var q, r := n / 4, n % 4;
    assert n as real / 4.0 - e as real == (q - e) as real + r as real / 4.0;
  }

  /**
   * For exp >= 1 the as-written `left` is one short of the corrected amount
   * exactly when the next threshold 9 (level + 2)^2 / 4 is not whole, and
   * equal to it otherwise.
   */
  lemma ExpLeftShortExactly(exp: nat)
    requires exp >= 1
    ensures ExpLeft(exp) == ExpToNextLevel(exp) - 1 <==> 9 * Sq(ExpToLevel(exp) + 2) % 4 != 0
    ensures ExpLeft(exp) == ExpToNextLevel(exp) <==> 9 * Sq(ExpToLevel(exp) + 2) % 4 == 0
  {
    var n := 9 * Sq(ExpToLevel(exp) + 2);
    assert ExpToNextLevel(exp) == ThresholdExp(ExpToLevel(exp) + 1) - exp;
    assert ThresholdExp(ExpToLevel(exp) + 1) == (n + 3) / 4;
  }

  /**
   * As written, `left` undercounts by one whenever the next threshold is not
   * whole: at 20 exp it reports 0 left, yet 20 exp is still level 1.
   */
  lemma ExpLeftUndercounts()
    ensures ExpLeft(20) == 0
    ensures ExpToLevel(20 + ExpLeft(20)) == ExpToLevel(20)
  {
    LevelFromBounds(20, 1);
    assert Sq(3) == 9;
  }

  /**
   * At 0 exp the as-written `left` errs the other way: it reports 2 left
   * (the threshold 2.25 truncated), yet 1 exp already reaches level 0.
   */
  lemma ExpLeftOvercountsAtZero()
    ensures ExpLeft(0) == 2
    ensures ExpToLevel(0) == -1 && ExpToLevel(1) == 0
    ensures ExpToNextLevel(0) == 1
  {
    LevelFromBounds(1, 0);
    assert LevelToExp(0) == 2.25;
  }

  /**
   * Corrected remaining experience: the least amount after which the level
   * goes up (level 0 is reached at exp 1, before ThresholdExp(0) = 3).
   */
  function ExpToNextLevel(exp: nat): (need: nat)
    ensures need >= 1
    ensures ExpToLevel(exp + need) == ExpToLevel(exp) + 1
    ensures ExpToLevel(exp + need - 1) == ExpToLevel(exp)
  {
    if exp == 0 then
      LevelFromBounds(1, 0);
      1
    else
      var level := ExpToLevel(exp);
      ReachedAtThreshold(level + 1);
      NotReachedBelowThreshold(level + 1);
      assert exp < ThresholdExp(level + 1);
      ThresholdExp(level + 1) - exp
  }

  /** With the corrected amount no smaller gain raises the level. */
  lemma ExpToNextLevelIsLeast(exp: nat, gain: nat)
    requires gain < ExpToNextLevel(exp)
    ensures ExpToLevel(exp + gain) == ExpToLevel(exp)
  {
    LevelMonotone(exp, exp + gain);
    LevelMonotone(exp + gain, exp + ExpToNextLevel(exp) - 1);
  }
}
