/**
 `difficultyToTarget`, and what passing the target test means for a hash read as a number.
 */
module Target {
  import opened Bytes
  import opened Words

  const MAX_TARGET: int := 0xffff_ffff_ffff_ffff_ffff_ffff_ffff_ffff_ffff_ffff_ffff_ffff_ffff_ffff_ffff_ffff

  /** A `None` stands for a nil big integer. */
  function DifficultyToTarget(difficulty: Option<int>): int {
    if difficulty.None? || difficulty.value <= 0 then MAX_TARGET
    else
      var target := MAX_TARGET / difficulty.value;
      if target == 0 then 1 else target
  }

  /** The test of the nonce loop. */
  predicate Meets(hash: seq<byte>, difficulty: Option<int>) {
    BigNumber(hash) <= DifficultyToTarget(difficulty)
  }

  lemma QuotientTest(max: nat, d: nat, h: nat)
    requires d >= 1
    ensures h <= max / d <==> h * d <= max
  {
    var q := max / d;
    if h <= q {
      assert h * d <= q * d;
    } else {
      assert h * d >= (q + 1) * d;
    }
  }

  /**
   For every difficulty of at least 1, a hash passes exactly when hash * difficulty fits under the
   maximum, except for one hash: once the quotient is zero the target is raised to 1, and hash 1
   passes as well.
   */
  lemma TargetExact(d: nat, h: nat)
    requires d >= 1
    ensures h <= DifficultyToTarget(Some(d)) <==> h * d <= MAX_TARGET || (d > MAX_TARGET && h == 1)
    ensures d <= MAX_TARGET ==> (h <= DifficultyToTarget(Some(d)) <==> h * d <= MAX_TARGET)
  {
    QuotientTest(MAX_TARGET, d, h);
    QuotientPositive(MAX_TARGET, d);
    if d > MAX_TARGET {
      assert h * d <= MAX_TARGET <==> h == 0;
    }
  }

  /** The test of the nonce loop, exactly, for every difficulty a big integer can be. */
  lemma MeetsExact(hash: seq<byte>, difficulty: Option<int>)
    ensures var h := BigNumber(hash);
            Meets(hash, difficulty) <==>
              if difficulty.None? || difficulty.value <= 0 then h <= MAX_TARGET
              else h * difficulty.value <= MAX_TARGET || (difficulty.value > MAX_TARGET && h == 1)
  {
    if difficulty.Some? && difficulty.value >= 1 {
      TargetExact(difficulty.value, BigNumber(hash));
    }
  }

  lemma QuotientPositive(max: nat, d: nat)
    requires d >= 1
    ensures max / d == 0 <==> d > max
    ensures max / d <= max
  {
    QuotientTest(max, d, 1);
    QuotientTest(max, d, max / d);
    assert (max / d) * d >= max / d;
  }

  /** A higher difficulty never has a higher target, also past the point where the quotient is zero. */
  lemma TargetAntitone(d: int, e: int)
    requires d <= e
    ensures DifficultyToTarget(Some(d)) >= DifficultyToTarget(Some(e))
  {
    if d >= 1 {
      var q := MAX_TARGET / e;
      QuotientTest(MAX_TARGET, e, q);
      assert q * d <= q * e;
      QuotientTest(MAX_TARGET, d, q);
      QuotientPositive(MAX_TARGET, d);
    } else if e >= 1 {
      QuotientPositive(MAX_TARGET, e);
    }
  }

  lemma TargetInRange(d: Option<int>)
    ensures 1 <= DifficultyToTarget(d) <= MAX_TARGET
  {
    if d.Some? && d.value >= 1 {
      QuotientPositive(MAX_TARGET, d.value);
    }
  }
}
