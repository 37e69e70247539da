/**
 The 16-word core `salsa20_8` of the seed cache: four double rounds on a copy of the input,
 then a word-by-word addition back into the input.

 The rounds are one step, "mix two words and xor into a third", repeated 128 times.  The
 schedule of steps is data here, so that what is proved holds of any schedule: every step
 undoes itself, hence the rounds before the feed-forward are a bijection.  The row round is
 that of section 3 of RFC 7914.  The column round is not: it is the column round of the RFC
 seen through a rotation of each column (`ColumnRoundIsShiftedRfc`).
 */
module Salsa {
  import opened Words

  type Block = b: seq<word> | |b| == 16 witness seq(16, _ => 0)
  type Core = Block -> Block

  /** The value xored in, as a function of two other words. */
  type Mixer = (word, word) -> word

  /** y[t] ^= mix(y[p], y[q]) */
  datatype Arx = Arx(t: nat, p: nat, q: nat, mix: Mixer) {
    ghost predicate Valid() {
      t < 16 && p < 16 && q < 16 && t != p && t != q
    }
  }

  ghost predicate ValidSteps(steps: seq<Arx>) {
    forall i :: 0 <= i < |steps| ==> steps[i].Valid()
  }

  ghost function Step(s: Block, x: Arx): Block
    requires x.Valid()
  {
    s[x.t := Exor(s[x.t], x.mix(s[x.p], s[x.q]))]
  }

  ghost function Apply(s: Block, steps: seq<Arx>): Block
    requires ValidSteps(steps)
  {
    if |steps| == 0 then s
    else Step(Apply(s, steps[..|steps| - 1]), steps[|steps| - 1])
  }

  /** rotl(a + b, n) */
  ghost function AddRotate(n: word): Mixer
    requires n <= 32
  {
    (a, b) => Rotl(Plus(a, b), n)
  }

  ghost predicate Distinct(a: nat, b: nat, c: nat, d: nat) {
    a < 16 && b < 16 && c < 16 && d < 16 && a != b && a != c && a != d && b != c && b != d && c != d
  }

  ghost function QuarterRound(a: nat, b: nat, c: nat, d: nat): (steps: seq<Arx>)
    requires Distinct(a, b, c, d)
    ensures ValidSteps(steps)
  {
    [Arx(b, a, d, AddRotate(7)), Arx(c, b, a, AddRotate(9)), Arx(d, c, b, AddRotate(13)), Arx(a, d, c, AddRotate(18))]
  }

  ghost function ColumnRound(): (steps: seq<Arx>)
    ensures ValidSteps(steps)
  {
    QuarterRound(8, 12, 0, 4) + QuarterRound(9, 13, 1, 5) + QuarterRound(10, 14, 2, 6) + QuarterRound(11, 15, 3, 7)
  }

  ghost function RowRound(): (steps: seq<Arx>)
    ensures ValidSteps(steps)
  {
    QuarterRound(0, 1, 2, 3) + QuarterRound(5, 6, 7, 4) + QuarterRound(10, 11, 8, 9) + QuarterRound(15, 12, 13, 14)
  }

  ghost function DoubleRounds(n: nat): (steps: seq<Arx>)
    ensures ValidSteps(steps)
  {
    if n == 0 then [] else DoubleRounds(n - 1) + (ColumnRound() + RowRound())
  }

  function AddWords(x: Block, y: Block): Block {
    seq(16, i requires 0 <= i < 16 => Plus(x[i], y[i]))
  }

  ghost function Salsa208(x: Block): Block {
    AddWords(x, Apply(x, DoubleRounds(4)))
  }

  lemma {:induction false} ScheduleLength(n: nat)
    ensures |DoubleRounds(n)| == 32 * n
  {
    if n > 0 {
      ScheduleLength(n - 1);
    }
  }

  /** The core adds the input to 128 steps of it, word by word. */
  lemma FeedForward(x: Block, i: nat)
    requires i < 16
    ensures |DoubleRounds(4)| == 128 && Salsa208(x)[i] == Plus(x[i], Apply(x, DoubleRounds(4))[i])
  {
    ScheduleLength(4);
  }

  lemma {:induction false} ApplyConcat(s: Block, u: seq<Arx>, v: seq<Arx>)
    requires ValidSteps(u) && ValidSteps(v)
    ensures Apply(s, u + v) == Apply(Apply(s, u), v)
  {
    if |v| == 0 {
      assert u + v == u;
    } else {
      assert (u + v)[..|u + v| - 1] == u + v[..|v| - 1];
      ApplyConcat(s, u, v[..|v| - 1]);
    }
  }

  // ---- The rounds are a bijection ----

  ghost function Reversed(steps: seq<Arx>): (r: seq<Arx>)
    requires ValidSteps(steps)
    ensures ValidSteps(r)
  {
    if |steps| == 0 then [] else [steps[|steps| - 1]] + Reversed(steps[..|steps| - 1])
  }

  lemma StepUndoesItself(s: Block, x: Arx)
    requires x.Valid()
    ensures Step(Step(s, x), x) == s
  {
    var k := x.mix(s[x.p], s[x.q]);
    ExorTwice(s[x.t], k);
  }

  lemma ApplyOne(s: Block, x: Arx)
    requires x.Valid()
    ensures ValidSteps([x]) && Apply(s, [x]) == Step(s, x)
  {
    assert [x][..0] == [];
    assert Apply(s, []) == s;
  }

  /** Any schedule of valid steps, run forwards and then backwards, restores every state. */
  lemma {:induction false} BackwardsRestores(s: Block, steps: seq<Arx>)
    requires ValidSteps(steps)
    ensures Apply(Apply(s, steps), Reversed(steps)) == s
  {
    if |steps| > 0 {
      var front, x := steps[..|steps| - 1], steps[|steps| - 1];
      var mid := Apply(s, front);
      ApplyConcat(Step(mid, x), [x], Reversed(front));
      ApplyOne(Step(mid, x), x);
      StepUndoesItself(mid, x);
      BackwardsRestores(s, front);
    }
  }

  lemma {:induction false} ForwardsRestores(s: Block, steps: seq<Arx>)
    requires ValidSteps(steps)
    ensures Apply(Apply(s, Reversed(steps)), steps) == s
    decreases |steps|
  {
    if |steps| > 0 {
      var front, x := steps[..|steps| - 1], steps[|steps| - 1];
      ApplyConcat(s, [x], Reversed(front));
      ApplyOne(s, x);
      ForwardsRestores(Step(s, x), front);
      StepUndoesItself(s, x);
    }
  }

  /** The four double rounds before the feed-forward are a bijection on 16-word states. */
  lemma RoundsBijective(s: Block)
    ensures Apply(Apply(s, DoubleRounds(4)), Reversed(DoubleRounds(4))) == s
    ensures Apply(Apply(s, Reversed(DoubleRounds(4))), DoubleRounds(4)) == s
  {
    BackwardsRestores(s, DoubleRounds(4));
    ForwardsRestores(s, DoubleRounds(4));
  }

  // ---- Relation to section 3 of RFC 7914 ----

  ghost function RfcColumnRound(): (steps: seq<Arx>)
    ensures ValidSteps(steps)
  {
    QuarterRound(0, 4, 8, 12) + QuarterRound(5, 9, 13, 1) + QuarterRound(10, 14, 2, 6) + QuarterRound(15, 3, 7, 11)
  }

  /** A way of naming the 16 places. */
  type Naming = nat -> nat

  ghost predicate Permutes(f: Naming) {
    && (forall i: nat :: i < 16 ==> f(i) < 16)
    && (forall i: nat, j: nat :: i < 16 && j < 16 && f(i) == f(j) ==> i == j)
  }

  ghost function Renamed(s: Block, f: Naming): Block
    requires Permutes(f)
  {
    seq(16, i requires 0 <= i < 16 => s[f(i)])
  }

  ghost function RenameStep(x: Arx, f: Naming): (y: Arx)
    requires x.Valid() && Permutes(f)
    ensures y.Valid()
  {
    Arx(f(x.t), f(x.p), f(x.q), x.mix)
  }

  ghost function RenameSteps(steps: seq<Arx>, f: Naming): (r: seq<Arx>)
    requires ValidSteps(steps) && Permutes(f)
    ensures |r| == |steps| && ValidSteps(r)
    ensures forall i :: 0 <= i < |r| ==> r[i] == RenameStep(steps[i], f)
  {
    seq(|steps|, i requires 0 <= i < |steps| => RenameStep(steps[i], f))
  }

  lemma RenameOneStep(s: Block, x: Arx, f: Naming)
    requires x.Valid() && Permutes(f)
    ensures Renamed(Step(s, RenameStep(x, f)), f) == Step(Renamed(s, f), x)
  {
  }

  lemma {:induction false} RenameApply(s: Block, steps: seq<Arx>, f: Naming)
    requires ValidSteps(steps) && Permutes(f)
    ensures Renamed(Apply(s, RenameSteps(steps, f)), f) == Apply(Renamed(s, f), steps)
  {
    if |steps| > 0 {
      var front, x := steps[..|steps| - 1], steps[|steps| - 1];
      var r := RenameSteps(steps, f);
      assert r[..|steps| - 1] == RenameSteps(front, f);
      RenameApply(s, front, f);
      RenameOneStep(Apply(s, RenameSteps(front, f)), x, f);
    }
  }

  /** Column c moves up by 2 - c places. */
  ghost function ShiftColumns(): Naming {
    i => i % 4 + 4 * ((i / 4 + 6 - i % 4) % 4)
  }

  lemma SameColumn(c: nat, r: nat, d: nat, s: nat)
    requires c < 4 && d < 4 && c + 4 * r == d + 4 * s
    ensures c == d && r == s
  {
  }

  lemma SameRow(r: nat, s: nat, k: nat)
    requires r < 4 && s < 4 && (r + k) % 4 == (s + k) % 4
    ensures r == s
  {
  }

  lemma ShiftPermutes()
    ensures Permutes(ShiftColumns())
  {
    var f := ShiftColumns();
    forall i: nat, j: nat | i < 16 && j < 16 && f(i) == f(j)
      ensures i == j
    {
      SameColumn(i % 4, (i / 4 + 6 - i % 4) % 4, j % 4, (j / 4 + 6 - j % 4) % 4);
      SameRow(i / 4, j / 4, 6 - i % 4);
    }
  }

  lemma ShiftedQuarter(a: nat, b: nat, c: nat, d: nat, f: Naming)
    requires Distinct(a, b, c, d) && Permutes(f)
    ensures Distinct(f(a), f(b), f(c), f(d))
    ensures RenameSteps(QuarterRound(a, b, c, d), f) == QuarterRound(f(a), f(b), f(c), f(d))
  {
  }

  lemma RenameFour(a: seq<Arx>, b: seq<Arx>, c: seq<Arx>, d: seq<Arx>, f: Naming)
    requires ValidSteps(a) && ValidSteps(b) && ValidSteps(c) && ValidSteps(d) && Permutes(f)
    ensures RenameSteps(a + b + c + d, f)
         == RenameSteps(a, f) + RenameSteps(b, f) + RenameSteps(c, f) + RenameSteps(d, f)
  {
  }

  /** Rows for columns. */
  ghost function Transposed(): Naming {
    i => 4 * (i % 4) + i / 4
  }

  /** The places of the RFC's column round in the transposed square. */
  ghost predicate IsTransposition(f: Naming) {
    && Permutes(f)
    && f(0) == 0 && f(4) == 1 && f(8) == 2 && f(12) == 3
    && f(5) == 5 && f(9) == 6 && f(13) == 7 && f(1) == 4
    && f(10) == 10 && f(14) == 11 && f(2) == 8 && f(6) == 9
    && f(15) == 15 && f(3) == 12 && f(7) == 13 && f(11) == 14
  }

  lemma TransposedApart(i: nat, j: nat)
    requires i < 16 && j < 16 && 4 * (i % 4) + i / 4 == 4 * (j % 4) + j / 4
    ensures i == j
  {
    SameColumn(i / 4, i % 4, j / 4, j % 4);
  }

  lemma TransposedPermutes()
    ensures Permutes(Transposed())
  {
    forall i: nat, j: nat | i < 16 && j < 16 && Transposed()(i) == Transposed()(j)
      ensures i == j
    {
      TransposedApart(i, j);
    }
  }

  lemma TransposedIsTransposition()
    ensures IsTransposition(Transposed())
  {
    TransposedPermutes();
  }

  lemma RowRoundRenamed(f: Naming)
    requires IsTransposition(f)
    ensures RenameSteps(RfcColumnRound(), f) == RowRound()
  {
    ShiftedQuarter(0, 4, 8, 12, f);
    ShiftedQuarter(5, 9, 13, 1, f);
    ShiftedQuarter(10, 14, 2, 6, f);
    ShiftedQuarter(15, 3, 7, 11, f);
    RenameFour(QuarterRound(0, 4, 8, 12), QuarterRound(5, 9, 13, 1), QuarterRound(10, 14, 2, 6),
               QuarterRound(15, 3, 7, 11), f);
  }

  lemma RowRoundConjugated(s: Block, f: Naming)
    requires IsTransposition(f)
    ensures Renamed(Apply(s, RowRound()), f) == Apply(Renamed(s, f), RfcColumnRound())
  {
    RowRoundRenamed(f);
    RenameApply(s, RfcColumnRound(), f);
  }

  /** The row round of the code is that of the RFC: its column round on the transposed square. */
  lemma RowRoundIsTransposedRfc(s: Block)
    ensures Permutes(Transposed())
    ensures Renamed(Apply(s, RowRound()), Transposed()) == Apply(Renamed(s, Transposed()), RfcColumnRound())
  {
    TransposedIsTransposition();
    RowRoundConjugated(s, Transposed());
  }

  /** The places of the RFC's column round, and where f finds them. */
  ghost predicate IsShift(f: Naming) {
    && Permutes(f)
    && f(0) == 8 && f(4) == 12 && f(8) == 0 && f(12) == 4
    && f(5) == 9 && f(9) == 13 && f(13) == 1 && f(1) == 5
    && f(10) == 10 && f(14) == 14 && f(2) == 2 && f(6) == 6
    && f(15) == 11 && f(3) == 15 && f(7) == 3 && f(11) == 7
  }

  lemma ShiftFirst()
    ensures var f := ShiftColumns(); f(0) == 8 && f(4) == 12 && f(8) == 0 && f(12) == 4
  {
  }

  lemma ShiftSecond()
    ensures var f := ShiftColumns(); f(5) == 9 && f(9) == 13 && f(13) == 1 && f(1) == 5
  {
  }

  lemma ShiftThird()
    ensures var f := ShiftColumns(); f(10) == 10 && f(14) == 14 && f(2) == 2 && f(6) == 6
  {
  }

  lemma ShiftFourth()
    ensures var f := ShiftColumns(); f(15) == 11 && f(3) == 15 && f(7) == 3 && f(11) == 7
  {
  }

  lemma ShiftIsShift()
    ensures IsShift(ShiftColumns())
  {
    ShiftPermutes();
    ShiftFirst();
    ShiftSecond();
    ShiftThird();
    ShiftFourth();
  }

  lemma ColumnRoundRenamed(f: Naming)
    requires IsShift(f)
    ensures RenameSteps(RfcColumnRound(), f) == ColumnRound()
  {
    ShiftedQuarter(0, 4, 8, 12, f);
    ShiftedQuarter(5, 9, 13, 1, f);
    ShiftedQuarter(10, 14, 2, 6, f);
    ShiftedQuarter(15, 3, 7, 11, f);
    RenameFour(QuarterRound(0, 4, 8, 12), QuarterRound(5, 9, 13, 1), QuarterRound(10, 14, 2, 6),
               QuarterRound(15, 3, 7, 11), f);
  }

  lemma ColumnRoundConjugated(s: Block, f: Naming)
    requires IsShift(f)
    ensures Renamed(Apply(s, ColumnRound()), f) == Apply(Renamed(s, f), RfcColumnRound())
  {
    ColumnRoundRenamed(f);
    RenameApply(s, RfcColumnRound(), f);
  }

  /**
   The column round of the code is the column round of the RFC, conjugated by `ShiftColumns`.
   */
  lemma ColumnRoundIsShiftedRfc(s: Block)
    ensures Permutes(ShiftColumns())
    ensures Renamed(Apply(s, ColumnRound()), ShiftColumns()) == Apply(Renamed(s, ShiftColumns()), RfcColumnRound())
  {
    ShiftIsShift();
    ColumnRoundConjugated(s, ShiftColumns());
  }

  lemma {:induction false} UntouchedPlace(s: Block, steps: seq<Arx>, k: nat)
    requires ValidSteps(steps) && k < 16
    requires forall i :: 0 <= i < |steps| ==> steps[i].t != k
    ensures Apply(s, steps)[k] == s[k]
  {
    if |steps| > 0 {
      UntouchedPlace(s, steps[..|steps| - 1], k);
    }
  }

  lemma QuarterValues(s: Block, a: nat, b: nat, c: nat, d: nat)
    requires Distinct(a, b, c, d)
    ensures var b1 := Exor(s[b], Rotl(Plus(s[a], s[d]), 7));
            var c1 := Exor(s[c], Rotl(Plus(b1, s[a]), 9));
            var d1 := Exor(s[d], Rotl(Plus(c1, b1), 13));
            var a1 := Exor(s[a], Rotl(Plus(d1, c1), 18));
            Apply(s, QuarterRound(a, b, c, d)) == s[b := b1][c := c1][d := d1][a := a1]
  {
    var q := QuarterRound(a, b, c, d);
    assert q[..3][..2] == q[..2] && q[..2][..1] == q[..1] && q[..1][..0] == [];
    assert Apply(s, q[..1]) == Step(Apply(s, []), q[0]);
    assert Apply(s, q[..2]) == Step(Apply(s, q[..1]), q[1]);
    assert Apply(s, q[..3]) == Step(Apply(s, q[..2]), q[2]);
    assert Apply(s, q) == Step(Apply(s, q[..3]), q[3]);
  }

  lemma OneThrough()
    ensures Exor(0, Rotl(Plus(0, 0), 7)) == 0 && Exor(1, Rotl(Plus(0, 0), 9)) == 1
    ensures Exor(0, Rotl(Plus(1, 0), 13)) == 8192 && Exor(0, Rotl(Plus(1, 0), 7)) == 128
  {
  }

  /** Place 4 after a round whose first quarter is q and whose other quarters leave it alone. */
  lemma FirstQuarterDecides(s: Block, q: seq<Arx>, rest: seq<Arx>)
    requires ValidSteps(q) && ValidSteps(rest) && forall i :: 0 <= i < |rest| ==> rest[i].t != 4
    ensures Apply(s, q + rest)[4] == Apply(s, q)[4]
  {
    ApplyConcat(s, q, rest);
    UntouchedPlace(Apply(s, q), rest, 4);
  }

  lemma MinePlaceFour(s: Block)
    requires s[0] == 1 && s[4] == s[8] == s[12] == 0
    ensures Apply(s, ColumnRound())[4] == 8192
  {
    var q := QuarterRound(8, 12, 0, 4);
    var rest := QuarterRound(9, 13, 1, 5) + QuarterRound(10, 14, 2, 6) + QuarterRound(11, 15, 3, 7);
    assert ColumnRound() == q + rest;
    FirstQuarterDecides(s, q, rest);
    QuarterValues(s, 8, 12, 0, 4);
    OneThrough();
  }

  lemma RfcPlaceFour(s: Block)
    requires s[0] == 1 && s[4] == s[8] == s[12] == 0
    ensures Apply(s, RfcColumnRound())[4] == 128
  {
    var q := QuarterRound(0, 4, 8, 12);
    var rest := QuarterRound(5, 9, 13, 1) + QuarterRound(10, 14, 2, 6) + QuarterRound(15, 3, 7, 11);
    assert RfcColumnRound() == q + rest;
    FirstQuarterDecides(s, q, rest);
    QuarterValues(s, 0, 4, 8, 12);
    OneThrough();
  }

  /** A state on which the column round of the code and that of the RFC differ: a one in place 0. */
  lemma ColumnRoundIsNotRfc(s: Block)
    requires s[0] == 1 && s[4] == s[8] == s[12] == 0
    ensures Apply(s, ColumnRound())[4] == 8192 && Apply(s, RfcColumnRound())[4] == 128
  {
    MinePlaceFour(s);
    RfcPlaceFour(s);
  }

  // ---- The method ----

  lemma ApplyFour(s: Block, x0: Arx, x1: Arx, x2: Arx, x3: Arx)
    requires ValidSteps([x0, x1, x2, x3])
    ensures x0.Valid() && x1.Valid() && x2.Valid() && x3.Valid()
    ensures Apply(s, [x0, x1, x2, x3]) == Step(Step(Step(Step(s, x0), x1), x2), x3)
  {
    var q := [x0, x1, x2, x3];
    assert q[0].Valid() && q[1].Valid() && q[2].Valid() && q[3].Valid();
    assert q == [x0] + [x1] + [x2] + [x3];
    ApplyConcat(s, [x0] + [x1] + [x2], [x3]);
    ApplyConcat(s, [x0] + [x1], [x2]);
    ApplyConcat(s, [x0], [x1]);
    ApplyOne(s, x0);
    ApplyOne(Step(s, x0), x1);
    ApplyOne(Step(Step(s, x0), x1), x2);
    ApplyOne(Step(Step(Step(s, x0), x1), x2), x3);
  }

  /** One group of four assignments of the round body. */
  method Quarter(y: array<word>, a: nat, b: nat, c: nat, d: nat)
    requires y.Length == 16 && Distinct(a, b, c, d)
    modifies y
    ensures y[..] == Apply(old(y[..]), QuarterRound(a, b, c, d))
  {
    ghost var q := QuarterRound(a, b, c, d);
    ApplyFour(y[..], q[0], q[1], q[2], q[3]);
    assert q == [q[0], q[1], q[2], q[3]];
    ghost var s: Block := y[..];
    y[b] := Exor(y[b], Rotl(Plus(y[a], y[d]), 7));
    assert y[..] == Step(s, q[0]);
    y[c] := Exor(y[c], Rotl(Plus(y[b], y[a]), 9));
    assert y[..] == Step(Step(s, q[0]), q[1]);
    y[d] := Exor(y[d], Rotl(Plus(y[c], y[b]), 13));
    assert y[..] == Step(Step(Step(s, q[0]), q[1]), q[2]);
    y[a] := Exor(y[a], Rotl(Plus(y[d], y[c]), 18));
  }

  /** The core, in place: the result overwrites `x`. */
  method SalsaCore(x: array<word>)
    requires x.Length == 16
    modifies x
    ensures x[..] == Salsa208(old(x[..]))
  {
    ghost var x0: Block := x[..];
    var y := new word[16];
    forall i | 0 <= i < 16 { y[i] := x[i]; }
    assert x[..] == x0 && y[..] == x0;
    Rounds(y);
    assert x[..] == x0;
    AddInto(x, y);
  }

  method Rounds(y: array<word>)
    requires y.Length == 16
    modifies y
    ensures y[..] == Apply(old(y[..]), DoubleRounds(4))
  {
    ghost var x0: Block := y[..];
    for i := 0 to 4
      invariant y[..] == Apply(x0, DoubleRounds(i))
    {
      DoubleRound(y);
      ApplyConcat(x0, DoubleRounds(i), ColumnRound() + RowRound());
    }
  }

  /** The feed-forward. */
  method AddInto(x: array<word>, y: array<word>)
    requires x.Length == y.Length == 16 && x != y
    modifies x
    ensures x[..] == AddWords(old(x[..]), old(y[..]))
  {
    for i := 0 to 16
      invariant forall k :: 0 <= k < i ==> x[k] == Plus(old(x[k]), y[k])
      invariant forall k :: i <= k < 16 ==> x[k] == old(x[k])
    {
      x[i] := Plus(x[i], y[i]);
    }
  }

  lemma ApplyFourLists(s: Block, a: seq<Arx>, b: seq<Arx>, c: seq<Arx>, d: seq<Arx>)
    requires ValidSteps(a) && ValidSteps(b) && ValidSteps(c) && ValidSteps(d)
    ensures Apply(s, a + b + c + d) == Apply(Apply(Apply(Apply(s, a), b), c), d)
  {
    ApplyConcat(s, a, b);
    ApplyConcat(s, a + b, c);
    ApplyConcat(s, a + b + c, d);
  }

  /** The body of the round loop: the column round, then the row round. */
  method DoubleRound(y: array<word>)
    requires y.Length == 16
    modifies y
    ensures y[..] == Apply(old(y[..]), ColumnRound() + RowRound())
  {
    ghost var s: Block := y[..];
    Quarter(y, 8, 12, 0, 4);
    Quarter(y, 9, 13, 1, 5);
    Quarter(y, 10, 14, 2, 6);
    Quarter(y, 11, 15, 3, 7);
    ghost var t: Block := y[..];
    ApplyFourLists(s, QuarterRound(8, 12, 0, 4), QuarterRound(9, 13, 1, 5), QuarterRound(10, 14, 2, 6),
                   QuarterRound(11, 15, 3, 7));
    assert t == Apply(s, ColumnRound());

    Quarter(y, 0, 1, 2, 3);
    Quarter(y, 5, 6, 7, 4);
    Quarter(y, 10, 11, 8, 9);
    Quarter(y, 15, 12, 13, 14);
    ApplyFourLists(t, QuarterRound(0, 1, 2, 3), QuarterRound(5, 6, 7, 4), QuarterRound(10, 11, 8, 9),
                   QuarterRound(15, 12, 13, 14));
    ApplyConcat(s, ColumnRound(), RowRound());
  }
}
