/**
 `blockMix`, against scryptBlockMix of section 4 of RFC 7914.  The specification takes the 16-word
 core as a parameter, so what is proved of it does not depend on the core; the methods use the core
 of the repository.
 */
module Scrypt {
  import opened Words
  import opened Salsa

  // ---- scryptBlockMix ----

  function BlockAt(x: seq<word>, i: nat): Block
    requires 16 * i + 16 <= |x|
  {
    x[16 * i..16 * i + 16]
  }

  /** Y[i] of section 4 of RFC 7914; Y[-1] is the last input block. */
  ghost function MixedBlock(core: Core, x: seq<word>, r: nat, i: int): Block
    requires 1 <= r && |x| == 32 * r && -1 <= i < 2 * r
    decreases i + 1
  {
    if i == -1 then BlockAt(x, 2 * r - 1) else core(Xor(MixedBlock(core, x, r, i - 1), BlockAt(x, i)))
  }

  ghost function Join(blocks: seq<Block>): (w: seq<word>)
    ensures |w| == 16 * |blocks|
  {
    if |blocks| == 0 then [] else Join(blocks[..|blocks| - 1]) + blocks[|blocks| - 1]
  }

  lemma {:induction false} JoinAt(blocks: seq<Block>, k: nat)
    requires k < |blocks|
    ensures Join(blocks)[16 * k..16 * k + 16] == blocks[k]
  {
    if k < |blocks| - 1 {
      var front := blocks[..|blocks| - 1];
      JoinAt(front, k);
      assert Join(blocks)[16 * k..16 * k + 16] == Join(front)[16 * k..16 * k + 16];
    }
  }

  ghost function EvenBlocks(core: Core, x: seq<word>, r: nat): (b: seq<Block>)
    requires 1 <= r && |x| == 32 * r
    ensures |b| == r
  {
    seq(r, k requires 0 <= k < r => MixedBlock(core, x, r, 2 * k))
  }

  ghost function OddBlocks(core: Core, x: seq<word>, r: nat): (b: seq<Block>)
    requires 1 <= r && |x| == 32 * r
    ensures |b| == r
  {
    seq(r, k requires 0 <= k < r => MixedBlock(core, x, r, 2 * k + 1))
  }

  /** scryptBlockMix: all even blocks followed by all odd blocks. */
  ghost function BlockMix(core: Core, x: seq<word>, r: nat): (y: seq<word>)
    requires 1 <= r && |x| == 32 * r
    ensures |y| == |x|
  {
    Join(EvenBlocks(core, x, r)) + Join(OddBlocks(core, x, r))
  }

  /** For two blocks, as in the repository: each output block is the core of the one before it xor its input block. */
  lemma BlockMixOfTwo(core: Core, x: seq<word>, first: Block, second: Block)
    requires |x| == 32
    requires first == core(Xor(x[16..32], x[0..16])) && second == core(Xor(first, x[16..32]))
    ensures BlockMix(core, x, 1) == first + second
  {
    assert MixedBlock(core, x, 1, -1) == x[16..32];
    assert MixedBlock(core, x, 1, 0) == first && MixedBlock(core, x, 1, 1) == second;
    assert EvenBlocks(core, x, 1) == [first] && OddBlocks(core, x, 1) == [second];
    JoinOne(first);
    JoinOne(second);
  }

  lemma JoinOne(b: Block)
    ensures Join([b]) == b
  {
    assert [b][..0] == [];
    assert Join([b]) == Join([]) + b;
  }

  // ---- The place a block is written to ----

  /** The block index the source computes for block `i` of the chain. */
  function Slot(i: nat, r: nat): nat {
    (i % 2) * r + i / 2
  }

  function SlotInverse(s: nat, r: nat): nat {
    if s < r then 2 * s else 2 * (s - r) + 1
  }

  lemma SlotCases(i: nat, r: nat)
    requires i < 2 * r
    ensures Slot(i, r) == if i % 2 == 0 then i / 2 else r + i / 2
  {
    if i % 2 == 0 {
      assert (i % 2) * r == 0;
    } else {
      assert (i % 2) * r == r;
    }
  }

  /** The write index is a bijection on the 2r block places. */
  lemma SlotBijective(r: nat)
    ensures forall i: nat :: i < 2 * r ==> Slot(i, r) < 2 * r && SlotInverse(Slot(i, r), r) == i
    ensures forall s: nat :: s < 2 * r ==> SlotInverse(s, r) < 2 * r && Slot(SlotInverse(s, r), r) == s
  {
    forall i: nat | i < 2 * r
      ensures Slot(i, r) < 2 * r && SlotInverse(Slot(i, r), r) == i
    {
      SlotCases(i, r);
    }
    forall s: nat | s < 2 * r
      ensures SlotInverse(s, r) < 2 * r && Slot(SlotInverse(s, r), r) == s
    {
      SlotCases(SlotInverse(s, r), r);
    }
  }

  lemma JoinedAt(evens: seq<Block>, odds: seq<Block>, r: nat, s: nat)
    requires |evens| == |odds| == r && s < 2 * r
    ensures BlockAt(Join(evens) + Join(odds), s) == if s < r then evens[s] else odds[s - r]
  {
    if s < r {
      JoinAt(evens, s);
    } else {
      JoinAt(odds, s - r);
    }
    BlockOfSum(Join(evens), Join(odds), r, s);
  }

  lemma EvenAt(core: Core, x: seq<word>, r: nat, k: nat)
    requires 1 <= r && |x| == 32 * r && k < r
    ensures EvenBlocks(core, x, r)[k] == MixedBlock(core, x, r, 2 * k)
  {
  }

  lemma OddAt(core: Core, x: seq<word>, r: nat, k: nat)
    requires 1 <= r && |x| == 32 * r && k < r
    ensures OddBlocks(core, x, r)[k] == MixedBlock(core, x, r, 2 * k + 1)
  {
  }

  lemma MixBlockAt(core: Core, x: seq<word>, r: nat, s: nat)
    requires 1 <= r && |x| == 32 * r && s < 2 * r
    ensures SlotInverse(s, r) < 2 * r
    ensures BlockAt(BlockMix(core, x, r), s) == MixedBlock(core, x, r, SlotInverse(s, r))
  {
    JoinedAt(EvenBlocks(core, x, r), OddBlocks(core, x, r), r, s);
    if s < r {
      EvenAt(core, x, r, s);
    } else {
      OddAt(core, x, r, s - r);
    }
  }

  lemma BlockOfSum(front: seq<word>, back: seq<word>, r: nat, s: nat)
    requires |front| == |back| == 16 * r && s < 2 * r
    ensures BlockAt(front + back, s) == if s < r then BlockAt(front, s) else BlockAt(back, s - r)
  {
  }

  lemma BlocksEqual(y: seq<word>, z: seq<word>, n: nat)
    requires |y| == |z| == 16 * n
    requires forall s: nat :: s < n ==> BlockAt(y, s) == BlockAt(z, s)
    ensures y == z
  {
    forall p | 0 <= p < |y|
      ensures y[p] == z[p]
    {
      var s: nat := p / 16;
      assert BlockAt(y, s)[p - 16 * s] == y[p];
      assert BlockAt(z, s)[p - 16 * s] == z[p];
    }
  }

  /** A result with every chain block in its slot is the result of scryptBlockMix. */
  lemma SlotsFilled(core: Core, x: seq<word>, r: nat, y: seq<word>)
    requires 1 <= r && |x| == 32 * r && |y| == |x|
    requires forall s: nat :: s < 2 * r && SlotInverse(s, r) < 2 * r ==>
      BlockAt(y, s) == MixedBlock(core, x, r, SlotInverse(s, r))
    ensures y == BlockMix(core, x, r)
  {
    forall s: nat | s < 2 * r
      ensures BlockAt(y, s) == BlockAt(BlockMix(core, x, r), s)
    {
      MixBlockAt(core, x, r, s);
    }
    BlocksEqual(y, BlockMix(core, x, r), 2 * r);
  }

  /** What the loop of `blockMix` has done before block `i`. */
  ghost predicate Progress(core: Core, x: seq<word>, r: nat, i: nat, y: seq<word>, result: seq<word>)
    requires 1 <= r && |x| == 32 * r && i <= 2 * r
  {
    && |result| == |x|
    && y == MixedBlock(core, x, r, i - 1)
    && forall s: nat :: s < 2 * r && SlotInverse(s, r) < i ==>
      BlockAt(result, s) == MixedBlock(core, x, r, SlotInverse(s, r))
  }

  lemma ProgressStep(core: Core, x: seq<word>, r: nat, i: nat, y: Block, result: seq<word>, t: Block, filled: seq<word>)
    requires 1 <= r && |x| == 32 * r && i < 2 * r
    requires Progress(core, x, r, i, y, result)
    requires t == core(Xor(y, BlockAt(x, i)))
    requires |filled| == |x| && Slot(i, r) < 2 * r && BlockAt(filled, Slot(i, r)) == t
    requires forall s: nat :: s < 2 * r && s != Slot(i, r) ==> BlockAt(filled, s) == BlockAt(result, s)
    ensures Progress(core, x, r, i + 1, t, filled)
  {
    SlotBijective(r);
  }

  lemma ProgressDone(core: Core, x: seq<word>, r: nat, y: seq<word>, result: seq<word>)
    requires 1 <= r && |x| == 32 * r
    requires Progress(core, x, r, 2 * r, y, result)
    ensures result == BlockMix(core, x, r)
  {
    SlotsFilled(core, x, r, result);
  }

  // ---- The methods ----

  /** `core` is the core of the repository, kept folded: the methods only need its value where it is called. */
  ghost predicate IsSalsa(core: Core) {
    forall b: Block {:trigger Salsa208(b)} :: Salsa208(b) == core(b)
  }

  /** t := y xor block i of x, then the core in place. */
  method MixOne(x: array<word>, y: array<word>, i: nat, ghost core: Core) returns (t: array<word>)
    requires IsSalsa(core)
    requires y.Length == 16 && 16 * i + 16 <= x.Length
    ensures fresh(t) && t.Length == 16
    ensures t[..] == core(Xor(old(y[..]), BlockAt(old(x[..]), i)))
  {
    t := new word[16];
    for j := 0 to 16
      invariant forall k :: 0 <= k < j ==> t[k] == Exor(y[k], x[16 * i + k])
    {
      t[j] := Exor(x[i * 16 + j], y[j]);
      ExorCommutes(x[i * 16 + j], y[j]);
    }
    assert t[..] == Xor(y[..], BlockAt(x[..], i));
    SalsaCore(t);
  }

  lemma ExorCommutes(a: word, b: word)
    ensures Exor(a, b) == Exor(b, a)
  {
  }

  method PutBlock(result: array<word>, s: nat, y: array<word>)
    requires y.Length == 16 && 16 * s + 16 <= result.Length && y != result
    modifies result
    ensures BlockAt(result[..], s) == old(y[..])
    ensures forall m: nat :: 16 * m + 16 <= result.Length && m != s ==>
      BlockAt(result[..], m) == BlockAt(old(result[..]), m)
  {
    forall j | 0 <= j < 16 { result[16 * s + j] := y[j]; }
  }

  /** One pass of the block loop. */
  method MixInto(x: array<word>, y: array<word>, i: nat, r: nat, result: array<word>, ghost core: Core) returns (t: array<word>)
    requires IsSalsa(core)
    requires 1 <= r && x.Length == result.Length == 32 * r && i < 2 * r && y.Length == 16
    requires result != x && result != y
    requires Progress(core, x[..], r, i, y[..], result[..])
    modifies result
    ensures fresh(t) && t.Length == 16
    ensures Progress(core, old(x[..]), r, i + 1, t[..], result[..])
  {
    ghost var x0, y0, result0 := x[..], y[..], result[..];
    t := MixOne(x, y, i, core);
    ghost var t0: Block := t[..];
    SlotCases(i, r);
    var slot := (i % 2) * r + i / 2;
    assert result[..] == result0;
    PutBlock(result, slot, t);
    assert t[..] == t0;
    ProgressStep(core, x0, r, i, y0, result0, t0, result[..]);
  }

  /** y starts as the last block of the input. */
  method LastBlock(x: array<word>, r: nat) returns (y: array<word>)
    requires 1 <= r && x.Length == 32 * r
    ensures fresh(y) && y.Length == 16 && y[..] == BlockAt(old(x[..]), 2 * r - 1)
  {
    y := new word[16];
    forall j | 0 <= j < 16 { y[j] := x[(2 * r - 1) * 16 + j]; }
  }

  method MixBlocks(x: array<word>, r: nat, ghost core: Core) returns (result: array<word>)
    requires IsSalsa(core)
    requires 1 <= r && x.Length == 32 * r
    ensures fresh(result) && result.Length == x.Length
    ensures result[..] == BlockMix(core, old(x[..]), r)
  {
    ghost var x0 := x[..];
    var y := LastBlock(x, r);
    result := new word[2 * r * 16];
    for i := 0 to 2 * r
      invariant y.Length == 16 && y != x && y != result && fresh(y)
      invariant x[..] == x0
      invariant Progress(core, x0, r, i, y[..], result[..])
    {
      y := MixInto(x, y, i, r, result, core);
    }
    ProgressDone(core, x0, r, y[..], result[..]);
  }
}
