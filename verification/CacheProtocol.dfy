/**
 The seed cache as a protocol.  A call of `GetData` is two critical sections: a lookup under the
 read lock and, after a miss, a second lookup followed by eviction and insertion under the write
 lock.  Any number of callers interleave between the sections.

 The eviction takes the front of `order`, and a hit does not touch `order`: the policy is first
 in, first out, although the source calls it LRU.  `OrderIsRecentMisses` says exactly what stays.
 */
module CacheProtocol {
  import opened Bytes
  import opened Words

  const MAX_CACHE_ITEMS: nat := 64

  datatype State<D> = State(data: map<Hash, D>, order: seq<Hash>)

  function Evicted<D>(s: State<D>): State<D>
    requires |s.data| >= MAX_CACHE_ITEMS ==> |s.order| > 0
  {
    if |s.data| >= MAX_CACHE_ITEMS then State(s.data - {s.order[0]}, s.order[1..]) else s
  }

  function Inserted<D>(s: State<D>, seed: Hash, d: D): State<D>
    requires |s.data| >= MAX_CACHE_ITEMS ==> |s.order| > 0
  {
    var e := Evicted(s);
    State(e.data[seed := d], e.order + [seed])
  }

  ghost predicate Distinct(order: seq<Hash>) {
    forall i, j :: 0 <= i < j < |order| ==> order[i] != order[j]
  }

  ghost predicate Consistent<D>(compute: Hash -> D, s: State<D>) {
    && Distinct(s.order)
    && (forall k :: k in s.data <==> k in s.order)
    && |s.order| <= MAX_CACHE_ITEMS
    && (forall k :: k in s.data ==> s.data[k] == compute(k))
  }

  lemma {:induction false} DistinctSize<D>(m: map<Hash, D>, order: seq<Hash>)
    requires Distinct(order) && forall k :: k in m <==> k in order
    ensures |m| == |order|
  {
    if |order| == 0 {
      assert m == map[];
    } else {
      var last := order[|order| - 1];
      var rest := order[..|order| - 1];
      var m' := m - {last};
      forall k
        ensures k in m' <==> k in rest
      {
        if k in m' {
          var i :| 0 <= i < |order| && order[i] == k;
          assert rest[i] == k;
        }
      }
      DistinctSize(m', rest);
      assert m'.Keys == m.Keys - {last};
      assert |m.Keys| == |m'.Keys| + 1;
    }
  }

  /** A miss keeps the cache consistent; the new seed goes last and at most the front goes away. */
  lemma InsertKeeps<D>(compute: Hash -> D, s: State<D>, seed: Hash)
    requires Consistent(compute, s) && seed !in s.data
    ensures |s.data| == |s.order|
    ensures Consistent(compute, Inserted(s, seed, compute(seed)))
    ensures Inserted(s, seed, compute(seed)).order
         == (if |s.order| == MAX_CACHE_ITEMS then s.order[1..] else s.order) + [seed]
  {
    DistinctSize(s.data, s.order);
    var e := Evicted(s);
    forall k
      ensures k in e.data <==> k in e.order
    {
      if |s.data| >= MAX_CACHE_ITEMS {
        if k in e.data {
          var i :| 0 <= i < |s.order| && s.order[i] == k;
          assert e.order[i - 1] == k;
        }
      }
    }
    var t := Inserted(s, seed, compute(seed));
    forall k
      ensures k in t.data <==> k in t.order
    {
      if k in e.order {
        var i :| 0 <= i < |e.order| && e.order[i] == k;
        assert t.order[i] == k;
      }
      assert t.order[|e.order|] == seed;
    }
  }

  // ---- Callers ----

  datatype Caller<D> = Idle | Missed(seed: Hash) | Returned(seed: Hash, data: D)

  /** `misses` records the seeds inserted, in order. */
  datatype System<D> = System(cache: State<D>, callers: map<nat, Caller<D>>, misses: seq<Hash>)

  datatype Action =
    | Lookup(caller: nat, seed: Hash)  // the section under the read lock
    | Fill(caller: nat)                // the section under the write lock

  function CallerOf<D>(s: System<D>, c: nat): Caller<D> {
    if c in s.callers then s.callers[c] else Idle
  }

  ghost function Step<D>(compute: Hash -> D, s: System<D>, a: Action): System<D>
    requires |s.cache.data| >= MAX_CACHE_ITEMS ==> |s.cache.order| > 0
  {
    match a
    case Lookup(c, seed) =>
      if CallerOf(s, c).Missed? then s
      else if seed in s.cache.data then s.(callers := s.callers[c := Returned(seed, s.cache.data[seed])])
      else s.(callers := s.callers[c := Missed(seed)])
    case Fill(c) =>
      if !CallerOf(s, c).Missed? then s
      else
        var seed := s.callers[c].seed;
        if seed in s.cache.data then s.(callers := s.callers[c := Returned(seed, s.cache.data[seed])])
        else System(Inserted(s.cache, seed, compute(seed)), s.callers[c := Returned(seed, compute(seed))], s.misses + [seed])
  }

  /** The last `MAX_CACHE_ITEMS` elements, or all of them. */
  function Recent(misses: seq<Hash>): seq<Hash> {
    if |misses| <= MAX_CACHE_ITEMS then misses else misses[|misses| - MAX_CACHE_ITEMS..]
  }

  /** A seed missed twice is missed at least 65 misses apart. */
  ghost predicate MissesSpread(misses: seq<Hash>) {
    forall i, j :: 0 <= i < j < |misses| && j - i <= MAX_CACHE_ITEMS ==> misses[i] != misses[j]
  }

  ghost predicate ReturnsCorrect<D>(compute: Hash -> D, callers: map<nat, Caller<D>>) {
    forall c :: c in callers && callers[c].Returned? ==> callers[c].data == compute(callers[c].seed)
  }

  ghost predicate Inv<D>(compute: Hash -> D, s: System<D>) {
    && Consistent(compute, s.cache)
    && s.cache.order == Recent(s.misses)
    && MissesSpread(s.misses)
    && ReturnsCorrect(compute, s.callers)
  }

  lemma SizeBelow<D>(compute: Hash -> D, s: System<D>)
    requires Inv(compute, s)
    ensures |s.cache.data| == |s.cache.order| <= MAX_CACHE_ITEMS
  {
    DistinctSize(s.cache.data, s.cache.order);
  }

  lemma RecentGrows(misses: seq<Hash>, seed: Hash)
    ensures Recent(misses + [seed])
         == (if |Recent(misses)| == MAX_CACHE_ITEMS then Recent(misses)[1..] else Recent(misses)) + [seed]
  {
  }

  /** The one step that changes the cache. */
  lemma MissKeepsInv<D>(compute: Hash -> D, s: System<D>, c: nat)
    requires Inv(compute, s)
    requires c in s.callers && s.callers[c].Missed? && s.callers[c].seed !in s.cache.data
    ensures |s.cache.data| >= MAX_CACHE_ITEMS ==> |s.cache.order| > 0
    ensures Inv(compute, Step(compute, s, Fill(c)))
    ensures Step(compute, s, Fill(c)).misses == s.misses + [s.callers[c].seed]
  {
    var seed := s.callers[c].seed;
    InsertKeeps(compute, s.cache, seed);
    RecentGrows(s.misses, seed);
    MissIsNew(compute, s, seed);
  }

  lemma StepKeepsInv<D>(compute: Hash -> D, s: System<D>, a: Action)
    requires Inv(compute, s)
    ensures |s.cache.data| >= MAX_CACHE_ITEMS ==> |s.cache.order| > 0
    ensures Inv(compute, Step(compute, s, a))
    ensures s.misses <= Step(compute, s, a).misses
  {
    SizeBelow(compute, s);
    if a.Fill? && CallerOf(s, a.caller).Missed? && s.callers[a.caller].seed !in s.cache.data {
      MissKeepsInv(compute, s, a.caller);
    } else {
      HitKeepsInv(compute, s, a);
    }
  }

  lemma HitKeepsInv<D>(compute: Hash -> D, s: System<D>, a: Action)
    requires Consistent(compute, s.cache) && ReturnsCorrect(compute, s.callers)
    requires |s.cache.data| >= MAX_CACHE_ITEMS ==> |s.cache.order| > 0
    requires a.Fill? && CallerOf(s, a.caller).Missed? ==> s.callers[a.caller].seed in s.cache.data
    ensures var t := Step(compute, s, a);
            t.cache == s.cache && t.misses == s.misses && ReturnsCorrect(compute, t.callers)
  {
  }

  lemma MissIsNew<D>(compute: Hash -> D, s: System<D>, seed: Hash)
    requires Inv(compute, s) && seed !in s.cache.data
    ensures forall i :: 0 <= i < |s.misses| && |s.misses| - i <= MAX_CACHE_ITEMS ==> s.misses[i] != seed
  {
    forall i | 0 <= i < |s.misses| && |s.misses| - i <= MAX_CACHE_ITEMS
      ensures s.misses[i] != seed
    {
      var off := |s.misses| - |Recent(s.misses)|;
      assert Recent(s.misses)[i - off] == s.misses[i];
      assert s.misses[i] in s.cache.order;
    }
  }

  function Empty<D>(): System<D> {
    System(State(map[], []), map[], [])
  }

  ghost predicate Reaches<D(!new)>(compute: Hash -> D, s: System<D>, actions: seq<Action>, t: System<D>)
    decreases |actions|
  {
    if |actions| == 0 then s == t
    else (|s.cache.data| >= MAX_CACHE_ITEMS ==> |s.cache.order| > 0)
         && Reaches(compute, Step(compute, s, actions[0]), actions[1..], t)
  }

  lemma {:induction false} RunKeepsInv<D(!new)>(compute: Hash -> D, s: System<D>, actions: seq<Action>, t: System<D>)
    requires Inv(compute, s) && Reaches(compute, s, actions, t)
    ensures Inv(compute, t) && s.misses <= t.misses
    decreases |actions|
  {
    if |actions| > 0 {
      StepKeepsInv(compute, s, actions[0]);
      RunKeepsInv(compute, Step(compute, s, actions[0]), actions[1..], t);
    }
  }

  /** No interleaving blocks on an empty `order`: every list of actions leads somewhere. */
  lemma {:induction false} RunExists<D(!new)>(compute: Hash -> D, s: System<D>, actions: seq<Action>)
    requires Inv(compute, s)
    ensures exists t :: Reaches(compute, s, actions, t)
    decreases |actions|
  {
    if |actions| == 0 {
      assert Reaches(compute, s, actions, s);
    } else {
      StepKeepsInv(compute, s, actions[0]);
      var s1 := Step(compute, s, actions[0]);
      RunExists(compute, s1, actions[1..]);
      var t :| Reaches(compute, s1, actions[1..], t);
      assert Reaches(compute, s, actions, t);
    }
  }

  /**
   Transparency: in every interleaving, every value a caller gets is the computed one, `order`
   lists the keys of `data` without repetition, and at most 64 seeds are held.
   */
  lemma CacheIsTransparent<D(!new)>(compute: Hash -> D, actions: seq<Action>, t: System<D>)
    requires Reaches(compute, Empty(), actions, t)
    ensures ReturnsCorrect(compute, t.callers)
    ensures Distinct(t.cache.order) && forall k :: k in t.cache.data <==> k in t.cache.order
    ensures |t.cache.data| == |t.cache.order| <= MAX_CACHE_ITEMS
  {
    RunKeepsInv(compute, Empty(), actions, t);
    SizeBelow(compute, t);
  }

  /**
   First in, first out, exactly: the resident seeds are the seeds of the last 64 misses, and any
   65 consecutive misses are distinct.
   */
  lemma OrderIsRecentMisses<D(!new)>(compute: Hash -> D, actions: seq<Action>, t: System<D>)
    requires Reaches(compute, Empty(), actions, t)
    ensures forall k :: k in t.cache.data <==> k in Recent(t.misses)
    ensures MissesSpread(t.misses)
  {
    RunKeepsInv(compute, Empty(), actions, t);
  }

  lemma RecentKeeps(misses: seq<Hash>, i: nat)
    requires i < |misses| && |misses| - 1 - i < MAX_CACHE_ITEMS
    ensures misses[i] in Recent(misses)
  {
    assert Recent(misses)[i - (|misses| - |Recent(misses)|)] == misses[i];
  }

  lemma RecentDrops(misses: seq<Hash>, i: nat, later: seq<Hash>)
    requires i < |misses| && |misses| - 1 - i == MAX_CACHE_ITEMS && MissesSpread(misses)
    requires later == misses[i + 1..]
    ensures Recent(misses) == later && misses[i] !in later
  {
    forall k | 0 <= k < |later|
      ensures later[k] != misses[i]
    {
      assert later[k] == misses[i + 1 + k];
    }
  }

  lemma RecentHolds(misses: seq<Hash>, i: nat)
    requires i < |misses| && MissesSpread(misses)
    ensures |misses| - 1 - i < MAX_CACHE_ITEMS ==> misses[i] in Recent(misses)
    ensures |misses| - 1 - i == MAX_CACHE_ITEMS ==> misses[i] !in Recent(misses)
  {
    if |misses| - 1 - i < MAX_CACHE_ITEMS {
      RecentKeeps(misses, i);
    }
    if |misses| - 1 - i == MAX_CACHE_ITEMS {
      RecentDrops(misses, i, misses[i + 1..]);
    }
  }

  /** A seed just inserted survives fewer than 64 further misses; the 64th evicts it. */
  lemma SeedSurvives<D(!new)>(compute: Hash -> D, s: System<D>, actions: seq<Action>, t: System<D>)
    requires Inv(compute, s) && Reaches(compute, s, actions, t) && |s.misses| > 0
    ensures |s.misses| <= |t.misses|
    ensures |t.misses| - |s.misses| < MAX_CACHE_ITEMS ==> s.misses[|s.misses| - 1] in t.cache.data
    ensures |t.misses| - |s.misses| == MAX_CACHE_ITEMS ==> s.misses[|s.misses| - 1] !in t.cache.data
  {
    RunKeepsInv(compute, s, actions, t);
    assert t.misses[|s.misses| - 1] == s.misses[|s.misses| - 1];
    RecentHolds(t.misses, |s.misses| - 1);
  }

  /** Not LRU: in a full cache, a seed used a moment ago is the one the next miss evicts. */
  lemma HitDoesNotProtect<D(!new)>(compute: Hash -> D, s: System<D>, c: nat, other: Hash)
    requires Inv(compute, s) && |s.cache.order| == MAX_CACHE_ITEMS
    requires !CallerOf(s, c).Missed? && other !in s.cache.data
    ensures var front := s.cache.order[0];
            |s.cache.data| >= MAX_CACHE_ITEMS
            && var s1 := Step(compute, s, Lookup(c, front));
            s1.cache == s.cache && CallerOf(s1, c) == Returned(front, compute(front))
            && var s2 := Step(compute, s1, Lookup(c, other));
            s2.cache == s.cache
            && var s3 := Step(compute, s2, Fill(c));
            front !in s3.cache.data && other in s3.cache.data
  {
    SizeBelow(compute, s);
    assert s.cache.order[0] in s.cache.data;
  }

  // ---- A full cache is reached ----

  lemma {:induction false} ReachesConcat<D(!new)>(compute: Hash -> D, s: System<D>, a: seq<Action>, t: System<D>,
                                                  b: seq<Action>, u: System<D>)
    requires Reaches(compute, s, a, t) && Reaches(compute, t, b, u)
    ensures Reaches(compute, s, a + b, u)
    decreases |a|
  {
    if |a| == 0 {
      assert a + b == b;
    } else {
      ReachesConcat(compute, Step(compute, s, a[0]), a[1..], t, b, u);
      assert (a + b)[1..] == a[1..] + b;
    }
  }

  /** Both sections of one call. */
  function Miss(c: nat, seed: Hash): seq<Action> {
    [Lookup(c, seed), Fill(c)]
  }

  lemma TwoSteps<D(!new)>(compute: Hash -> D, s: System<D>, a: Action, mid: System<D>, b: Action, t: System<D>)
    requires |s.cache.data| >= MAX_CACHE_ITEMS ==> |s.cache.order| > 0
    requires mid == Step(compute, s, a)
    requires |mid.cache.data| >= MAX_CACHE_ITEMS ==> |mid.cache.order| > 0
    requires t == Step(compute, mid, b)
    ensures Reaches(compute, s, [a, b], t)
  {
    assert [a, b][1..] == [b] && [b][1..] == [];
    assert Reaches(compute, t, [], t);
    assert Reaches(compute, mid, [b], t);
  }

  /** One caller asks for a seed that is not there. */
  lemma MissReaches<D(!new)>(compute: Hash -> D, s: System<D>, c: nat, seed: Hash) returns (t: System<D>)
    requires Inv(compute, s) && !CallerOf(s, c).Missed? && seed !in s.cache.data
    ensures Reaches(compute, s, Miss(c, seed), t) && Inv(compute, t)
    ensures !CallerOf(t, c).Missed?
    ensures t.cache.order == (if |s.cache.order| == MAX_CACHE_ITEMS then s.cache.order[1..] else s.cache.order) + [seed]
  {
    StepKeepsInv(compute, s, Lookup(c, seed));
    var mid := Step(compute, s, Lookup(c, seed));
    InsertKeeps(compute, s.cache, seed);
    StepKeepsInv(compute, mid, Fill(c));
    t := Step(compute, mid, Fill(c));
    TwoSteps(compute, s, Lookup(c, seed), mid, Fill(c), t);
  }

  lemma HeadIsNew(order: seq<Hash>, seeds: seq<Hash>)
    requires |seeds| > 0 && Distinct(order + seeds)
    ensures seeds[0] !in order
  {
    var all := order + seeds;
    assert all[|order|] == seeds[0];
    forall i | 0 <= i < |order|
      ensures order[i] != seeds[0]
    {
      assert all[i] == order[i];
    }
  }

  lemma {:induction false} FillReaches<D(!new)>(compute: Hash -> D, s: System<D>, c: nat, seeds: seq<Hash>, all: seq<Hash>)
    returns (actions: seq<Action>, t: System<D>)
    requires Inv(compute, s) && !CallerOf(s, c).Missed?
    requires all == s.cache.order + seeds && Distinct(all) && |all| <= MAX_CACHE_ITEMS
    ensures Reaches(compute, s, actions, t) && Inv(compute, t)
    ensures !CallerOf(t, c).Missed? && t.cache.order == all
    decreases |seeds|
  {
    if |seeds| == 0 {
      actions, t := [], s;
      assert all == s.cache.order;
    } else {
      var first := Miss(c, seeds[0]);
      HeadIsNew(s.cache.order, seeds);
      var mid := MissReaches(compute, s, c, seeds[0]);
      MoveHead(s.cache.order, seeds);
      var more;
      more, t := FillReaches(compute, mid, c, seeds[1..], all);
      actions := first + more;
      ReachesConcat(compute, s, first, mid, more, t);
    }
  }

  lemma MoveHead(order: seq<Hash>, seeds: seq<Hash>)
    requires |seeds| > 0
    ensures order + [seeds[0]] + seeds[1..] == order + seeds
  {
  }

  lemma HitReaches<D(!new)>(compute: Hash -> D, s: System<D>, c: nat, seed: Hash) returns (t: System<D>)
    requires Inv(compute, s) && !CallerOf(s, c).Missed? && seed in s.cache.data
    ensures Reaches(compute, s, [Lookup(c, seed)], t) && Inv(compute, t)
    ensures t.cache == s.cache && CallerOf(t, c) == Returned(seed, compute(seed))
  {
    StepKeepsInv(compute, s, Lookup(c, seed));
    t := Step(compute, s, Lookup(c, seed));
    assert [Lookup(c, seed)][1..] == [];
    assert Reaches(compute, t, [], t);
  }

  lemma FullCacheIsReached<D(!new)>(compute: Hash -> D, seeds: seq<Hash>) returns (actions: seq<Action>, full: System<D>)
    requires |seeds| == MAX_CACHE_ITEMS && Distinct(seeds)
    ensures Reaches(compute, Empty(), actions, full) && Inv(compute, full)
    ensures full.cache.order == seeds && !CallerOf(full, 0).Missed?
  {
    var empty: System<D> := Empty();
    assert empty.cache.order + seeds == seeds;
    actions, full := FillReaches(compute, empty, 0, seeds, seeds);
  }

  lemma ShiftedOrder<D>(compute: Hash -> D, t: System<D>, order: seq<Hash>, other: Hash)
    requires |order| == MAX_CACHE_ITEMS && Distinct(order) && other !in order
    requires Consistent(compute, t.cache) && t.cache.order == order[1..] + [other]
    ensures order[0] !in t.cache.data && forall i :: 0 < i < MAX_CACHE_ITEMS ==> order[i] in t.cache.data
  {
    forall i | 0 < i < MAX_CACHE_ITEMS
      ensures order[i] in t.cache.data
    {
      assert t.cache.order[i - 1] == order[i];
    }
  }

  /** The front of a full cache is hit, and evicted by the next miss; the others stay. */
  lemma HitThenMiss<D(!new)>(compute: Hash -> D, full: System<D>, order: seq<Hash>, other: Hash)
    returns (hit: System<D>, t: System<D>)
    requires Inv(compute, full) && !CallerOf(full, 0).Missed?
    requires order == full.cache.order && |order| == MAX_CACHE_ITEMS && other !in order
    ensures Reaches(compute, full, [Lookup(0, order[0])], hit)
    ensures order[0] in hit.cache.data && CallerOf(hit, 0) == Returned(order[0], compute(order[0]))
    ensures Reaches(compute, hit, Miss(0, other), t)
    ensures order[0] !in t.cache.data && forall i :: 0 < i < MAX_CACHE_ITEMS ==> order[i] in t.cache.data
  {
    assert order[0] in full.cache.data;
    hit := HitReaches(compute, full, 0, order[0]);
    t := MissReaches(compute, hit, 0, other);
    ShiftedOrder(compute, t, order, other);
  }

  /**
   A run in which a hit protects nothing: 64 seeds are asked for, then the first one again, which is
   a hit, then another seed, and the first one is gone while the others are still there.
   */
  lemma HitSeedIsEvicted<D(!new)>(compute: Hash -> D, seeds: seq<Hash>, other: Hash)
    returns (actions: seq<Action>, hit: System<D>, t: System<D>)
    requires |seeds| == MAX_CACHE_ITEMS && Distinct(seeds) && other !in seeds
    ensures Reaches(compute, Empty(), actions + [Lookup(0, seeds[0])], hit)
    ensures seeds[0] in hit.cache.data && CallerOf(hit, 0) == Returned(seeds[0], compute(seeds[0]))
    ensures Reaches(compute, hit, Miss(0, other), t)
    ensures seeds[0] !in t.cache.data && forall i :: 0 < i < MAX_CACHE_ITEMS ==> seeds[i] in t.cache.data
  {
    var full;
    actions, full := FullCacheIsReached(compute, seeds);
    hit, t := HitThenMiss(compute, full, seeds, other);
    ReachesConcat(compute, Empty(), actions, full, [Lookup(0, seeds[0])], hit);
  }

  function SeedNumber(i: nat): Hash
    requires i < 0x100
  {
    [i as byte] + seq(31, _ => 0)
  }

  /** There are enough different seeds for such a run. */
  lemma SeedsExist() returns (seeds: seq<Hash>, other: Hash)
    ensures |seeds| == MAX_CACHE_ITEMS && Distinct(seeds) && other !in seeds
  {
    seeds := seq(MAX_CACHE_ITEMS, i requires 0 <= i < MAX_CACHE_ITEMS => SeedNumber(i));
    other := SeedNumber(MAX_CACHE_ITEMS);
    forall i: nat, j: nat | i < j < 0x100
      ensures SeedNumber(i) != SeedNumber(j)
    {
      ByteValue(i);
      ByteValue(j);
      assert SeedNumber(i)[0] == i as byte && SeedNumber(j)[0] == j as byte;
    }
  }
}
