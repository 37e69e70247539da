/** The pools of a manager, updated in place: sorting, connecting, failing over and stopping. */
module PoolManager {
  import F = Failover

  /** `Hung` is a call that waits for ever for a read loop that is not there. */
  datatype Outcome = Returned | Hung | Panicked

  class Pool {
    const config: F.Config
    var connected: bool
    var client: F.Client

    constructor (config: F.Config)
      ensures this.config == config && State() == F.Pool(config, false, F.UNUSED)
    {
      this.config := config;
      connected := false;
      client := F.UNUSED;
    }

    function State(): F.Pool
      reads this
    {
      F.Pool(config, connected, client)
    }
  }

  predicate Sorted(pools: seq<Pool>) {
    forall i, j :: 0 <= i < j < |pools| ==> pools[i].config.priority <= pools[j].config.priority
  }

  predicate Distinct(pools: seq<Pool>) {
    forall i, j :: 0 <= i < j < |pools| ==> pools[i] != pools[j]
  }

  function Enabled(configs: seq<F.Config>): seq<F.Config> {
    if |configs| == 0 then []
    else
      var last := configs[|configs| - 1];
      Enabled(configs[..|configs| - 1]) + if last.enabled then [last] else []
  }

  /** Exactly the enabled configurations are kept, each as often as it was given. */
  lemma {:induction false} EnabledMeaning(configs: seq<F.Config>, c: F.Config)
    ensures multiset(Enabled(configs))[c] == if c.enabled then multiset(configs)[c] else 0
  {
    if |configs| > 0 {
      var front, last := configs[..|configs| - 1], configs[|configs| - 1];
      EnabledMeaning(front, c);
      assert configs == front + [last];
    }
  }

  function ConfigsOf(pools: seq<Pool>): seq<F.Config> {
    seq(|pools|, i requires 0 <= i < |pools| => pools[i].config)
  }

  /** The pools before position i are in order, and none of the later ones comes before them. */
  predicate Front(pools: seq<Pool>, i: nat) {
    forall a, b :: 0 <= a < i && a < b < |pools| ==> pools[a].config.priority <= pools[b].config.priority
  }

  /** Pool i has the least priority of those from i up to j. */
  predicate Least(pools: seq<Pool>, i: nat, j: nat) {
    forall b :: i <= b < j && b < |pools| ==> pools[i].config.priority <= pools[b].config.priority
  }

  predicate Rearranged(before: seq<Pool>, after: seq<Pool>) {
    && |before| == |after| && Distinct(after)
    && multiset(before) == multiset(after)
    && multiset(ConfigsOf(before)) == multiset(ConfigsOf(after))
  }

  function Swapped<T>(s: seq<T>, i: nat, j: nat): (r: seq<T>)
    requires i < j < |s|
    ensures |r| == |s| && multiset(r) == multiset(s)
  {
    s[i := s[j]][j := s[i]]
  }

  lemma RearrangedAreMembers(before: seq<Pool>, after: seq<Pool>)
    requires Rearranged(before, after)
    ensures forall i :: 0 <= i < |after| ==> after[i] in before
  {
    forall i | 0 <= i < |after|
      ensures after[i] in before
    {
      assert after[i] in multiset(after);
    }
  }

  lemma SwapRearranges(start: seq<Pool>, s: seq<Pool>, i: nat, j: nat)
    requires i < j < |s| && Rearranged(start, s)
    ensures Rearranged(start, Swapped(s, i, j))
  {
    assert ConfigsOf(Swapped(s, i, j)) == Swapped(ConfigsOf(s), i, j);
  }

  lemma SwapKeepsFront(s: seq<Pool>, i: nat, j: nat)
    requires i < j < |s| && Front(s, i) && Least(s, i, j) && s[j].config.priority < s[i].config.priority
    ensures Front(Swapped(s, i, j), i) && Least(Swapped(s, i, j), i, j + 1)
  {
  }

  method Exchange(pools: array<Pool>, i: nat, j: nat)
    requires i < j < pools.Length
    modifies pools
    ensures pools[..] == Swapped(old(pools[..]), i, j)
  {
    pools[j], pools[i] := pools[i], pools[j];
  }

  /** One pass of the sort brings a pool of least priority to position i. */
  method Pass(pools: array<Pool>, i: nat, ghost start: seq<Pool>)
    requires i < pools.Length && Rearranged(start, pools[..]) && Front(pools[..], i)
    modifies pools
    ensures Rearranged(start, pools[..]) && Front(pools[..], i + 1)
  {
    for j := i + 1 to pools.Length
      invariant Rearranged(start, pools[..]) && Front(pools[..], i) && Least(pools[..], i, j)
    {
      if pools[j].config.priority < pools[i].config.priority {
        SwapRearranges(start, pools[..], i, j);
        SwapKeepsFront(pools[..], i, j);
        Exchange(pools, i, j);
      } else {
        LeastNext(pools[..], i, j);
      }
    }
    FrontNext(pools[..], i);
  }

  lemma LeastNext(pools: seq<Pool>, i: nat, j: nat)
    requires i < j < |pools| && Least(pools, i, j) && pools[i].config.priority <= pools[j].config.priority
    ensures Least(pools, i, j + 1)
  {
  }

  lemma FrontNext(pools: seq<Pool>, i: nat)
    requires i < |pools| && Front(pools, i) && Least(pools, i, |pools|)
    ensures Front(pools, i + 1)
  {
  }

  /** The exchange sort: sorted by priority, and the same pools. */
  method SortPoolsByPriority(pools: array<Pool>)
    requires Distinct(pools[..])
    modifies pools
    ensures Sorted(pools[..]) && Rearranged(old(pools[..]), pools[..])
  {
    ghost var start := pools[..];
    for i := 0 to pools.Length
      invariant Rearranged(start, pools[..]) && Front(pools[..], i)
    {
      Pass(pools, i, start);
    }
  }

  predicate AllNew(pools: seq<Pool>)
    reads pools
  {
    forall i :: 0 <= i < |pools| ==> pools[i].State() == F.Pool(pools[i].config, false, F.UNUSED)
  }

  /** One pool for each enabled configuration. */
  method CreatePools(configs: seq<F.Config>) returns (pools: seq<Pool>)
    ensures Distinct(pools) && AllNew(pools) && ConfigsOf(pools) == Enabled(configs)
    ensures forall p :: p in pools ==> fresh(p)
  {
    pools := [];
    for i := 0 to |configs|
      invariant Distinct(pools) && AllNew(pools) && ConfigsOf(pools) == Enabled(configs[..i])
      invariant forall p :: p in pools ==> fresh(p)
    {
      assert configs[..i + 1][..i] == configs[..i];
      if configs[i].enabled {
        var pool := new Pool(configs[i]);
        assert forall j :: 0 <= j < |pools| ==> pools[j] in pools;
        assert ConfigsOf(pools + [pool]) == ConfigsOf(pools) + [configs[i]];
        pools := pools + [pool];
      }
    }
    assert configs[..|configs|] == configs;
  }

  class Manager {
    const pools: array<Pool>
    var currentPool: int
    var stopped: bool

    ghost predicate Valid()
      reads this, pools
    {
      Distinct(pools[..]) && -1 <= currentPool < pools.Length
    }

    ghost function Objects(): set<object>
      reads pools
    {
      set i | 0 <= i < pools.Length :: pools[i] as object
    }

    ghost function View(): (v: seq<F.Pool>)
      reads pools, Objects()
      ensures |v| == pools.Length
    {
      seq(pools.Length, i requires 0 <= i < pools.Length reads pools, Objects() => pools[i].State())
    }

    ghost function Fleet(): F.Fleet
      reads this, pools, Objects()
    {
      F.Fleet(View(), currentPool)
    }

    /** Connect to one pool; reports whether that worked. */
    method ConnectToPool(p: int, up: nat -> bool) returns (ok: bool)
      requires Valid()
      modifies this`currentPool, Objects()
      ensures Valid()
      ensures (Fleet(), ok) == if 0 <= p < pools.Length then F.ConnectTo(old(Fleet()), p, up(p)) else (old(Fleet()), false)
    {
      if p < 0 || p >= pools.Length {
        return false;
      }
      ghost var before := View();
      var pool := pools[p];
      if pool.connected {
        ok := false;
      } else {
        var started := pool.client.started;
        if !started {
          pool.client := F.Client(true, up(p));
        }
        ok := started || up(p);
        if ok {
          pool.connected := true;
          currentPool := p;
        }
      }
      assert View() == if old(pool.connected) then before
                       else if ok then before[p := F.Joined(before[p], up(p))]
                       else before[p := F.Refused(before[p])];
    }

    method Start(up: nat -> bool) returns (ok: bool)
      requires Valid()
      modifies this`currentPool, Objects()
      ensures Valid()
      ensures ok == (pools.Length > 0)
      ensures Fleet() == F.StartFrom(old(Fleet()), 0, up)
    {
      if pools.Length == 0 {
        return false;
      }
      ok := true;
      var connected := ConnectToPool(0, up);
      if !connected {
        var i := 1;
        while i < pools.Length
          invariant 1 <= i <= pools.Length && Valid()
          invariant F.StartFrom(Fleet(), i, up) == F.StartFrom(old(Fleet()), 0, up)
        {
          connected := ConnectToPool(i, up);
          if connected {
            return;
          }
          i := i + 1;
        }
      }
    }

    /** Leave the current pool. */
    method Disconnect() returns (outcome: Outcome)
      requires Valid()
      modifies Objects()
      ensures Valid()
      ensures outcome == if F.Hangs(old(Fleet())) then Hung else Returned
      ensures View() == if outcome.Hung? then F.HalfDeserted(old(Fleet())) else F.Deserted(old(Fleet()))
    {
      ghost var before := View();
      outcome := Returned;
      if currentPool >= 0 && currentPool < pools.Length {
        var pool := pools[currentPool];
        if pool.connected {
          pool.connected := false;
          if pool.client.started && !pool.client.running {
            assert View() == before[currentPool := before[currentPool].(connected := false)];
            return Hung;
          }
          pool.client := F.UNUSED;
        }
        assert View() == before[currentPool := F.Left(before[currentPool])];
      }
    }

    /** Take a pool that is connected, or connect to it. */
    method Try(p: nat, up: nat -> bool) returns (ok: bool)
      requires Valid() && p < pools.Length
      modifies this`currentPool, Objects()
      ensures Valid()
      ensures ok == F.Answers(old(View())[p], up(p))
      ensures currentPool == if ok then p else old(currentPool)
      ensures View() == old(View())[p := if ok then F.Joined(old(View())[p], up(p)) else F.Refused(old(View())[p])]
    {
      ghost var before := View();
      var pool := pools[p];
      if pool.connected {
        currentPool := p;
        assert before[p := F.Joined(before[p], up(p))] == before;
        return true;
      }
      var started := pool.client.started;
      if !started {
        pool.client := F.Client(true, up(p));
      }
      ok := started || up(p);
      if ok {
        pool.connected := true;
        currentPool := p;
      }
      assert View() == before[p := if ok then F.Joined(before[p], up(p)) else F.Refused(before[p])];
    }

    /**
     Fail over to the next pool that answers.  A call that returns leaves the pools and the current
     index that `Failover.Switched` describes.
     */
    method SwitchToNextPool(up: nat -> bool) returns (outcome: Outcome)
      requires Valid()
      modifies this`currentPool, Objects()
      ensures Valid()
      ensures outcome == if F.Hangs(old(Fleet())) then Hung else Returned
      ensures Fleet() == if outcome.Hung? then F.Fleet(F.HalfDeserted(old(Fleet())), old(currentPool)) else F.Switched(old(Fleet()), up)
    {
      var currentIdx := currentPool;
      outcome := Disconnect();
      if outcome.Hung? {
        return;
      }
      TryNextPools(up);
    }

    /** The loop of the failover, starting behind the current pool. */
    method TryNextPools(up: nat -> bool)
      requires Valid()
      modifies this`currentPool, Objects()
      ensures Valid()
      ensures F.InRange(F.OrderFrom(pools.Length, old(currentPool), 0), pools.Length)
      ensures (View(), currentPool) == F.Search(old(View()), F.OrderFrom(pools.Length, old(currentPool), 0), up)
    {
      var currentIdx, n := currentPool, pools.Length;
      F.OrderInRange(n, currentIdx, 0);
      ghost var result := F.Search(View(), F.OrderFrom(n, currentIdx, 0), up);
      for i := 0 to n
        invariant Valid() && currentPool == currentIdx
        invariant F.InRange(F.OrderFrom(n, currentIdx, i), n)
        invariant F.Search(View(), F.OrderFrom(n, currentIdx, i), up) == result
      {
        F.OrderInRange(n, currentIdx, i + 1);
        F.CandidateIsRemainder(n, currentIdx, i);
        var p := (currentIdx + 1 + i) % n;
        if p == currentIdx && n > 1 {
          continue;
        }
        assert F.OrderFrom(n, currentIdx, i)[1..] == F.OrderFrom(n, currentIdx, i + 1);
        var ok := Try(p, up);
        if ok {
          return;
        }
      }
      currentPool := -1;
    }

    /**
     Stop every connected pool.  A second Stop closes a closed channel; a stale pool, the first of
     them if there are several, makes Stop hang with the later pools untouched.
     */
    method Stop() returns (outcome: Outcome)
      requires Valid()
      modifies this`currentPool, this`stopped, Objects()
      ensures Valid() && stopped
      ensures outcome == if old(stopped) then Panicked else if F.StopHangs(old(View()), 0) then Hung else Returned
      ensures Fleet() == if old(stopped) then old(Fleet())
                         else F.Fleet(F.StoppedFrom(old(View()), 0), if outcome.Hung? then old(currentPool) else -1)
    {
      if stopped {
        return Panicked;
      }
      stopped := true;
      ghost var before := View();
      for i := 0 to pools.Length
        invariant Valid() && stopped && currentPool == old(currentPool)
        invariant F.StoppedFrom(View(), i) == F.StoppedFrom(before, 0)
        invariant F.StopHangs(View(), i) == F.StopHangs(before, 0)
      {
        ghost var now := View();
        var pool := pools[i];
        if pool.connected {
          if pool.client.started && !pool.client.running {
            return Hung;
          }
          pool.client := F.UNUSED;
          pool.connected := false;
        }
        assert View() == now[i := F.Left(now[i])];
      }
      currentPool := -1;
      return Returned;
    }

    /** The enabled pools, by priority. */
    constructor (configs: seq<F.Config>)
      ensures Valid() && fresh(pools) && fresh(Objects())
      ensures currentPool == -1 && !stopped
      ensures Sorted(pools[..]) && multiset(ConfigsOf(pools[..])) == multiset(Enabled(configs))
      ensures Fleet() == F.Fresh(ConfigsOf(pools[..]))
    {
      var list := CreatePools(configs);
      var a := new Pool[|list|](i requires 0 <= i < |list| => list[i]);
      assert a[..] == list;
      SortPoolsByPriority(a);
      RearrangedAreMembers(list, a[..]);
      pools := a;
      currentPool := -1;
      stopped := false;
    }
  }
}
