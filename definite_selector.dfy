/**
 * The exact selector: bottom-up dynamic programming over a sparse table
 * from time points to solutions. The entry at `t` has finished by `t` and
 * earns at least as much as every schedule of the processed contracts whose
 * last contract ends at `t` (`Bounded`); at a frontier time (the distinct
 * start times, then the horizon) it also earns at least as much as every
 * such schedule finished by `t` (`Monotone`), while elsewhere it need not.
 * Contracts are processed in (start, duration) order; a contract improves the
 * entry at its end only when strictly better, and every improvement is
 * copied forward to the later frontier times that hold less. Other times
 * receive no copies.
 */
module DefiniteSelector {
  import opened Contracts
  import opened SortedDicts
  import opened Solutions
  import opened SlimSolutions
  import opened ContractPruning

  type Table = map<int, Solution>

  /** `dp.get(t, Solution.empty())`. */
  function At(dp: Table, t: int): (r: Solution)
    ensures t in dp ==> r == dp[t]
    ensures t !in dp ==> IsEmpty(r) && WellFormed(r)
  {
    if t in dp then dp[t] else Empty()
  }

  function Income(dp: Table, t: int): int
  {
    At(dp, t).income
  }

  /** Adds `x` to an ascending list of distinct values, where it belongs. */
  function InsertDistinct(xs: seq<int>, x: int): (r: seq<int>)
    ensures StrictlyAscending(xs) ==> StrictlyAscending(r)
    ensures forall y :: y in r <==> y in xs || y == x
    ensures |r| > 0 && (|xs| > 0 ==> r[0] == xs[0] || r[0] == x)
  {
    if xs == [] then [x]
    else if x < xs[0] then [x] + xs
    else if x == xs[0] then xs
    else [xs[0]] + InsertDistinct(xs[1..], x)
  }

  /** `sorted(set(contract.start for contract in contracts))`. */
  function DistinctStarts(cs: seq<Contract>): (r: seq<int>)
    ensures StrictlyAscending(r)
    ensures forall t :: t in r <==> exists i :: 0 <= i < |cs| && cs[i].start == t
  {
    if cs == [] then []
    else
      var rest := DistinctStarts(cs[..|cs| - 1]);
      assert forall i :: 0 <= i < |cs| - 1 ==> cs[..|cs| - 1][i] == cs[i];
      InsertDistinct(rest, cs[|cs| - 1].start)
  }

  /** `max(start + duration)` over a non-empty list: the latest end. */
  function Horizon(cs: seq<Contract>): (h: int)
    requires |cs| > 0
    ensures forall i :: 0 <= i < |cs| ==> End(cs[i]) <= h
    ensures exists i :: 0 <= i < |cs| && End(cs[i]) == h
  {
    if |cs| == 1 then End(cs[0])
    else
      var rest := Horizon(cs[..|cs| - 1]);
      assert forall i :: 0 <= i < |cs| - 1 ==> cs[..|cs| - 1][i] == cs[i];
      if End(cs[|cs| - 1]) > rest then End(cs[|cs| - 1]) else rest
  }

  /** With positive durations every start precedes the horizon, so the frontier is strictly ascending. */
  lemma FrontierAscending(cs: seq<Contract>)
    requires |cs| > 0 && PositiveDurations(cs)
    ensures StrictlyAscending(DistinctStarts(cs) + [Horizon(cs)])
  {
    var starts, h := DistinctStarts(cs), Horizon(cs);
    var f := starts + [h];
    forall t | t in starts
      ensures t < h
    {
      var i :| 0 <= i < |cs| && cs[i].start == t;
      assert End(cs[i]) <= h;
    }
    forall i, j | 0 <= i < j < |f|
      ensures f[i] < f[j]
    {
      if j < |starts| {
        assert f[i] == starts[i] && f[j] == starts[j];
      } else {
        assert f[i] in starts;
      }
    }
  }

  /**
   * The propagation loop over `frontier`, in order: every time after `end`
   * whose entry holds less than `n` gets its own copy of `n`.
   */
  function Spread(dp: Table, frontier: seq<int>, end: int, n: Solution): Table
  {
    if frontier == [] then dp
    else
      var before := Spread(dp, frontier[..|frontier| - 1], end, n);
      var t := frontier[|frontier| - 1];
      if t > end && Income(before, t) < n.income then before[t := n] else before
  }

  /** What `Spread` leaves at each time point. */
  lemma {:induction false} SpreadAt(dp: Table, frontier: seq<int>, end: int, n: Solution, t: int)
    ensures At(Spread(dp, frontier, end, n), t) ==
              if t in frontier && t > end && Income(dp, t) < n.income then n else At(dp, t)
    ensures t in Spread(dp, frontier, end, n) <==> t in dp || (t in frontier && t > end && Income(dp, t) < n.income)
  {
    if frontier != [] {
      var init := frontier[..|frontier| - 1];
      assert frontier == init + [frontier[|frontier| - 1]];
      SpreadAt(dp, init, end, n, t);
    }
  }

  /** Times at or before `end` are skipped, so a frontier below `end` changes nothing. */
  lemma {:induction false} SpreadBelow(dp: Table, frontier: seq<int>, end: int, n: Solution)
    requires forall i :: 0 <= i < |frontier| ==> frontier[i] < end
    ensures Spread(dp, frontier, end, n) == dp
  {
    if frontier != [] {
      SpreadBelow(dp, frontier[..|frontier| - 1], end, n);
    }
  }

  /**
   * The table after processing `c` (one iteration of the main loop): when
   * `dp[start].income + price` strictly beats `dp[end].income`, the end slot
   * gets `dp[start]` plus `c`, which is then spread to the later frontier
   * times. The source asserts, when it extends `dp[start]`, that `c.start`
   * is not yet a key of it.
   */
  function RelaxSpec(dp: Table, frontier: seq<int>, c: Contract): Table
    requires Income(dp, c.start) + c.price > Income(dp, End(c)) ==> c.start !in Keys(At(dp, c.start).path)
  {
    var candidate := Income(dp, c.start) + c.price;
    if candidate > Income(dp, End(c)) then
      var n := AddContract(At(dp, c.start), c);
      Spread(dp[End(c) := n], frontier, End(c), n)
    else
      dp
  }

  /** One iteration of the main loop, with its propagation loop over the frontier. */
  method Relax(dp: Table, startHours: seq<int>, c: Contract) returns (next: Table)
    requires Income(dp, c.start) + c.price > Income(dp, End(c)) ==> c.start !in Keys(At(dp, c.start).path)
    ensures next == RelaxSpec(dp, startHours, c)
  {
    var end := c.start + c.duration;
    var atEnd := At(dp, end);
    var atStart := At(dp, c.start);
    var candidate := atStart.income + c.price;
    next := dp;
    if candidate > atEnd.income {
      var n := AddContract(atStart, c);
      next := next[end := n];
      ghost var base := next;
      var i := BisectLeft(startHours, end);
      SpreadBelow(base, startHours[..i], end, n);
      while i < |startHours|
        invariant i <= |startHours|
        invariant next == Spread(base, startHours[..i], end, n)
      {
        var t := startHours[i];
        assert startHours[..i + 1][..i] == startHours[..i];
        if t > end && At(next, t).income < n.income {
          next := next[t := n];
        }
        i := i + 1;
      }
      assert startHours[..i] == startHours;
    }
  }

  /** What one iteration leaves at each time point. */
  lemma RelaxAt(dp: Table, frontier: seq<int>, c: Contract, t: int)
    requires Income(dp, c.start) + c.price > Income(dp, End(c)) ==> c.start !in Keys(At(dp, c.start).path)
    ensures Income(dp, c.start) + c.price <= Income(dp, End(c)) ==> RelaxSpec(dp, frontier, c) == dp
    ensures Income(dp, c.start) + c.price > Income(dp, End(c)) ==>
              var r, n := RelaxSpec(dp, frontier, c), AddContract(At(dp, c.start), c);
              var spread := t in frontier && t > End(c) && Income(dp, t) < n.income;
              && At(r, t) == (if t == End(c) || spread then n else At(dp, t))
              && (t in r <==> t in dp || t == End(c) || spread)
  {
    if Income(dp, c.start) + c.price > Income(dp, End(c)) {
      var n := AddContract(At(dp, c.start), c);
      SpreadAt(dp[End(c) := n], frontier, End(c), n, t);
    }
  }

  /** The value of the table only grows: no time point ever loses income. */
  lemma RelaxGrows(dp: Table, frontier: seq<int>, c: Contract)
    requires Income(dp, c.start) + c.price > Income(dp, End(c)) ==> c.start !in Keys(At(dp, c.start).path)
    ensures forall t :: Income(RelaxSpec(dp, frontier, c), t) >= Income(dp, t)
    ensures Income(RelaxSpec(dp, frontier, c), End(c)) >= Income(dp, c.start) + c.price
  {
    forall t
      ensures Income(RelaxSpec(dp, frontier, c), t) >= Income(dp, t)
    {
      RelaxAt(dp, frontier, c, t);
    }
    RelaxAt(dp, frontier, c, End(c));
  }

  /**
   * Ties keep the earlier solution; otherwise only the end slot and later
   * frontier slots holding less are written, all with the new solution.
   */
  lemma RelaxWrites(dp: Table, frontier: seq<int>, c: Contract)
    requires Income(dp, c.start) + c.price > Income(dp, End(c)) ==> c.start !in Keys(At(dp, c.start).path)
    ensures Income(dp, c.start) + c.price <= Income(dp, End(c)) ==> RelaxSpec(dp, frontier, c) == dp
    ensures Income(dp, c.start) + c.price > Income(dp, End(c)) ==>
              var r, n := RelaxSpec(dp, frontier, c), AddContract(At(dp, c.start), c);
              && End(c) in r && r[End(c)] == n
              && forall t :: t in r && t != End(c) && (t !in dp || r[t] != dp[t]) ==>
                   t in frontier && t > End(c) && Income(dp, t) < n.income && r[t] == n
  {
    RelaxAt(dp, frontier, c, End(c));
    forall t
      ensures Income(dp, c.start) + c.price > Income(dp, End(c)) ==>
              var r, n := RelaxSpec(dp, frontier, c), AddContract(At(dp, c.start), c);
              t in r && t != End(c) && (t !in dp || r[t] != dp[t]) ==>
                t in frontier && t > End(c) && Income(dp, t) < n.income && r[t] == n
    {
      RelaxAt(dp, frontier, c, t);
    }
  }

  /** Every contract stored in `s` has finished by time `t`. */
  ghost predicate EndsBy(s: Solution, t: int)
  {
    forall j :: 0 <= j < |s.path| ==> End(s.path[j].1) <= t
  }

  /** What every table entry satisfies: a consistent solution from `pool`, finished by its time, never negative. */
  ghost predicate SlotOk(s: Solution, t: int, pool: seq<Contract>)
  {
    && WellFormed(s)
    && DrawnFrom(Accepted(s), pool)
    && EndsBy(s, t)
    && s.income >= 0
  }

  ghost predicate TableOk(dp: Table, pool: seq<Contract>)
  {
    forall t :: t in dp ==> SlotOk(dp[t], t, pool)
  }

  /** A stored entry never holds more than any later frontier time. */
  ghost predicate Monotone(dp: Table, frontier: seq<int>)
  {
    forall t, f :: t in dp && f in frontier && t < f ==> dp[t].income <= Income(dp, f)
  }

  /** No schedule over `seen` earns more than the table holds at the end of its last contract. */
  ghost predicate Bounded(dp: Table, seen: seq<Contract>)
  {
    forall s :: IsSchedule(s) && DrawnFrom(s, seen) && |s| > 0 ==> TotalPrice(s) <= Income(dp, End(s[|s| - 1]))
  }

  ghost predicate StartsNondecreasing(s: seq<Contract>)
  {
    forall i, j :: 0 <= i < j < |s| ==> s[i].start <= s[j].start
  }

  lemma AtOk(dp: Table, pool: seq<Contract>, t: int)
    requires TableOk(dp, pool)
    ensures SlotOk(At(dp, t), t, pool)
  {
  }

  /**
   * Extending the entry at `c.start` by `c` keeps it consistent: the
   * source's precondition of `add_contract` holds, and the new solution
   * finishes at the end of `c`.
   */
  lemma ExtendSlot(s: Solution, c: Contract, pool: seq<Contract>)
    requires SlotOk(s, c.start, pool) && PositiveDurations(pool) && c in pool
    ensures c.start !in Keys(s.path)
    ensures var n := AddContract(s, c);
            WellFormed(n) && DrawnFrom(Accepted(n), pool) && EndsBy(n, End(c))
  {
    var p := s.path;
    assert forall j :: 0 <= j < |p| ==> Accepted(s)[j] == p[j].1;
    assert PositiveDurations(Accepted(s));
    AddContractAppends(s, c);
    var n := AddContract(s, c);
    var a := Accepted(s);
    assert Accepted(n)[..|a|] == a;
    assert forall j :: 0 <= j < |p| ==> p[j].0 < c.start;
  }

  /** One iteration keeps every table entry consistent. */
  lemma StepKeepsTable(dp: Table, frontier: seq<int>, c: Contract, pool: seq<Contract>)
    requires TableOk(dp, pool) && PositiveDurations(pool) && c in pool
    ensures c.start !in Keys(At(dp, c.start).path)
    ensures TableOk(RelaxSpec(dp, frontier, c), pool)
  {
    AtOk(dp, pool, c.start);
    AtOk(dp, pool, End(c));
    ExtendSlot(At(dp, c.start), c, pool);
    var r := RelaxSpec(dp, frontier, c);
    forall t | t in r
      ensures SlotOk(r[t], t, pool)
    {
      RelaxAt(dp, frontier, c, t);
    }
  }

  /** One iteration keeps entries below later frontier times. */
  lemma StepKeepsMonotone(dp: Table, frontier: seq<int>, c: Contract)
    requires Income(dp, c.start) + c.price > Income(dp, End(c)) ==> c.start !in Keys(At(dp, c.start).path)
    requires Monotone(dp, frontier)
    ensures Monotone(RelaxSpec(dp, frontier, c), frontier)
  {
    var r := RelaxSpec(dp, frontier, c);
    forall t, f | t in r && f in frontier && t < f
      ensures r[t].income <= Income(r, f)
    {
      RelaxAt(dp, frontier, c, t);
      RelaxAt(dp, frontier, c, f);
    }
  }

  /** No entry of a consistent table is negative. */
  lemma IncomesNonNegative(dp: Table, pool: seq<Contract>)
    requires TableOk(dp, pool)
    ensures forall t :: Income(dp, t) >= 0
  {
    forall t
      ensures Income(dp, t) >= 0
    {
      AtOk(dp, pool, t);
    }
  }

  /** Before the contract just processed, a schedule ending with it uses only earlier contracts. */
  lemma PrefixAvoidsLatest(pool: seq<Contract>, k: nat, s: seq<Contract>)
    requires k < |pool| && pool[k].duration > 0
    requires IsSchedule(s) && DrawnFrom(s, pool[..k + 1]) && |s| > 0 && s[|s| - 1] == pool[k]
    ensures IsSchedule(s[..|s| - 1]) && DrawnFrom(s[..|s| - 1], pool[..k])
  {
    var c, n := pool[k], |s|;
    assert pool[..k + 1] == pool[..k] + [c];
    forall i | 0 <= i < n - 1
      ensures s[i] in pool[..k]
    {
      assert End(s[i]) <= c.start;
      assert s[i] in pool[..k] + [c];
    }
  }

  /** The new bound for a schedule that ends with the contract just processed. */
  lemma BoundEndingWith(dp: Table, pool: seq<Contract>, frontier: seq<int>, k: nat, s: seq<Contract>)
    requires k < |pool| && pool[k].duration > 0 && pool[k].start in frontier
    requires (forall t :: Income(dp, t) >= 0) && Monotone(dp, frontier) && Bounded(dp, pool[..k])
    requires IsSchedule(s) && DrawnFrom(s, pool[..k + 1]) && |s| > 0 && s[|s| - 1] == pool[k]
    ensures TotalPrice(s) <= Income(dp, pool[k].start) + pool[k].price
  {
    var c := pool[k];
    var init := s[..|s| - 1];
    PrefixAvoidsLatest(pool, k, s);
    assert Income(dp, c.start) >= 0;
    if init != [] {
      var last := init[|init| - 1];
      assert End(last) <= c.start;
      assert TotalPrice(init) <= Income(dp, End(last));
      assert Income(dp, End(last)) <= Income(dp, c.start);
    }
  }

  /** A schedule that does not end with the contract just processed does not use it at all. */
  lemma AvoidsLatest(pool: seq<Contract>, k: nat, s: seq<Contract>)
    requires k < |pool| && PositiveDurations(pool) && StartsNondecreasing(pool)
    requires IsSchedule(s) && DrawnFrom(s, pool[..k + 1]) && |s| > 0 && s[|s| - 1] != pool[k]
    ensures DrawnFrom(s, pool[..k])
  {
    var c, n := pool[k], |s|;
    assert pool[..k + 1] == pool[..k] + [c];
    assert c.duration > 0;
    var last := s[n - 1];
    assert last in pool[..k];
    var j :| 0 <= j < k && pool[..k][j] == last;
    assert last.start <= c.start;
    forall i | 0 <= i < n - 1
      ensures s[i] in pool[..k]
    {
      assert End(s[i]) <= last.start;
      assert s[i] in pool[..k] + [c];
    }
  }

  /** One iteration extends the bound to the contract just processed. */
  lemma StepKeepsBounded(dp: Table, pool: seq<Contract>, frontier: seq<int>, k: nat)
    requires k < |pool| && PositiveDurations(pool) && StartsNondecreasing(pool) && pool[k].start in frontier
    requires TableOk(dp, pool) && Monotone(dp, frontier) && Bounded(dp, pool[..k])
    requires pool[k].start !in Keys(At(dp, pool[k].start).path)
    ensures Bounded(RelaxSpec(dp, frontier, pool[k]), pool[..k + 1])
  {
    var c := pool[k];
    var r := RelaxSpec(dp, frontier, c);
    RelaxGrows(dp, frontier, c);
    IncomesNonNegative(dp, pool);
    forall s | IsSchedule(s) && DrawnFrom(s, pool[..k + 1]) && |s| > 0
      ensures TotalPrice(s) <= Income(r, End(s[|s| - 1]))
    {
      if s[|s| - 1] == c {
        BoundEndingWith(dp, pool, frontier, k, s);
      } else {
        AvoidsLatest(pool, k, s);
      }
    }
  }

  /** One iteration keeps all three table invariants. */
  lemma StepKeepsInvariant(dp: Table, pool: seq<Contract>, frontier: seq<int>, k: nat)
    requires k < |pool| && PositiveDurations(pool) && StartsNondecreasing(pool) && pool[k].start in frontier
    requires TableOk(dp, pool) && Monotone(dp, frontier) && Bounded(dp, pool[..k])
    ensures pool[k].start !in Keys(At(dp, pool[k].start).path)
    ensures var r := RelaxSpec(dp, frontier, pool[k]);
            TableOk(r, pool) && Monotone(r, frontier) && Bounded(r, pool[..k + 1])
  {
    assert pool[k] in pool;
    StepKeepsTable(dp, frontier, pool[k], pool);
    StepKeepsMonotone(dp, frontier, pool[k]);
    StepKeepsBounded(dp, pool, frontier, k);
  }

  /** Once every contract is processed, the entry at the horizon beats every schedule. */
  lemma HorizonIsBest(dp: Table, pool: seq<Contract>, frontier: seq<int>)
    requires |pool| > 0 && Horizon(pool) in frontier
    requires TableOk(dp, pool) && Monotone(dp, frontier) && Bounded(dp, pool)
    ensures forall s :: IsSchedule(s) && DrawnFrom(s, pool) ==> TotalPrice(s) <= Income(dp, Horizon(pool))
  {
    var h := Horizon(pool);
    AtOk(dp, pool, h);
    forall s | IsSchedule(s) && DrawnFrom(s, pool)
      ensures TotalPrice(s) <= Income(dp, h)
    {
      if s != [] {
        var last := s[|s| - 1];
        assert last in pool;
        assert End(last) <= h;
        AtOk(dp, pool, End(last));
      }
    }
  }

  /**
   * The dynamic program over contracts sorted by (start, duration): builds
   * the frontier, processes every contract, and returns the entry at the
   * horizon, which is a consistent selection that no schedule beats.
   */
  method SelectFromPruned(pruned: seq<Contract>) returns (best: Solution)
    requires |pruned| > 0 && PositiveDurations(pruned) && StartsNondecreasing(pruned)
    ensures WellFormed(best) && DrawnFrom(Accepted(best), pruned) && best.income >= 0
    ensures forall s :: IsSchedule(s) && DrawnFrom(s, pruned) ==> TotalPrice(s) <= best.income
  {
    var endOfDuration := Horizon(pruned);
    var startHours := DistinctStarts(pruned);
    startHours := startHours + [endOfDuration];
    var dp: Table := map[];
    var k := 0;
    while k < |pruned|
      invariant k <= |pruned|
      invariant TableOk(dp, pruned) && Monotone(dp, startHours) && Bounded(dp, pruned[..k])
    {
      var c := pruned[k];
      assert c.start in startHours[..|startHours| - 1];
      StepKeepsInvariant(dp, pruned, startHours, k);
      dp := Relax(dp, startHours, c);
      k := k + 1;
    }
    assert pruned[..k] == pruned;
    HorizonIsBest(dp, pruned, startHours);
    AtOk(dp, pruned, endOfDuration);
    best := At(dp, endOfDuration);
  }

  lemma PositiveWithin(a: seq<Contract>, b: seq<Contract>)
    requires multiset(a) <= multiset(b) && PositiveDurations(b)
    ensures PositiveDurations(a)
  {
    forall i | 0 <= i < |a|
      ensures a[i].duration > 0
    {
      assert a[i] in multiset(a);
      assert a[i] in b;
    }
  }

  lemma DrawnWithin(s: seq<Contract>, a: seq<Contract>, b: seq<Contract>)
    requires DrawnFrom(s, a) && multiset(a) <= multiset(b)
    ensures DrawnFrom(s, b)
  {
    forall i | 0 <= i < |s|
      ensures s[i] in b
    {
      assert s[i] in multiset(a);
    }
  }

  /**
   * `select_contracts`: an empty request yields the empty solution;
   * otherwise the caller's contracts are pruned (and so sorted in place) and
   * the dynamic program picks a consistent selection of them that no
   * schedule of those contracts beats.
   */
  method SelectContracts(contracts: array<Contract>) returns (best: Solution)
    requires forall i :: 0 <= i < contracts.Length ==> contracts[i].duration > 0
    modifies contracts
    ensures contracts.Length == 0 ==> best == Empty()
    ensures multiset(contracts[..]) == multiset(old(contracts[..]))
    ensures SortedForPruning(contracts[..])
    ensures WellFormed(best) && DrawnFrom(Accepted(best), contracts[..]) && best.income >= 0
    ensures forall s :: IsSchedule(s) && DrawnFrom(s, contracts[..]) ==> TotalPrice(s) <= best.income
  {
    if contracts.Length == 0 {
      return Empty();
    }
    ghost var before := contracts[..];
    assert PositiveDurations(before);
    var pruned := PruneContracts(contracts);
    var all := contracts[..];
    PositiveWithin(all, before);
    PositiveWithin(pruned, all);
    assert all[0] in all;
    best := SelectFromPruned(pruned);
    DrawnWithin(Accepted(best), pruned, all);
    forall s | IsSchedule(s) && DrawnFrom(s, all)
      ensures TotalPrice(s) <= best.income
    {
      PruningKeepsBest(s, all, pruned);
    }
  }

  /**
   * The `resolve_optimize_contracts` resolver: the selection, in its compact form.
   * The income is that of a schedule of the caller's contracts whose names
   * the path lists in order, and no schedule of them earns more.
   */
  method ResolveOptimizeContracts(contracts: array<Contract>) returns (slim: SlimSolution)
    requires forall i :: 0 <= i < contracts.Length ==> contracts[i].duration > 0
    modifies contracts
    ensures fresh(slim)
    ensures multiset(contracts[..]) == multiset(old(contracts[..]))
    ensures SortedForPruning(contracts[..])
    ensures exists s :: IsSchedule(s) && DrawnFrom(s, contracts[..]) && TotalPrice(s) == slim.income && Names(s) == slim.path
    ensures forall s :: IsSchedule(s) && DrawnFrom(s, contracts[..]) ==> TotalPrice(s) <= slim.income
  {
    var best := SelectContracts(contracts);
    slim := ToSlim(best);
    assert Names(Accepted(best)) == slim.path;
  }
}
