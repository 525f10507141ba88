/**
 * Dominance pruning. A contract can be dropped when another contract with
 * the same start pays at least as much for at most the same duration:
 * anything built with the first can use the second instead. The input is
 * sorted in place by (start, duration, -price), grouped by start into an
 * ordered dictionary of duration-keyed ordered dictionaries, and the
 * survivors are flattened in (start, duration) order.
 */
module ContractPruning {
  import opened Contracts
  import opened SortedDicts

  /**
   * `should_prune_contract`: `candidate` is dominated by `nextBest`, a
   * contract with the same start, at least its price and at most its
   * duration. A contract dominates itself.
   */
  predicate ShouldPrune(candidate: Contract, nextBest: Contract): (r: bool)
    ensures r ==> candidate.start == nextBest.start && End(nextBest) <= End(candidate)
    ensures candidate == nextBest ==> r
  {
    if candidate.start != nextBest.start then false
    else candidate.price <= nextBest.price && candidate.duration >= nextBest.duration
  }

  /** The pair from the module's demonstration: a longer, cheaper contract does not dominate. */
  lemma ShouldPruneDemo()
    ensures !ShouldPrune(Contract("Contract1", 0, 3, 5), Contract("Contract2", 0, 6, 4))
    ensures ShouldPrune(Contract("Contract2", 0, 6, 4), Contract("Contract1", 0, 3, 5))
  {
  }

  /** The sort key (start, duration, -price), compared lexicographically. */
  predicate PruneOrderLe(a: Contract, b: Contract): (r: bool)
    ensures r ==> a.start <= b.start && (a.start == b.start ==> a.duration <= b.duration)
    ensures a.start < b.start ==> r
    ensures a == b ==> r
  {
    || a.start < b.start
    || (a.start == b.start && a.duration < b.duration)
    || (a.start == b.start && a.duration == b.duration && a.price >= b.price)
  }

  ghost predicate SortedForPruning(s: seq<Contract>)
  {
    forall i, j :: 0 <= i < j < |s| ==> PruneOrderLe(s[i], s[j])
  }

  /** Ascending by (start, duration) with no (start, duration) pair repeated. */
  ghost predicate StrictlyOrdered(s: seq<Contract>)
  {
    forall i, j :: 0 <= i < j < |s| ==>
      s[i].start < s[j].start || (s[i].start == s[j].start && s[i].duration < s[j].duration)
  }

  /**
   * What pruning promises of `kept` with respect to the contracts `seen`:
   * only seen contracts are kept, every seen contract is dominated by a kept
   * one, a kept contract pays at least as much as any seen contract with
   * its start and duration, prices strictly rise with duration within a
   * start, and nothing is duplicated.
   */
  ghost predicate PrunedOf(kept: seq<Contract>, seen: seq<Contract>)
  {
    && KeptFrom(kept, seen)
    && Dominated(seen, kept)
    && BestForPair(kept, seen)
    && PricesRise(kept)
    && |kept| <= |seen|
  }

  /** The kept contracts are seen ones, none kept more often than it was seen. */
  ghost predicate KeptFrom(kept: seq<Contract>, seen: seq<Contract>)
  {
    multiset(kept) <= multiset(seen)
  }

  /** Every contract of `seen` is dominated by a contract of `kept`. */
  ghost predicate Dominated(seen: seq<Contract>, kept: seq<Contract>)
  {
    forall c :: c in seen ==> exists p :: p in kept && ShouldPrune(c, p)
  }

  /** A kept contract pays at least as much as any seen contract with its start and duration. */
  ghost predicate BestForPair(kept: seq<Contract>, seen: seq<Contract>)
  {
    forall p, c :: p in kept && c in seen && c.start == p.start && c.duration == p.duration ==>
      c.price <= p.price
  }

  /** Within one start, later (longer) kept contracts pay strictly more. */
  ghost predicate PricesRise(kept: seq<Contract>)
  {
    forall i, j :: 0 <= i < j < |kept| && kept[i].start == kept[j].start ==> kept[i].price < kept[j].price
  }

  /**
   * Sorts the caller's contracts in place by (start, duration, -price)
   * (`contracts.sort(key=...)`), here by insertion.
   */
  method SortForPruning(a: array<Contract>)
    modifies a
    ensures SortedForPruning(a[..])
    ensures multiset(a[..]) == multiset(old(a[..]))
  {
    var i := 0;
    while i < a.Length
      invariant 0 <= i <= a.Length
      invariant forall p, q :: 0 <= p < q < i ==> PruneOrderLe(a[p], a[q])
      invariant multiset(a[..]) == multiset(old(a[..]))
    {
      var j := i;
      while j > 0 && !PruneOrderLe(a[j - 1], a[j])
        invariant 0 <= j <= i
        invariant forall p, q :: 0 <= p < q <= i && q != j ==> PruneOrderLe(a[p], a[q])
        invariant multiset(a[..]) == multiset(old(a[..]))
      {
        a[j - 1], a[j] := a[j], a[j - 1];
        j := j - 1;
      }
      if j > 0 {
        forall p | 0 <= p < j - 1
          ensures PruneOrderLe(a[p], a[j])
        {
          assert PruneOrderLe(a[p], a[j - 1]);
        }
      }
      i := i + 1;
    }
  }

  /** Start time -> (duration -> surviving contract). */
  type Groups = SortedDict<SortedDict<Contract>>

  /**
   * The dictionary shape: start keys ascending, each group non-empty with
   * duration keys ascending, and every contract stored under its own start
   * and duration.
   */
  ghost predicate Shaped(groups: Groups)
  {
    && Valid(groups)
    && forall i :: 0 <= i < |groups| ==> GroupShaped(groups[i].0, groups[i].1)
  }

  ghost predicate GroupShaped(start: int, group: SortedDict<Contract>)
  {
    && Valid(group) && |group| > 0
    && forall j :: 0 <= j < |group| ==> group[j].1.start == start && group[j].1.duration == group[j].0
  }

  /** The survivors in (start, duration) order: the double loop over `items()`. */
  function Flatten(groups: Groups): seq<Contract>
  {
    if groups == [] then [] else Flatten(groups[..|groups| - 1]) + Values(groups[|groups| - 1].1)
  }

  /**
   * One iteration of the pruning loop: decides whether `c` enters the group
   * of its start, replacing a same-duration contract or being inserted by
   * duration, or is dropped.
   */
  function Absorb(groups: Groups, c: Contract): (r: Groups)
    ensures r == groups || r == Put(groups, c.start, Put(GetOr(groups, c.start, []), c.duration, c))
  {
    var existing := GetOr(groups, c.start, []);
    if c.duration in Keys(existing) && c.price > GetOr(existing, c.duration, c).price then
      Put(groups, c.start, Put(existing, c.duration, c))
    else if c.duration !in Keys(existing) && |existing| > 0 then
      var index := BisectLeft(Keys(existing), c.duration);
      if index > 0 then
        var shorter := existing[index - 1].1;
        if shorter.duration < c.duration && c.price > shorter.price then
          Put(groups, c.start, Put(existing, c.duration, c))
        else
          groups
      else
        Put(groups, c.start, Put(existing, c.duration, c))
    else if |existing| == 0 then
      Put(groups, c.start, Put(existing, c.duration, c))
    else
      groups
  }

  /** The contracts of one group, in duration order, all with the group's start. */
  lemma GroupValues(start: int, group: SortedDict<Contract>)
    requires GroupShaped(start, group)
    ensures forall p :: p in Values(group) ==> p.start == start
    ensures StrictlyOrdered(Values(group))
    ensures |Values(group)| > 0 && Values(group)[|group| - 1] == group[|group| - 1].1
  {
    var v := Values(group);
    forall p | p in v
      ensures p.start == start
    {
      var j :| 0 <= j < |v| && v[j] == p;
      assert p == group[j].1;
    }
    forall a, b | 0 <= a < b < |v|
      ensures v[a].start == v[b].start && v[a].duration < v[b].duration
    {
      assert v[a] == group[a].1 && v[b] == group[b].1;
    }
  }

  /** An ordered run followed by a group with a later start is still ordered. */
  lemma OrderedConcat(front: seq<Contract>, back: seq<Contract>, start: int)
    requires StrictlyOrdered(front) && StrictlyOrdered(back)
    requires forall p :: p in front ==> p.start < start
    requires forall p :: p in back ==> p.start == start
    ensures StrictlyOrdered(front + back)
  {
    var r := front + back;
    forall a, b | 0 <= a < b < |r|
      ensures r[a].start < r[b].start || (r[a].start == r[b].start && r[a].duration < r[b].duration)
    {
      if b < |front| {
        assert r[a] == front[a] && r[b] == front[b];
      } else if a < |front| {
        assert r[a] == front[a] && r[b] == back[b - |front|];
        assert r[a] in front && r[b] in back;
      } else {
        assert r[a] == back[a - |front|] && r[b] == back[b - |front|];
      }
    }
  }

  /** The flattened survivors are in strict (start, duration) order and end with the last group. */
  lemma {:induction false} FlattenShape(groups: Groups)
    requires Shaped(groups)
    ensures StrictlyOrdered(Flatten(groups))
    ensures |Flatten(groups)| >= |groups|
    ensures |groups| > 0 ==> Flatten(groups)[|Flatten(groups)| - 1] == Last(groups[|groups| - 1].1).1
    ensures |groups| > 0 ==> forall p :: p in Flatten(groups) ==> p.start <= groups[|groups| - 1].0
    decreases |groups|
  {
    if groups != [] {
      var n := |groups|;
      var init, g, s := groups[..n - 1], groups[n - 1].1, groups[n - 1].0;
      assert Shaped(init);
      FlattenShape(init);
      assert GroupShaped(s, g);
      GroupValues(s, g);
      var front, back := Flatten(init), Values(g);
      assert Flatten(groups) == front + back;
      assert forall p :: p in front ==> p.start < s by {
        if n > 1 {
          assert groups[n - 2].0 < s;
        }
      }
      OrderedConcat(front, back, s);
    }
  }

  /** Rewriting the last group keeps the shape and changes only the tail of the flattening. */
  lemma ReplaceLastGroup(groups: Groups, group: SortedDict<Contract>)
    requires Shaped(groups) && |groups| > 0
    requires GroupShaped(groups[|groups| - 1].0, group)
    ensures var r := groups[..|groups| - 1] + [(groups[|groups| - 1].0, group)];
            Shaped(r) && Flatten(r) == Flatten(groups[..|groups| - 1]) + Values(group)
  {
    var n := |groups|;
    var r := groups[..n - 1] + [(groups[n - 1].0, group)];
    assert r[..n - 1] == groups[..n - 1];
    forall i | 0 <= i < n
      ensures r[i].0 == groups[i].0
    {
    }
  }

  /** In strict order, the last survivor is the longest and dearest of its start. */
  lemma LastOfStart(view: seq<Contract>)
    requires StrictlyOrdered(view) && PricesRise(view) && |view| > 0
    ensures var e := view[|view| - 1];
            forall q :: q in view ==>
              q.start < e.start || q == e || (q.start == e.start && q.duration < e.duration && q.price < e.price)
  {
    var e := view[|view| - 1];
    forall q | q in view
      ensures q.start < e.start || q == e || (q.start == e.start && q.duration < e.duration && q.price < e.price)
    {
      var i :| 0 <= i < |view| && view[i] == q;
      if i < |view| - 1 {
        assert view[i].start < e.start || (view[i].start == e.start && view[i].duration < e.duration);
      }
    }
  }

  /** A dropped contract: already dominated by a survivor, and no survivor of its pair pays less. */
  lemma DropKeeps(view: seq<Contract>, seen: seq<Contract>, c: Contract, p: Contract)
    requires PrunedOf(view, seen)
    requires p in view && ShouldPrune(c, p)
    requires forall q :: q in view && q.start == c.start && q.duration == c.duration ==> c.price <= q.price
    ensures PrunedOf(view, seen + [c])
  {
    var seen' := seen + [c];
    assert forall x :: x in seen' <==> x in seen || x == c;
  }

  /** A contract appended after every survivor it could compete with. */
  lemma AppendKeeps(view: seq<Contract>, seen: seq<Contract>, c: Contract)
    requires PrunedOf(view, seen)
    requires forall q :: q in view ==>
               q.start < c.start || (q.start == c.start && q.duration < c.duration && q.price < c.price)
    ensures PrunedOf(view + [c], seen + [c])
  {
    var view', seen' := view + [c], seen + [c];
    assert forall x :: x in seen' <==> x in seen || x == c;
    assert forall x :: x in view' <==> x in view || x == c;
    assert ShouldPrune(c, c);
    forall p, x | p in view' && x in seen' && x.start == p.start && x.duration == p.duration
      ensures x.price <= p.price
    {
      if p == c && x in seen {
        var w :| w in view && ShouldPrune(x, w);
      }
    }
    forall i, j | 0 <= i < j < |view'| && view'[i].start == view'[j].start
      ensures view'[i].price < view'[j].price
    {
      if j == |view| {
        assert view'[i] in view;
      } else {
        assert view'[i] == view[i] && view'[j] == view[j];
      }
    }
  }

  /** A contract whose start has no group yet opens a new last group. */
  lemma AbsorbNewStart(groups: Groups, c: Contract)
    requires Valid(groups)
    requires forall i :: 0 <= i < |groups| ==> groups[i].0 < c.start
    ensures Absorb(groups, c) == groups + [(c.start, [(c.duration, c)])]
  {
    assert c.start !in Keys(groups);
    GetOrSpec(groups, c.start, []);
    assert Put([], c.duration, c) == [(c.duration, c)];
    PutPastLast(groups, c.start, [(c.duration, c)]);
  }

  /**
   * A contract of the last group's start, no shorter than anything in it:
   * it replaces the last entry, is appended after it, or is dropped.
   */
  lemma AbsorbIntoLastGroup(groups: Groups, c: Contract)
    requires Valid(groups) && |groups| > 0 && groups[|groups| - 1].0 == c.start
    requires var g := groups[|groups| - 1].1;
             && Valid(g) && |g| > 0 && g[|g| - 1].1.duration == g[|g| - 1].0
             && forall j :: 0 <= j < |g| ==> g[j].0 <= c.duration
    ensures var n, g := |groups|, groups[|groups| - 1].1;
            var m, e := |g|, g[|g| - 1].1;
            && (e.duration == c.duration && c.price > e.price ==>
                  Absorb(groups, c) == groups[..n - 1] + [(c.start, g[..m - 1] + [(c.duration, c)])])
            && (e.duration < c.duration && c.price > e.price ==>
                  Absorb(groups, c) == groups[..n - 1] + [(c.start, g + [(c.duration, c)])])
            && (c.price <= e.price ==> Absorb(groups, c) == groups)
  {
    var n, s, d := |groups|, c.start, c.duration;
    var g := groups[n - 1].1;
    var m := |g|;
    var e := g[m - 1].1;
    assert Keys(groups)[n - 1] == s;
    assert s in Keys(groups);
    BisectFindsKey(groups, s);
    BisectEntries(groups, s);
    assert GetOr(groups, s, []) == g;
    if e.duration == d {
      assert Keys(g)[m - 1] == d;
      BisectFindsKey(g, d);
      BisectEntries(g, d);
      assert GetOr(g, d, c) == e;
      PutAtLast(g, d, c);
      PutAtLast(groups, s, g[..m - 1] + [(d, c)]);
    } else {
      assert forall j :: 0 <= j < m ==> g[j].0 < d by {
        assert forall j :: 0 <= j < m - 1 ==> g[j].0 < g[m - 1].0;
      }
      assert d !in Keys(g);
      BisectEntries(g, d);
      assert BisectLeft(Keys(g), d) == m;
      PutPastLast(g, d, c);
      PutAtLast(groups, s, g + [(d, c)]);
    }
  }

  /** A new last group holding only `c`, after every earlier start. */
  lemma StepNewStart(groups: Groups, c: Contract)
    requires Shaped(groups)
    requires forall i :: 0 <= i < |groups| ==> groups[i].0 < c.start
    ensures var r := groups + [(c.start, [(c.duration, c)])];
            Shaped(r) && Flatten(r) == Flatten(groups) + [c]
  {
    var r := groups + [(c.start, [(c.duration, c)])];
    assert r[..|groups|] == groups;
    SingletonGroup(c);
  }

  /** A group holding only `c` is stored under `c.duration`. */
  lemma SingletonGroup(c: Contract)
    ensures GroupShaped(c.start, [(c.duration, c)])
    ensures Values([(c.duration, c)]) == [c]
  {
  }

  /** Every survivor starts no later than the last group's start. */
  lemma StartsBelow(groups: Groups, start: int)
    requires Shaped(groups)
    requires |groups| == 0 || groups[|groups| - 1].0 < start
    ensures forall i :: 0 <= i < |groups| ==> groups[i].0 < start
    ensures forall q :: q in Flatten(groups) ==> q.start < start
  {
    if |groups| > 0 {
      FlattenShape(groups);
      assert forall i :: 0 <= i < |groups| - 1 ==> groups[i].0 < groups[|groups| - 1].0;
    }
  }

  /** `c` appended to the last group, after its longest contract. */
  lemma StepExtend(groups: Groups, c: Contract)
    requires Shaped(groups)
    requires |groups| > 0 && groups[|groups| - 1].0 == c.start
    requires var g := groups[|groups| - 1].1; g[|g| - 1].1.duration < c.duration
    ensures var g := groups[|groups| - 1].1;
            var r := groups[..|groups| - 1] + [(c.start, g + [(c.duration, c)])];
            Shaped(r) && Flatten(r) == Flatten(groups) + [c]
  {
    var n, s, d := |groups|, c.start, c.duration;
    var g := groups[n - 1].1;
    var m := |g|;
    var init := groups[..n - 1];
    assert GroupShaped(s, g);
    assert groups == init + [(s, g)];
    assert Flatten(groups) == Flatten(init) + Values(g);
    var g' := g + [(d, c)];
    assert GroupShaped(s, g') by {
      assert forall j :: 0 <= j < m ==> g'[j] == g[j];
      assert forall j :: 0 <= j < m - 1 ==> g[j].0 < g[m - 1].0;
    }
    ReplaceLastGroup(groups, g');
    assert Values(g') == Values(g) + [c];
  }

  /** One iteration of the pruning loop keeps the dictionary shaped and its flattening pruned. */
  lemma AbsorbStep(groups: Groups, seen: seq<Contract>, c: Contract)
    requires Shaped(groups) && PrunedOf(Flatten(groups), seen)
    requires forall x :: x in seen ==> PruneOrderLe(x, c)
    ensures Shaped(Absorb(groups, c)) && PrunedOf(Flatten(Absorb(groups, c)), seen + [c])
  {
    var n := |groups|;
    if n == 0 || groups[n - 1].0 < c.start {
      AbsorbNewGroup(groups, seen, c);
    } else {
      var view := Flatten(groups);
      var g := groups[n - 1].1;
      var m := |g|;
      LastFacts(groups);
      assert g[m - 1].1 in multiset(view);
      assert g[m - 1].1 in seen;
      assert PruneOrderLe(g[m - 1].1, c);
      AbsorbSameStart(groups, seen, c);
    }
  }

  lemma AbsorbNewGroup(groups: Groups, seen: seq<Contract>, c: Contract)
    requires Shaped(groups) && PrunedOf(Flatten(groups), seen)
    requires |groups| == 0 || groups[|groups| - 1].0 < c.start
    ensures Shaped(Absorb(groups, c)) && PrunedOf(Flatten(Absorb(groups, c)), seen + [c])
  {
    StartsBelow(groups, c.start);
    StepNewStart(groups, c);
    AbsorbNewStart(groups, c);
    AppendKeeps(Flatten(groups), seen, c);
  }

  lemma AbsorbSameStart(groups: Groups, seen: seq<Contract>, c: Contract)
    requires Shaped(groups) && PrunedOf(Flatten(groups), seen)
    requires |groups| > 0 && groups[|groups| - 1].0 == c.start
    requires var g := groups[|groups| - 1].1; PruneOrderLe(g[|g| - 1].1, c)
    ensures Shaped(Absorb(groups, c)) && PrunedOf(Flatten(Absorb(groups, c)), seen + [c])
  {
    var n, s, d := |groups|, c.start, c.duration;
    var view := Flatten(groups);
    var g := groups[n - 1].1;
    var m := |g|;
    var e := g[m - 1].1;
    LastFacts(groups);
    assert forall j :: 0 <= j < m ==> g[j].0 <= d by {
      forall j | 0 <= j < m
        ensures g[j].0 <= d
      {
        assert j < m - 1 ==> g[j].0 < g[m - 1].0;
      }
    }
    AbsorbIntoLastGroup(groups, c);
    if c.price <= e.price {
      LastOfStart(view);
      DropKeeps(view, seen, c, e);
    } else if e.duration == d {
      // Sorted input puts the dearest contract of a (start, duration) pair first.
      assert false;
    } else {
      StepExtend(groups, c);
      LastOfStart(view);
      AppendKeeps(view, seen, c);
    }
  }

  /** The last survivor is the last entry of the last group. */
  lemma LastFacts(groups: Groups)
    requires Shaped(groups) && |groups| > 0
    ensures var g := groups[|groups| - 1].1;
            var view := Flatten(groups);
            && StrictlyOrdered(view) && |view| > 0
            && GroupShaped(groups[|groups| - 1].0, g) && view[|view| - 1] == g[|g| - 1].1
  {
    FlattenShape(groups);
  }

  /** The double loop that lists the survivors group by group. */
  method FlattenGroups(groups: Groups) returns (result: seq<Contract>)
    ensures result == Flatten(groups)
  {
    result := [];
    var i := 0;
    while i < |groups|
      invariant 0 <= i <= |groups|
      invariant result == Flatten(groups[..i])
    {
      var group := groups[i].1;
      var j := 0;
      while j < |group|
        invariant 0 <= j <= |group|
        invariant result == Flatten(groups[..i]) + Values(group[..j])
      {
        assert Values(group[..j + 1]) == Values(group[..j]) + [group[j].1];
        result := result + [group[j].1];
        j := j + 1;
      }
      assert group[..j] == group;
      assert groups[..i + 1][..i] == groups[..i];
      i := i + 1;
    }
    assert groups[..i] == groups;
  }

  /** The pruning loop over contracts already sorted by (start, duration, -price). */
  method GroupSorted(sorted: seq<Contract>) returns (groups: Groups)
    requires SortedForPruning(sorted)
    ensures Shaped(groups)
    ensures PrunedOf(Flatten(groups), sorted)
  {
    groups := [];
    var k := 0;
    while k < |sorted|
      invariant 0 <= k <= |sorted|
      invariant Shaped(groups) && PrunedOf(Flatten(groups), sorted[..k])
    {
      AbsorbNext(groups, sorted, k);
      groups := Absorb(groups, sorted[k]);
      k := k + 1;
    }
    assert sorted[..k] == sorted;
  }

  /** `AbsorbStep` for the next contract of a sorted list. */
  lemma AbsorbNext(groups: Groups, sorted: seq<Contract>, k: nat)
    requires SortedForPruning(sorted) && k < |sorted|
    requires Shaped(groups) && PrunedOf(Flatten(groups), sorted[..k])
    ensures Shaped(Absorb(groups, sorted[k])) && PrunedOf(Flatten(Absorb(groups, sorted[k])), sorted[..k + 1])
  {
    var c := sorted[k];
    SortedPrefixBelow(sorted, k);
    assert sorted[..k + 1] == sorted[..k] + [c];
    AbsorbStep(groups, sorted[..k], c);
  }

  lemma SortedPrefixBelow(sorted: seq<Contract>, k: nat)
    requires SortedForPruning(sorted) && k < |sorted|
    ensures forall x :: x in sorted[..k] ==> PruneOrderLe(x, sorted[k])
  {
    forall x | x in sorted[..k]
      ensures PruneOrderLe(x, sorted[k])
    {
      var i :| 0 <= i < k && sorted[..k][i] == x;
      assert sorted[i] == x;
    }
  }

  /** The pruning loop followed by the flattening, on sorted contracts. */
  method PruneSorted(sorted: seq<Contract>) returns (pruned: seq<Contract>)
    requires SortedForPruning(sorted)
    ensures StrictlyOrdered(pruned)
    ensures multiset(pruned) <= multiset(sorted)
    ensures forall c :: c in sorted ==> exists p :: p in pruned && ShouldPrune(c, p)
    ensures forall p, c :: p in pruned && c in sorted && c.start == p.start && c.duration == p.duration ==>
              c.price <= p.price
    ensures forall i, j :: 0 <= i < j < |pruned| && pruned[i].start == pruned[j].start ==>
              pruned[i].price < pruned[j].price
  {
    var groups := GroupSorted(sorted);
    FlattenShape(groups);
    pruned := FlattenGroups(groups);
  }

  /**
   * `prune_contracts`: sorts the caller's list in place, then keeps, for
   * every start, the contracts no other contract of that start dominates.
   */
  method PruneContracts(contracts: array<Contract>) returns (pruned: seq<Contract>)
    modifies contracts
    ensures multiset(contracts[..]) == multiset(old(contracts[..]))
    ensures SortedForPruning(contracts[..])
    ensures StrictlyOrdered(pruned)
    ensures multiset(pruned) <= multiset(contracts[..])
    ensures forall c :: c in contracts[..] ==> exists p :: p in pruned && ShouldPrune(c, p)
    ensures forall p, c :: p in pruned && c in contracts[..] && c.start == p.start && c.duration == p.duration ==>
              c.price <= p.price
    ensures forall i, j :: 0 <= i < j < |pruned| && pruned[i].start == pruned[j].start ==>
              pruned[i].price < pruned[j].price
  {
    SortForPruning(contracts);
    pruned := PruneSorted(contracts[..]);
  }

  /** Each contract of a schedule swapped for a kept contract that dominates it. */
  ghost function Substitute(s: seq<Contract>, seen: seq<Contract>, kept: seq<Contract>): (r: seq<Contract>)
    requires DrawnFrom(s, seen) && Dominated(seen, kept)
    ensures |r| == |s|
    ensures forall i :: 0 <= i < |s| ==> r[i] in kept && ShouldPrune(s[i], r[i])
  {
    if s == [] then []
    else
      var last := s[|s| - 1];
      assert last in seen;
      var p :| p in kept && ShouldPrune(last, p);
      Substitute(s[..|s| - 1], seen, kept) + [p]
  }

  /**
   * Pruning loses no income: whatever schedule the seen contracts allow,
   * the kept contracts allow one that earns at least as much.
   */
  lemma {:induction false} PruningKeepsBest(s: seq<Contract>, seen: seq<Contract>, kept: seq<Contract>)
    requires IsSchedule(s) && DrawnFrom(s, seen) && Dominated(seen, kept)
    ensures var r := Substitute(s, seen, kept);
            IsSchedule(r) && DrawnFrom(r, kept) && TotalPrice(r) >= TotalPrice(s)
    decreases |s|
  {
    var r := Substitute(s, seen, kept);
    if s != [] {
      var n := |s|;
      var s' := s[..n - 1];
      PruningKeepsBest(s', seen, kept);
      assert r[..n - 1] == Substitute(s', seen, kept);
      forall i, j | 0 <= i < j < n
        ensures End(r[i]) <= r[j].start
      {
        assert ShouldPrune(s[i], r[i]) && ShouldPrune(s[j], r[j]);
      }
    }
  }

  function Last<T>(s: seq<T>): T
    requires |s| > 0
  {
    s[|s| - 1]
  }
}
