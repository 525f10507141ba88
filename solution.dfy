/**
 * A Solution: a total income together with the accepted contracts, held in
 * an ordered dictionary keyed by each contract's start time. The selector
 * treats solutions as values (every update that must keep an older version
 * works on a copy), so a Solution is a datatype here.
 */
module Solutions {
  import opened Contracts
  import opened SortedDicts
  import opened SlimSolutions

  datatype Solution = Solution(income: int, path: SortedDict<Contract>)

  /** `path.values()`: the accepted contracts in ascending start order. */
  function Accepted(s: Solution): seq<Contract>
  {
    Values(s.path)
  }

  /** Each contract is stored under its own start, and the stored contracts never overlap. */
  ghost predicate ConsistentPath(path: SortedDict<Contract>)
  {
    && Valid(path)
    && (forall i :: 0 <= i < |path| ==> path[i].0 == path[i].1.start)
    && IsSchedule(Values(path))
  }

  /** The invariant a solution is meant to keep: a consistent path and income equal to its total price. */
  ghost predicate WellFormed(s: Solution)
  {
    ConsistentPath(s.path) && s.income == TotalPrice(Accepted(s))
  }

  /** `Solution.empty()`. */
  function Empty(): (r: Solution)
    ensures IsEmpty(r) && WellFormed(r)
  {
    Solution(0, [])
  }

  /** The `is_empty` property. */
  predicate IsEmpty(s: Solution): (r: bool)
    ensures r ==> Accepted(s) == [] && s.income == 0
  {
    s.income == 0 && |s.path| == 0
  }

  /**
   * `has_overlap`: looks only at the stored contracts just before and just
   * after `c.start` in key order.
   */
  function HasOverlap(s: Solution, c: Contract): (r: bool)
    ensures s.path == [] ==> !r
  {
    var i := BisectLeft(Keys(s.path), c.start);
    (i > 0 && End(s.path[i - 1].1) > c.start) || (i < |s.path| && End(c) > s.path[i].1.start)
  }

  /**
   * On a consistent path with positive durations, checking the two key
   * neighbours is exact: `has_overlap` holds iff `c` intersects some stored
   * contract.
   */
  lemma HasOverlapExact(s: Solution, c: Contract)
    requires ConsistentPath(s.path) && PositiveDurations(Accepted(s)) && c.duration > 0
    ensures HasOverlap(s, c) <==> exists j :: 0 <= j < |s.path| && Intersects(s.path[j].1, c)
  {
    var p := s.path;
    BisectEntries(p, c.start);
    var i := BisectLeft(Keys(p), c.start);
    assert forall j :: 0 <= j < |p| ==> Values(p)[j] == p[j].1 && p[j].1.duration > 0;
    if HasOverlap(s, c) {
      if i > 0 && End(p[i - 1].1) > c.start {
        assert Intersects(p[i - 1].1, c);
      } else {
        assert Intersects(p[i].1, c);
      }
    } else {
      forall j | 0 <= j < |p|
        ensures !Intersects(p[j].1, c)
      {
        if j < i - 1 {
          assert End(p[j].1) <= p[i - 1].1.start;
        } else if i < j {
          assert End(p[i].1) <= p[j].1.start;
        }
      }
    }
  }

  /**
   * `add_contract`: a new solution with `c` stored under `c.start` and its
   * price added; the receiver, being a value, is left as it was. The source
   * asserts that `c.start` is not yet a key.
   */
  function AddContract(s: Solution, c: Contract): (r: Solution)
    requires c.start !in Keys(s.path)
    ensures r.income == s.income + c.price
    ensures !IsEmpty(r)
  {
    Solution(s.income + c.price, Put(s.path, c.start, c))
  }

  /** `add_contract` adds exactly the entry `c.start -> c` and keeps the dictionary ordered. */
  lemma AddContractEntries(s: Solution, c: Contract)
    requires Valid(s.path) && c.start !in Keys(s.path)
    ensures Valid(AddContract(s, c).path)
    ensures forall e :: e in AddContract(s, c).path <==> e in s.path || e == (c.start, c)
    ensures |AddContract(s, c).path| == |s.path| + 1
  {
    PutSpec(s.path, c.start, c);
    assert forall e :: e in s.path ==> e.0 in Keys(s.path) by {
      forall e | e in s.path ensures e.0 in Keys(s.path) {
        var j :| 0 <= j < |s.path| && s.path[j] == e;
        assert Keys(s.path)[j] == e.0;
      }
    }
  }

  /** A path with one entry inserted at position `i`, where it fits. */
  lemma InsertIntoPath(p: SortedDict<Contract>, i: nat, c: Contract)
    requires ConsistentPath(p) && i <= |p|
    requires forall j :: 0 <= j < i ==> p[j].0 < c.start && End(p[j].1) <= c.start
    requires forall j :: i <= j < |p| ==> c.start < p[j].0 && End(c) <= p[j].1.start
    ensures ConsistentPath(p[..i] + [(c.start, c)] + p[i..])
    ensures TotalPrice(Values(p[..i] + [(c.start, c)] + p[i..])) == TotalPrice(Values(p)) + c.price
  {
    var before, after := p[..i], p[i..];
    var r := before + [(c.start, c)] + after;
    PutInserts(p, i, c.start, c);
    assert p == before + after;
    ValuesMiddle(before, (c.start, c), after);
    assert forall j :: 0 <= j < |before| ==> Values(before)[j] == p[j].1;
    assert forall j :: 0 <= j < |after| ==> Values(after)[j] == p[i + j].1;
    ScheduleInsert(Values(before), c, Values(after));
    TotalPriceMiddle(Values(before), c, Values(after));
    KeysAreStarts(before, (c.start, c), after);
  }

  /** A path with the entry at position `i` removed. */
  lemma RemoveFromPath(p: SortedDict<Contract>, i: nat)
    requires ConsistentPath(p) && i < |p|
    ensures ConsistentPath(p[..i] + p[i + 1..])
    ensures TotalPrice(Values(p[..i] + p[i + 1..])) == TotalPrice(Values(p)) - p[i].1.price
  {
    var before, after := p[..i], p[i + 1..];
    PopRemoves(p, i);
    assert p == before + [p[i]] + after;
    ValuesMiddle(before, p[i], after);
    ScheduleRemove(Values(before), p[i].1, Values(after));
    TotalPriceMiddle(Values(before), p[i].1, Values(after));
    KeysAreStarts(before, p[i], after);
  }

  /** Every entry of `before + [x] + after` is keyed by its start iff the same holds without `x`, given `x` is. */
  lemma KeysAreStarts(before: SortedDict<Contract>, x: (int, Contract), after: SortedDict<Contract>)
    ensures var r, q := before + [x] + after, before + after;
            (forall j :: 0 <= j < |r| ==> r[j].0 == r[j].1.start) <==>
            (x.0 == x.1.start && forall j :: 0 <= j < |q| ==> q[j].0 == q[j].1.start)
  {
    var r, q := before + [x] + after, before + after;
    var n := |before|;
    if forall j :: 0 <= j < |r| ==> r[j].0 == r[j].1.start {
      assert r[n] == x;
      forall j | 0 <= j < |q|
        ensures q[j].0 == q[j].1.start
      {
        assert q[j] == if j < n then r[j] else r[j + 1];
      }
    }
    if x.0 == x.1.start && forall j :: 0 <= j < |q| ==> q[j].0 == q[j].1.start {
      forall j | 0 <= j < |r|
        ensures r[j].0 == r[j].1.start
      {
        if j < n {
          assert r[j] == q[j];
        } else if j > n {
          assert r[j] == q[j - 1];
        }
      }
    }
  }

  /**
   * Adding a contract that `has_overlap` accepts keeps a well-formed
   * solution well-formed: the key is free, nothing overlaps, and the income
   * still equals the total price.
   */
  lemma AddContractKeepsWellFormed(s: Solution, c: Contract)
    requires WellFormed(s) && PositiveDurations(Accepted(s)) && c.duration > 0
    requires !HasOverlap(s, c)
    ensures c.start !in Keys(s.path)
    ensures WellFormed(AddContract(s, c))
  {
    var p := s.path;
    NeighboursFit(s, c);
    var i := BisectLeft(Keys(p), c.start);
    InsertIntoPath(p, i, c);
  }

  /** When `has_overlap` accepts `c`, no stored contract shares an hour with it. */
  lemma NoneIntersects(s: Solution, c: Contract)
    requires WellFormed(s) && PositiveDurations(Accepted(s)) && c.duration > 0
    requires !HasOverlap(s, c)
    ensures forall j :: 0 <= j < |s.path| ==> !Intersects(s.path[j].1, c) && s.path[j].1.duration > 0
  {
    HasOverlapExact(s, c);
    assert forall j :: 0 <= j < |s.path| ==> Values(s.path)[j] == s.path[j].1;
  }

  /**
   * When `has_overlap` accepts `c`, every stored contract before the
   * insertion point ends by `c.start` and every one after it starts no
   * earlier than `c` ends.
   */
  lemma NeighboursFit(s: Solution, c: Contract)
    requires WellFormed(s) && PositiveDurations(Accepted(s)) && c.duration > 0
    requires !HasOverlap(s, c)
    ensures c.start !in Keys(s.path)
    ensures var p, i := s.path, BisectLeft(Keys(s.path), c.start);
            && i <= |p|
            && Put(p, c.start, c) == p[..i] + [(c.start, c)] + p[i..]
            && (forall j :: 0 <= j < i ==> p[j].0 < c.start && End(p[j].1) <= c.start)
            && (forall j :: i <= j < |p| ==> c.start < p[j].0 && End(c) <= p[j].1.start)
  {
    var p := s.path;
    NoneIntersects(s, c);
    assert forall j :: 0 <= j < |p| ==> Keys(p)[j] != c.start by {
      forall j | 0 <= j < |p| ensures Keys(p)[j] != c.start {
        assert !Intersects(p[j].1, c);
      }
    }
    BisectFindsKey(p, c.start);
    BisectEntries(p, c.start);
    var i := BisectLeft(Keys(p), c.start);
    assert Put(p, c.start, c) == p[..i] + [(c.start, c)] + p[i..];
    forall j | 0 <= j < |p|
      ensures j < i ==> p[j].0 < c.start && End(p[j].1) <= c.start
      ensures i <= j ==> c.start < p[j].0 && End(c) <= p[j].1.start
    {
      assert !Intersects(p[j].1, c) && Keys(p)[j] == p[j].0;
    }
  }

  /**
   * When every stored contract ends by `c.start`, `add_contract` appends `c`
   * at the end of the path; the key is necessarily free.
   */
  lemma AddContractAppends(s: Solution, c: Contract)
    requires ConsistentPath(s.path) && PositiveDurations(Accepted(s))
    requires forall j :: 0 <= j < |s.path| ==> End(s.path[j].1) <= c.start
    ensures c.start !in Keys(s.path)
    ensures AddContract(s, c).path == s.path + [(c.start, c)]
    ensures Accepted(AddContract(s, c)) == Accepted(s) + [c]
  {
    var p := s.path;
    assert forall j :: 0 <= j < |p| ==> Values(p)[j] == p[j].1 && p[j].1.duration > 0;
    assert forall j :: 0 <= j < |p| ==> Keys(p)[j] < c.start;
    PutPastLast(p, c.start, c);
    ValuesConcat(p, [(c.start, c)]);
  }

  /**
   * `remove_contract` as written: drops the entry stored under `c.start`
   * if there is one, and leaves the income untouched (the sum is computed
   * and discarded).
   */
  function RemoveContract(s: Solution, c: Contract): (r: Solution)
    ensures r.income == s.income
    ensures c.start !in Keys(s.path) ==> r == s
  {
    if c.start in Keys(s.path) then Solution(s.income, Pop(s.path, c.start)) else s
  }

  lemma RemoveContractEntries(s: Solution, c: Contract)
    requires Valid(s.path)
    ensures Valid(RemoveContract(s, c).path)
    ensures forall e :: e in RemoveContract(s, c).path <==> e in s.path && e.0 != c.start
  {
    PopSpec(s.path, c.start);
  }

  /**
   * The discrepancy: removing the only contract of a well-formed solution
   * leaves an empty path with the old income.
   */
  lemma RemoveContractBreaksIncome()
    ensures var c := Contract("Contract1", 0, 1, 5);
            var s := AddContract(Empty(), c);
            WellFormed(s) && !WellFormed(RemoveContract(s, c)) && RemoveContract(s, c) == Solution(5, [])
  {
    var c := Contract("Contract1", 0, 1, 5);
    var s := AddContract(Empty(), c);
    assert s.path == [(0, c)];
    assert Values(s.path) == [c];
    assert [c][..0] == [];
    assert Keys(s.path) == [0];
  }

  /**
   * `remove_contract` as evidently intended: drops the entry stored under
   * `c.start` and takes that entry's price off the income.
   */
  function RemoveContractCorrected(s: Solution, c: Contract): (r: Solution)
    ensures c.start !in Keys(s.path) ==> r == s
  {
    if c.start in Keys(s.path) then
      Solution(s.income - GetOr(s.path, c.start, c).price, Pop(s.path, c.start))
    else
      s
  }

  /** The corrected removal keeps a well-formed solution well-formed. */
  lemma RemoveContractCorrectedKeepsWellFormed(s: Solution, c: Contract)
    requires WellFormed(s)
    ensures WellFormed(RemoveContractCorrected(s, c))
    ensures forall e :: e in RemoveContractCorrected(s, c).path <==> e in s.path && e.0 != c.start
  {
    var p := s.path;
    PopSpec(p, c.start);
    BisectFindsKey(p, c.start);
    if c.start in Keys(p) {
      var i := BisectLeft(Keys(p), c.start);
      assert GetOr(p, c.start, c) == p[i].1;
      assert Pop(p, c.start) == p[..i] + p[i + 1..];
      RemoveFromPath(p, i);
    }
  }

  /** The names of `cs`, in order. */
  function Names(cs: seq<Contract>): seq<string>
  {
    seq(|cs|, i requires 0 <= i < |cs| => cs[i].name)
  }

  /**
   * `to_slim`: a fresh compact solution with the same income and one name
   * per stored contract, in ascending start order.
   */
  method ToSlim(s: Solution) returns (slim: SlimSolution)
    ensures fresh(slim)
    ensures slim.income == s.income
    ensures |slim.path| == |s.path|
    ensures forall i :: 0 <= i < |s.path| ==> slim.path[i] == s.path[i].1.name
  {
    slim := new SlimSolution(s.income, Names(Accepted(s)));
  }
}
