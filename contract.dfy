/**
 * Contracts for the single shared resource (the spaceship). A contract can
 * only be accepted at its own `start` and then occupies the resource during
 * the half-open interval [start, start + duration), earning `price`.
 */
module Contracts {

  datatype Contract = Contract(name: string, start: int, duration: int, price: int)

  /** First instant after the contract: it occupies [start, End(c)). */
  function End(c: Contract): int
  {
    c.start + c.duration
  }

  /** The occupied intervals of `a` and `b` share at least one instant. */
  predicate Intersects(a: Contract, b: Contract)
  {
    a.start < End(b) && b.start < End(a)
  }

  /** A schedule for one resource: every contract has finished before any later one starts. */
  ghost predicate IsSchedule(s: seq<Contract>)
  {
    forall i, j :: 0 <= i < j < |s| ==> End(s[i]) <= s[j].start
  }

  /** Every contract of `s` is one of the contracts in `pool`. */
  ghost predicate DrawnFrom(s: seq<Contract>, pool: seq<Contract>)
  {
    forall i :: 0 <= i < |s| ==> s[i] in pool
  }

  ghost predicate PositiveDurations(s: seq<Contract>)
  {
    forall i :: 0 <= i < |s| ==> s[i].duration > 0
  }

  /** Sum of the prices of the contracts in `s`. */
  function TotalPrice(s: seq<Contract>): int
  {
    if s == [] then 0 else TotalPrice(s[..|s| - 1]) + s[|s| - 1].price
  }

  lemma {:induction false} TotalPriceConcat(a: seq<Contract>, b: seq<Contract>)
    ensures TotalPrice(a + b) == TotalPrice(a) + TotalPrice(b)
    decreases |b|
  {
    if b != [] {
      var b' := b[..|b| - 1];
      assert (a + b)[..|a + b| - 1] == a + b';
      TotalPriceConcat(a, b');
    } else {
      assert a + b == a;
    }
  }

  lemma TotalPriceMiddle(before: seq<Contract>, c: Contract, after: seq<Contract>)
    ensures TotalPrice(before + [c] + after) == TotalPrice(before + after) + c.price
  {
    TotalPriceConcat(before + [c], after);
    TotalPriceConcat(before, [c]);
    TotalPriceConcat(before, after);
    assert [c][..0] == [];
  }

  /** A contract that fits between two parts of a schedule can be inserted there. */
  lemma ScheduleInsert(before: seq<Contract>, c: Contract, after: seq<Contract>)
    requires IsSchedule(before + after)
    requires forall j :: 0 <= j < |before| ==> End(before[j]) <= c.start
    requires forall j :: 0 <= j < |after| ==> End(c) <= after[j].start
    ensures IsSchedule(before + [c] + after)
  {
    var s, r := before + after, before + [c] + after;
    var n := |before|;
    forall a, b | 0 <= a < b < |r|
      ensures End(r[a]) <= r[b].start
    {
      if b < n {
        assert r[a] == s[a] && r[b] == s[b];
      } else if a > n {
        assert r[a] == s[a - 1] && r[b] == s[b - 1];
      } else if a == n {
        assert r[b] == after[b - n - 1];
      } else if b == n {
        assert r[a] == before[a];
      } else {
        assert r[a] == s[a] && r[b] == s[b - 1];
      }
    }
  }

  /** Dropping a contract from a schedule leaves a schedule. */
  lemma ScheduleRemove(before: seq<Contract>, x: Contract, after: seq<Contract>)
    requires IsSchedule(before + [x] + after)
    ensures IsSchedule(before + after)
  {
    var s, r := before + [x] + after, before + after;
    var n := |before|;
    forall a, b | 0 <= a < b < |r|
      ensures End(r[a]) <= r[b].start
    {
      var a', b' := if a < n then a else a + 1, if b < n then b else b + 1;
      assert r[a] == s[a'] && r[b] == s[b'];
    }
  }

  /** With positive durations, the contracts of a schedule pairwise do not overlap. */
  lemma ScheduleHasNoOverlap(s: seq<Contract>)
    requires IsSchedule(s) && PositiveDurations(s)
    ensures forall i, j :: 0 <= i < |s| && 0 <= j < |s| && i != j ==> !Intersects(s[i], s[j])
  {
  }
}
