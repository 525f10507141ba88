/**
 * The ordered dictionary with integer keys that the selector uses for a
 * solution's path and for the pruning groups. It is kept as its entries in
 * strictly ascending key order; `bisect_left`, `peekitem`, lookup,
 * insertion and `pop` are modelled by what they return, not by the balanced
 * tree that implements them.
 */
module SortedDicts {

  type SortedDict<V> = seq<(int, V)>

  function Keys<V>(d: SortedDict<V>): seq<int>
  {
    seq(|d|, i requires 0 <= i < |d| => d[i].0)
  }

  /** The values in ascending key order (`items()` / `values()` iteration order). */
  function Values<V>(d: SortedDict<V>): seq<V>
  {
    seq(|d|, i requires 0 <= i < |d| => d[i].1)
  }

  /** Non-decreasing keys: what `bisect_left` needs of its input. */
  ghost predicate Sorted(ks: seq<int>)
  {
    forall i, j :: 0 <= i < j < |ks| ==> ks[i] <= ks[j]
  }

  ghost predicate StrictlyAscending(ks: seq<int>)
  {
    forall i, j :: 0 <= i < j < |ks| ==> ks[i] < ks[j]
  }

  /**
   * The dictionary invariant: keys strictly ascending, hence unique. This is
   * `StrictlyAscending(Keys(d))` (`ValidMeansAscendingKeys`), stated on the
   * entries so that proofs about entries need not unfold `Keys`.
   */
  ghost predicate Valid<V>(d: SortedDict<V>)
  {
    forall i, j :: 0 <= i < j < |d| ==> d[i].0 < d[j].0
  }

  lemma ValidMeansAscendingKeys<V>(d: SortedDict<V>)
    ensures Valid(d) <==> StrictlyAscending(Keys(d))
  {
    assert forall i :: 0 <= i < |d| ==> Keys(d)[i] == d[i].0;
  }

  /** `bisect_left`: the position of the first key that is not below `k`. */
  function BisectLeft(ks: seq<int>, k: int): (i: nat)
    ensures i <= |ks|
    ensures forall j :: 0 <= j < i ==> ks[j] < k
    ensures Sorted(ks) ==> forall j :: i <= j < |ks| ==> k <= ks[j]
  {
    if |ks| == 0 || k <= ks[0] then 0 else 1 + BisectLeft(ks[1..], k)
  }

  lemma KeysSorted<V>(d: SortedDict<V>)
    requires Valid(d)
    ensures Sorted(Keys(d))
  {
  }

  /** `d.get(k, default)`. */
  function GetOr<V>(d: SortedDict<V>, k: int, default: V): V
  {
    var i := BisectLeft(Keys(d), k);
    if i < |d| && d[i].0 == k then d[i].1 else default
  }

  /** `d[k] = v`: replaces the entry for `k`, or inserts one at its place in key order. */
  function Put<V>(d: SortedDict<V>, k: int, v: V): SortedDict<V>
  {
    var i := BisectLeft(Keys(d), k);
    if i < |d| && d[i].0 == k then d[i := (k, v)] else d[..i] + [(k, v)] + d[i..]
  }

  /** `d.pop(k)` when `k` is present; an absent key leaves the dictionary as it is. */
  function Pop<V>(d: SortedDict<V>, k: int): SortedDict<V>
  {
    var i := BisectLeft(Keys(d), k);
    if i < |d| && d[i].0 == k then d[..i] + d[i + 1..] else d
  }

  /** `bisect_left` on a dictionary's keys, stated on its entries. */
  lemma BisectEntries<V>(d: SortedDict<V>, k: int)
    requires Valid(d)
    ensures var i := BisectLeft(Keys(d), k);
            && (forall j :: 0 <= j < i ==> d[j].0 < k)
            && (forall j :: i <= j < |d| ==> k <= d[j].0)
            && (i == |d| || k <= d[i].0)
  {
    KeysSorted(d);
    var i := BisectLeft(Keys(d), k);
    forall j | 0 <= j < |d|
      ensures j < i ==> d[j].0 < k
      ensures i <= j ==> k <= d[j].0
    {
      assert Keys(d)[j] == d[j].0;
    }
  }

  /** Where `bisect_left` stops in a dictionary: at the entry for `k` if there is one. */
  lemma BisectFindsKey<V>(d: SortedDict<V>, k: int)
    requires Valid(d)
    ensures var i := BisectLeft(Keys(d), k);
            (k in Keys(d) <==> i < |d| && d[i].0 == k)
  {
    KeysSorted(d);
    var i := BisectLeft(Keys(d), k);
    if i < |d| {
      assert Keys(d)[i] == d[i].0;
    }
    if k in Keys(d) {
      var j :| 0 <= j < |d| && Keys(d)[j] == k;
      assert i <= j;
      assert d[i].0 >= d[j].0;
    }
  }

  lemma GetOrSpec<V>(d: SortedDict<V>, k: int, default: V)
    requires Valid(d)
    ensures k in Keys(d) ==> (k, GetOr(d, k, default)) in d
    ensures k !in Keys(d) ==> GetOr(d, k, default) == default
  {
    BisectFindsKey(d, k);
  }

  lemma PutSpec<V(!new)>(d: SortedDict<V>, k: int, v: V)
    requires Valid(d)
    ensures Valid(Put(d, k, v))
    ensures forall e :: e in Put(d, k, v) <==> (e in d && e.0 != k) || e == (k, v)
    ensures k in Keys(d) ==> |Put(d, k, v)| == |d|
    ensures k !in Keys(d) ==> exists i :: 0 <= i <= |d| && Put(d, k, v) == d[..i] + [(k, v)] + d[i..]
  {
    BisectFindsKey(d, k);
    BisectEntries(d, k);
    var i := BisectLeft(Keys(d), k);
    if i < |d| && d[i].0 == k {
      PutReplaces(d, i, v);
    } else {
      PutInserts(d, i, k, v);
    }
  }

  lemma PutReplaces<V(!new)>(d: SortedDict<V>, i: nat, v: V)
    requires Valid(d) && i < |d|
    ensures var r := d[i := (d[i].0, v)];
            Valid(r) && forall e :: e in r <==> (e in d && e.0 != d[i].0) || e == (d[i].0, v)
  {
    var k := d[i].0;
    var r := d[i := (k, v)];
    forall e
      ensures e in r <==> (e in d && e.0 != k) || e == (k, v)
    {
      if e in d && e.0 != k {
        var j :| 0 <= j < |d| && d[j] == e;
        assert r[j] == e;
      }
      if e in r && e != (k, v) {
        var j :| 0 <= j < |r| && r[j] == e;
        assert j != i && d[j] == e;
        assert j < i ==> d[j].0 < d[i].0;
        assert j > i ==> d[i].0 < d[j].0;
      }
      assert r[i] == (k, v);
    }
  }

  lemma PutInserts<V(!new)>(d: SortedDict<V>, i: nat, k: int, v: V)
    requires Valid(d) && i <= |d|
    requires forall j :: 0 <= j < i ==> d[j].0 < k
    requires forall j :: i <= j < |d| ==> k < d[j].0
    ensures var r := d[..i] + [(k, v)] + d[i..];
            Valid(r) && forall e :: e in r <==> (e in d && e.0 != k) || e == (k, v)
  {
    InsertedInOrder(d, i, k, v);
    InsertedEntries(d, i, k, v);
  }

  lemma InsertedInOrder<V>(d: SortedDict<V>, i: nat, k: int, v: V)
    requires Valid(d) && i <= |d|
    requires forall j :: 0 <= j < i ==> d[j].0 < k
    requires forall j :: i <= j < |d| ==> k < d[j].0
    ensures Valid(d[..i] + [(k, v)] + d[i..])
  {
    var r := d[..i] + [(k, v)] + d[i..];
    forall a, b | 0 <= a < b < |r|
      ensures r[a].0 < r[b].0
    {
      if b < i {
        assert r[a] == d[a] && r[b] == d[b];
      } else if a > i {
        assert r[a] == d[a - 1] && r[b] == d[b - 1];
      } else if a == i {
        assert r[b] == d[b - 1];
      } else if b == i {
        assert r[a] == d[a];
      } else {
        assert r[a] == d[a] && r[b] == d[b - 1];
      }
    }
  }

  lemma InsertedEntries<V(!new)>(d: SortedDict<V>, i: nat, k: int, v: V)
    requires Valid(d) && i <= |d|
    requires forall j :: 0 <= j < i ==> d[j].0 < k
    requires forall j :: i <= j < |d| ==> k < d[j].0
    ensures var r := d[..i] + [(k, v)] + d[i..];
            forall e :: e in r <==> (e in d && e.0 != k) || e == (k, v)
  {
    var r := d[..i] + [(k, v)] + d[i..];
    assert d == d[..i] + d[i..];
    forall e
      ensures e in r <==> (e in d && e.0 != k) || e == (k, v)
    {
      if e in d {
        var j :| 0 <= j < |d| && d[j] == e;
        assert e.0 != k;
        if j < i {
          assert r[j] == e;
        } else {
          assert r[j + 1] == e;
        }
      }
    }
  }

  lemma PopSpec<V(!new)>(d: SortedDict<V>, k: int)
    requires Valid(d)
    ensures Valid(Pop(d, k))
    ensures forall e :: e in Pop(d, k) <==> e in d && e.0 != k
    ensures k !in Keys(d) ==> Pop(d, k) == d
    ensures k in Keys(d) ==>
              exists i :: 0 <= i < |d| && d[i].0 == k && Pop(d, k) == d[..i] + d[i + 1..]
  {
    BisectFindsKey(d, k);
    var i := BisectLeft(Keys(d), k);
    if i < |d| && d[i].0 == k {
      PopRemoves(d, i);
    } else {
      forall e | e in d
        ensures e.0 != k
      {
        var j :| 0 <= j < |d| && d[j] == e;
        assert Keys(d)[j] == e.0;
      }
    }
  }

  lemma PopRemoves<V(!new)>(d: SortedDict<V>, i: nat)
    requires Valid(d) && i < |d|
    ensures var r := d[..i] + d[i + 1..];
            Valid(r) && forall e :: e in r <==> e in d && e.0 != d[i].0
  {
    var k := d[i].0;
    var r := d[..i] + d[i + 1..];
    forall a, b | 0 <= a < b < |r|
      ensures r[a].0 < r[b].0
    {
      if b < i {
        assert r[a] == d[a] && r[b] == d[b];
      } else if a >= i {
        assert r[a] == d[a + 1] && r[b] == d[b + 1];
      } else {
        assert r[a] == d[a] && r[b] == d[b + 1];
      }
    }
    forall e
      ensures e in r <==> e in d && e.0 != k
    {
      if e in d && e.0 != k {
        var j :| 0 <= j < |d| && d[j] == e;
        if j < i {
          assert r[j] == e;
        } else {
          assert j != i && r[j - 1] == e;
        }
      }
      if e in r {
        var j :| 0 <= j < |r| && r[j] == e;
        if j < i {
          assert d[j] == e && d[j].0 < d[i].0;
        } else {
          assert d[j + 1] == e && d[i].0 < d[j + 1].0;
        }
      }
    }
  }

  /** Writing a key above every present key appends the entry. */
  lemma PutPastLast<V>(d: SortedDict<V>, k: int, v: V)
    requires Valid(d)
    requires forall j :: 0 <= j < |d| ==> d[j].0 < k
    ensures Put(d, k, v) == d + [(k, v)]
  {
    BisectEntries(d, k);
    var i := BisectLeft(Keys(d), k);
    assert d[..i] == d && d[i..] == [];
  }

  /** Writing the last key replaces the last entry. */
  lemma PutAtLast<V>(d: SortedDict<V>, k: int, v: V)
    requires Valid(d) && |d| > 0 && d[|d| - 1].0 == k
    ensures Put(d, k, v) == d[..|d| - 1] + [(k, v)]
  {
    BisectEntries(d, k);
    var i := BisectLeft(Keys(d), k);
  }

  lemma ValuesConcat<V>(a: SortedDict<V>, b: SortedDict<V>)
    ensures Values(a + b) == Values(a) + Values(b)
  {
  }

  lemma ValuesMiddle<V>(a: SortedDict<V>, x: (int, V), b: SortedDict<V>)
    ensures Values(a + [x] + b) == Values(a) + [x.1] + Values(b)
    ensures Values(a + b) == Values(a) + Values(b)
  {
  }
}
