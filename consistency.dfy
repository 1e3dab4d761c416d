/**
 * The representation invariant that ties the mapping index (key -> value)
 * to the order index (sorted (value, key) pairs), and the facts every
 * mutator uses to re-establish it.
 */
module Consistency {
  import opened SortedPairs

  /**
   * PriorityDict._check: the order index is sorted, both indices have the
   * same size, and every pair (v, k) of the order index has `d[k] == v`.
   * The order here is strict (no pair twice).
   */
  ghost predicate Consistent(d: map<int, int>, l: seq<Pair>) {
    && Sorted(l)
    && |d| == |l|
    && forall i :: 0 <= i < |l| ==> l[i].1 in d && d[l[i].1] == l[i].0
  }

  /** A consistent order index carries each key once. */
  lemma ConsistentDistinct(d: map<int, int>, l: seq<Pair>)
    requires Consistent(d, l)
    ensures DistinctKeys(l)
  {
    forall i, j | 0 <= i < j < |l| ensures l[i].1 != l[j].1 {
      assert PairLess(l[i], l[j]);
    }
  }

  /** The keys of a consistent order index are exactly the keys of the mapping index. */
  lemma KeysAgree(d: map<int, int>, l: seq<Pair>)
    requires Consistent(d, l)
    ensures Keys(l) == d.Keys
  {
    ConsistentDistinct(d, l);
    KeysCount(l);
    assert Keys(l) <= d.Keys;
    assert |d.Keys - Keys(l)| == 0;
  }

  /** Every entry of the mapping index has its pair in the order index, at one position. */
  lemma PositionOf(d: map<int, int>, l: seq<Pair>, k: int) returns (i: nat)
    requires Consistent(d, l) && k in d
    ensures i < |l| && l[i] == (d[k], k)
  {
    KeysAgree(d, l);
    assert k in Keys(l);
    i :| 0 <= i < |l| && l[i].1 == k;
  }

  /** I2 in both directions: a pair is in the order index exactly when the mapping index agrees with it. */
  lemma Correspondence(d: map<int, int>, l: seq<Pair>)
    requires Consistent(d, l)
    ensures forall p: Pair :: p in l <==> p.1 in d && d[p.1] == p.0
  {
    forall p: Pair | p.1 in d && d[p.1] == p.0 ensures p in l {
      var i := PositionOf(d, l, p.1);
    }
  }

  /** Two strictly sorted sequences with the same elements are equal. */
  lemma {:induction false} SortedUnique(a: seq<Pair>, b: seq<Pair>)
    requires Sorted(a) && Sorted(b)
    requires forall p :: p in a <==> p in b
    ensures a == b
  {
    if b != [] { assert b[0] in b; }
    if a != [] {
      assert a[0] in b;
      assert b != [] && b[0] in a;
      var i :| 0 <= i < |a| && a[i] == b[0];
      var j :| 0 <= j < |b| && b[j] == a[0];
      assert forall m :: 0 < m < |a| ==> PairLess(a[0], a[m]);
      assert forall m :: 0 < m < |b| ==> PairLess(b[0], b[m]);
      assert a[0] == b[0];
      forall p ensures p in a[1..] <==> p in b[1..] {
        assert p in a[1..] <==> p in a && p != a[0] by {
          if p in a && p != a[0] {
            var m :| 0 <= m < |a| && a[m] == p;
            assert a[1..][m - 1] == p;
          }
          if p in a[1..] {
            var m :| 0 <= m < |a| - 1 && a[1..][m] == p;
            assert PairLess(a[0], a[m + 1]);
          }
        }
        assert p in b[1..] <==> p in b && p != b[0] by {
          if p in b && p != b[0] {
            var m :| 0 <= m < |b| && b[m] == p;
            assert b[1..][m - 1] == p;
          }
          if p in b[1..] {
            var m :| 0 <= m < |b| - 1 && b[1..][m] == p;
            assert PairLess(b[0], b[m + 1]);
          }
        }
      }
      SortedUnique(a[1..], b[1..]);
      assert a == [a[0]] + a[1..] && b == [b[0]] + b[1..];
    }
  }

  /** The order index is redundant: the mapping index determines it. */
  lemma OrderDetermined(d: map<int, int>, l1: seq<Pair>, l2: seq<Pair>)
    requires Consistent(d, l1) && Consistent(d, l2)
    ensures l1 == l2
  {
    Correspondence(d, l1);
    Correspondence(d, l2);
    SortedUnique(l1, l2);
  }

  /** The keys at positions [lo, hi) belong to the mapping index and are as many as the positions. */
  lemma DroppedKeys(d: map<int, int>, l: seq<Pair>, lo: nat, hi: nat)
    requires Consistent(d, l) && lo <= hi <= |l|
    ensures Keys(l[lo..hi]) <= d.Keys && |Keys(l[lo..hi])| == hi - lo
    ensures |d - Keys(l[lo..hi])| == |d| - (hi - lo)
  {
    var gone := Keys(l[lo..hi]);
    ConsistentDistinct(d, l);
    assert DistinctKeys(l[lo..hi]);
    KeysCount(l[lo..hi]);
    forall k | k in gone ensures k in d {
      var i :| 0 <= i < hi - lo && l[lo..hi][i].1 == k;
      assert l[lo + i].1 == k;
    }
    assert (d - gone).Keys == d.Keys - gone;
    assert d.Keys == (d.Keys - gone) + gone;
  }

  /**
   * Dropping the positions [lo, hi) from the order index and their keys from
   * the mapping index keeps the two consistent.
   */
  lemma DropRange(d: map<int, int>, l: seq<Pair>, lo: nat, hi: nat)
    requires Consistent(d, l) && lo <= hi <= |l|
    ensures Keys(l[lo..hi]) <= d.Keys && |Keys(l[lo..hi])| == hi - lo
    ensures Consistent(d - Keys(l[lo..hi]), DeleteRange(l, lo, hi))
  {
    DroppedKeys(d, l, lo, hi);
    ConsistentDistinct(d, l);
    var gone := Keys(l[lo..hi]);
    var rest := d - gone;
    var r := DeleteRange(l, lo, hi);
    forall i | 0 <= i < |r| ensures r[i].1 in rest && rest[r[i].1] == r[i].0 {
      var i' := if i < lo then i else i + (hi - lo);
      assert r[i] == l[i'];
      assert forall m :: 0 <= m < hi - lo ==> l[lo..hi][m].1 == l[lo + m].1 != l[i'].1;
    }
  }

  /** Removing one key from both indices keeps them consistent. */
  lemma RemoveKey(d: map<int, int>, l: seq<Pair>, k: int)
    requires Consistent(d, l) && k in d
    ensures (d[k], k) in l
    ensures Consistent(d - {k}, Remove(l, (d[k], k)))
  {
    var i := PositionOf(d, l, k);
    var x := (d[k], k);
    assert IndexOf(l, x) == i;
    DropRange(d, l, i, i + 1);
    assert Keys(l[i..i + 1]) == {k} by {
      assert l[i..i + 1][0] == x;
    }
  }

  /** Adding a new key to both indices keeps them consistent. */
  lemma InsertKey(d: map<int, int>, l: seq<Pair>, k: int, v: int)
    requires Consistent(d, l) && k !in d
    ensures (v, k) !in l
    ensures Consistent(d[k := v], Insert(l, (v, k)))
  {
    Correspondence(d, l);
    var r := Insert(l, (v, k));
    forall i | 0 <= i < |r| ensures r[i].1 in d[k := v] && d[k := v][r[i].1] == r[i].0 {
      assert r[i] in r;
    }
  }

  /** Giving an existing key a new value, by removing its old pair and adding the new one, keeps them consistent. */
  lemma ReplaceKey(d: map<int, int>, l: seq<Pair>, k: int, v: int)
    requires Consistent(d, l) && k in d
    ensures (d[k], k) in l
    ensures (v, k) !in Remove(l, (d[k], k))
    ensures Consistent(d[k := v], Insert(Remove(l, (d[k], k)), (v, k)))
  {
    RemoveKey(d, l, k);
    InsertKey(d - {k}, Remove(l, (d[k], k)), k, v);
    assert (d - {k})[k := v] == d[k := v];
  }

  /** One step of building the order index: the next key joins both the indices built so far. */
  lemma InsertNext(d: map<int, int>, rest: set<int>, l: seq<Pair>, k: int)
    requires rest <= d.Keys && k in rest && Consistent(d - rest, l)
    ensures (d[k], k) !in l
    ensures Consistent(d - (rest - {k}), Insert(l, (d[k], k)))
  {
    InsertKey(d - rest, l, k, d[k]);
    assert (d - rest)[k := d[k]] == d - (rest - {k});
  }

  /**
   * SortedList.update fed with every item of a mapping: the order index
   * built one insertion at a time, in whatever order the keys come.
   */
  method FromMap(d: map<int, int>) returns (l: seq<Pair>)
    ensures Consistent(d, l)
  {
    l := [];
    var rest := d.Keys;
    assert d - rest == map[];
    while exists k :: k in rest
      invariant rest <= d.Keys
      invariant Consistent(d - rest, l)
      decreases |rest|
    {
      var k :| k in rest;
      InsertNext(d, rest, l, k);
      l := Insert(l, (d[k], k));
      rest := rest - {k};
    }
    assert d - rest == d - {};
    assert d - {} == d;
  }

  /**
   * The keys at the positions before the bisection point of a probe are
   * exactly the entries whose pair sorts below the probe.
   */
  lemma KeysBelow(d: map<int, int>, l: seq<Pair>, probe: Probe)
    requires Consistent(d, l)
    ensures Keys(l[..Bisect(l, probe)]) == set k | k in d && Below((d[k], k), probe)
  {
    var r := Bisect(l, probe);
    var below := set k | k in d && Below((d[k], k), probe);
    forall k | k in below ensures k in Keys(l[..r]) {
      var i := PositionOf(d, l, k);
      assert i < r;
      assert l[..r][i].1 == k;
    }
    forall k | k in Keys(l[..r]) ensures k in below {
      var i :| 0 <= i < r && l[..r][i].1 == k;
      assert l[i] == (d[k], k);
    }
    assert forall k :: k in below <==> k in Keys(l[..r]);
  }

  /**
   * The number of entries whose pair is below a probe equals the bisection
   * point of the order index for that probe.
   */
  lemma CountKeysBelow(d: map<int, int>, l: seq<Pair>, probe: Probe)
    requires Consistent(d, l)
    ensures |set k | k in d && Below((d[k], k), probe)| == Bisect(l, probe)
  {
    var r := Bisect(l, probe);
    KeysBelow(d, l, probe);
    ConsistentDistinct(d, l);
    assert DistinctKeys(l[..r]);
    KeysCount(l[..r]);
  }

  /** bisect_left((v,)) counts the entries whose value is below `v`. */
  lemma CountValuesBelow(d: map<int, int>, l: seq<Pair>, v: int)
    requires Consistent(d, l)
    ensures |set k | k in d && d[k] < v| == Bisect(l, Low(v))
  {
    CountKeysBelow(d, l, Low(v));
    var byValue, byProbe := set k | k in d && d[k] < v, set k | k in d && Below((d[k], k), Low(v));
    assert forall k :: k in byValue <==> k in byProbe;
    assert byValue == byProbe;
  }

  /** bisect_right((v, _Biggest)) counts the entries whose value is at most `v`. */
  lemma CountValuesAtMost(d: map<int, int>, l: seq<Pair>, v: int)
    requires Consistent(d, l)
    ensures |set k | k in d && d[k] <= v| == Bisect(l, High(v))
  {
    CountKeysBelow(d, l, High(v));
    var byValue, byProbe := set k | k in d && d[k] <= v, set k | k in d && Below((d[k], k), High(v));
    assert forall k :: k in byValue <==> k in byProbe;
    assert byValue == byProbe;
  }

  /** One position of the order index carries one key. */
  lemma KeysOfOne(l: seq<Pair>, i: nat)
    requires i < |l|
    ensures Keys(l[i..i + 1]) == {l[i].1}
  {
    var ks, one := Keys(l[i..i + 1]), {l[i].1};
    assert l[i..i + 1][0] == l[i];
    assert forall k :: k in ks <==> k in one;
  }

  /** Removing the pair at one position, and its key, keeps the indices consistent. */
  lemma RemoveAt(d: map<int, int>, l: seq<Pair>, i: nat)
    requires Consistent(d, l) && i < |l|
    ensures l[i].1 in d && d[l[i].1] == l[i].0
    ensures Consistent(d - {l[i].1}, DeleteRange(l, i, i + 1))
  {
    DropRange(d, l, i, i + 1);
    KeysOfOne(l, i);
  }

  /**
   * Deleting the keys of the positions [lo, i) and then the key at `i` is
   * deleting the keys of [lo, i + 1).
   */
  lemma DropOneMore(d: map<int, int>, l: seq<Pair>, lo: nat, i: nat)
    requires lo <= i < |l|
    ensures (d - Keys(l[lo..i])) - {l[i].1} == d - Keys(l[lo..i + 1])
  {
    var before, after := l[lo..i], l[lo..i + 1];
    assert after[..|after| - 1] == before;
    KeysOfSnoc(after);
    var left, right := (d - Keys(before)) - {l[i].1}, d - Keys(after);
    assert forall k :: k in left <==> k in right;
    assert left.Keys == right.Keys;
  }

  /**
   * The check as the source writes it, with a sorted list that admits equal
   * neighbours: sizes agree and every listed pair agrees with the mapping.
   * Every consistent state passes it.
   */
  ghost predicate CheckAsWritten(d: map<int, int>, l: seq<Pair>)
    ensures Consistent(d, l) ==> CheckAsWritten(d, l)
  {
    && (forall i, j :: 0 <= i < j < |l| ==> l[i] == l[j] || PairLess(l[i], l[j]))
    && |d| == |l|
    && forall i :: 0 <= i < |l| ==> l[i].1 in d && d[l[i].1] == l[i].0
  }

  /**
   * The check as written passes a state whose list repeats one entry and
   * misses another key entirely, which no consistent state does.
   */
  lemma CheckAsWrittenAdmitsDuplicate()
    ensures CheckAsWritten(map[1 := 1, 2 := 2], [(1, 1), (1, 1)])
    ensures !Consistent(map[1 := 1, 2 := 2], [(1, 1), (1, 1)])
  {
    var d, l := map[1 := 1, 2 := 2], [(1, 1), (1, 1)];
    assert d.Keys == {1, 2};
    assert |d| == 2;
    assert !PairLess(l[0], l[1]);
    assert !Sorted(l);
  }

  /** The last pair of a consistent order index is above the pair of every other entry. */
  lemma LastIsLargest(d: map<int, int>, l: seq<Pair>)
    requires Consistent(d, l) && l != []
    ensures forall k :: k in d && k != l[|l| - 1].1 ==> PairLess((d[k], k), l[|l| - 1])
  {
    forall k | k in d && k != l[|l| - 1].1 ensures PairLess((d[k], k), l[|l| - 1]) {
      var j := PositionOf(d, l, k);
      assert j < |l| - 1;
    }
  }

  /** Deleting the keys of an empty range of positions deletes nothing. */
  lemma DropNone(d: map<int, int>, l: seq<Pair>, lo: nat)
    requires lo <= |l|
    ensures d - Keys(l[lo..lo]) == d
  {
    var gone := Keys(l[lo..lo]);
    assert forall k :: k !in gone;
    var left := d - gone;
    assert forall k :: k in left <==> k in d;
    assert left.Keys == d.Keys;
  }

  /**
   * Some entry has value `v` exactly when the bisection point of `(v,)`
   * is a position whose pair has value `v`.
   */
  lemma FirstOfValue(d: map<int, int>, l: seq<Pair>, v: int)
    requires Consistent(d, l)
    ensures (exists k :: k in d && d[k] == v) <==> Bisect(l, Low(v)) < |l| && l[Bisect(l, Low(v))].0 == v
  {
    var pos := Bisect(l, Low(v));
    if exists k :: k in d && d[k] == v {
      var k :| k in d && d[k] == v;
      var i := PositionOf(d, l, k);
      assert pos <= i;
      if pos < i {
        assert PairLess(l[pos], l[i]);
      }
    }
    if pos < |l| && l[pos].0 == v {
      var k := l[pos].1;
      assert k in d && d[k] == v;
    }
  }
}
