/**
 * The contract of the sorted list that holds the order index: a strictly
 * increasing sequence of (value, key) pairs compared as Python 2-tuples.
 * Only what the container relies on is modelled: insertion, removal,
 * deletion of a contiguous range and bisection.
 */
module SortedPairs {

  /** An entry of the order index: the value first, then the key. */
  type Pair = (int, int)

  /** Lexicographic tuple order: by value, ties broken by key. */
  predicate PairLess(a: Pair, b: Pair) {
    a.0 < b.0 || (a.0 == b.0 && a.1 < b.1)
  }

  /** Every pair is strictly smaller than every later pair. */
  ghost predicate Sorted(s: seq<Pair>) {
    forall i, j :: 0 <= i < j < |s| ==> PairLess(s[i], s[j])
  }

  /**
   * What a bisection compares the pairs against. `Low(v)` is the 1-tuple
   * `(v,)`, which sorts before every pair with value `v`; `High(v)` is
   * `(v, _Biggest)`, which sorts after every pair with value `v` because the
   * sentinel beats every key; `At(p)` is an ordinary pair.
   */
  datatype Probe = Low(value: int) | High(value: int) | At(pair: Pair)

  /** Whether pair `p` sorts strictly before the probe. */
  predicate Below(p: Pair, probe: Probe) {
    match probe
    case Low(v) => p.0 < v
    case High(v) => p.0 <= v
    case At(q) => PairLess(p, q)
  }

  /** The probes are downward closed: anything smaller than a pair below a probe is below it too. */
  lemma BelowDownward(a: Pair, b: Pair, probe: Probe)
    requires PairLess(a, b) && Below(b, probe)
    ensures Below(a, probe)
  {
  }

  /**
   * Binary search for the first position whose pair is not below the probe,
   * within [lo, hi), everything before `lo` being known to be below it and
   * everything from `hi` on known not to be.
   */
  function BisectWithin(s: seq<Pair>, probe: Probe, lo: nat, hi: nat): (r: nat)
    requires Sorted(s) && lo <= hi <= |s|
    requires forall i :: 0 <= i < lo ==> Below(s[i], probe)
    requires forall i :: hi <= i < |s| ==> !Below(s[i], probe)
    ensures lo <= r <= hi
    ensures forall i :: 0 <= i < r ==> Below(s[i], probe)
    ensures forall i :: r <= i < |s| ==> !Below(s[i], probe)
    decreases hi - lo
  {
    if lo == hi then lo
    else
      var mid := (lo + hi) / 2;
      if Below(s[mid], probe) then
        assert forall i :: lo <= i < mid ==> PairLess(s[i], s[mid]);
        BisectWithin(s, probe, mid + 1, hi)
      else
        assert forall i :: mid < i < hi ==> PairLess(s[mid], s[i]);
        BisectWithin(s, probe, lo, mid)
  }

  /**
   * SortedList bisection: the insertion point of the probe, i.e. the number
   * of pairs that sort before it. Every pair before the point is below the
   * probe and no pair from the point on is.
   */
  function Bisect(s: seq<Pair>, probe: Probe): (r: nat)
    requires Sorted(s)
    ensures r <= |s|
    ensures forall i :: 0 <= i < r ==> Below(s[i], probe)
    ensures forall i :: r <= i < |s| ==> !Below(s[i], probe)
  {
    BisectWithin(s, probe, 0, |s|)
  }

  /** Reference definition: the number of pairs below the probe, counted one by one. */
  function CountBelow(s: seq<Pair>, probe: Probe): nat {
    if s == [] then 0
    else (if Below(s[0], probe) then 1 else 0) + CountBelow(s[1..], probe)
  }

  /** A sequence split into a below-the-probe prefix of length `r` and a rest has `r` pairs below the probe. */
  lemma {:induction false} CountOfSplit(s: seq<Pair>, probe: Probe, r: nat)
    requires r <= |s|
    requires forall i :: 0 <= i < r ==> Below(s[i], probe)
    requires forall i :: r <= i < |s| ==> !Below(s[i], probe)
    ensures CountBelow(s, probe) == r
  {
    if s != [] {
      if r == 0 {
        assert !Below(s[0], probe);
        CountOfSplit(s[1..], probe, 0);
      } else {
        assert Below(s[0], probe);
        CountOfSplit(s[1..], probe, r - 1);
      }
    }
  }

  /** The binary search finds exactly as many pairs as a one-by-one count. */
  lemma BisectCounts(s: seq<Pair>, probe: Probe)
    requires Sorted(s)
    ensures Bisect(s, probe) == CountBelow(s, probe)
  {
    CountOfSplit(s, probe, Bisect(s, probe));
  }

  /** SortedList.index: the position of a pair that is present. */
  function IndexOf(s: seq<Pair>, x: Pair): (r: nat)
    requires Sorted(s) && x in s
    ensures r < |s| && s[r] == x
    ensures forall i :: 0 <= i < |s| && s[i] == x ==> i == r
  {
    var r := Bisect(s, At(x));
    var j :| 0 <= j < |s| && s[j] == x;
    assert !Below(s[j], At(x));
    assert forall i :: 0 <= i < j ==> Below(s[i], At(x));
    r
  }

  /** Deletion of the contiguous range [lo, hi): what `del _list[lo:hi]` and `pop` do. */
  function DeleteRange(s: seq<Pair>, lo: nat, hi: nat): (r: seq<Pair>)
    requires lo <= hi <= |s|
    ensures |r| == |s| - (hi - lo)
    ensures forall i :: 0 <= i < lo ==> r[i] == s[i]
    ensures forall i :: lo <= i < |r| ==> r[i] == s[i + (hi - lo)]
    ensures Sorted(s) ==> Sorted(r)
  {
    var r := s[..lo] + s[hi..];
    assert Sorted(s) ==> forall i, j :: 0 <= i < j < |r| ==>
      PairLess(r[i], r[j]) by {
      if Sorted(s) {
        forall i, j | 0 <= i < j < |r| ensures PairLess(r[i], r[j]) {
          var i' := if i < lo then i else i + (hi - lo);
          var j' := if j < lo then j else j + (hi - lo);
          assert r[i] == s[i'] && r[j] == s[j'] && i' < j';
        }
      }
    }
    r
  }

  /** SortedList.remove of a pair that is present: every other pair stays, in order. */
  function Remove(s: seq<Pair>, x: Pair): (r: seq<Pair>)
    requires Sorted(s) && x in s
    ensures Sorted(r) && |r| == |s| - 1
    ensures forall p :: p in r <==> p in s && p != x
  {
    var i := IndexOf(s, x);
    var r := DeleteRange(s, i, i + 1);
    assert forall p :: p in r <==> p in s && p != x by {
      forall p ensures p in r <==> p in s && p != x {
        if p in r {
          var j :| 0 <= j < |r| && r[j] == p;
          var j' := if j < i then j else j + 1;
          assert s[j'] == p && j' != i;
        }
        if p in s && p != x {
          var j :| 0 <= j < |s| && s[j] == p;
          assert j != i;
          assert r[if j < i then j else j - 1] == p;
        }
      }
    }
    r
  }

  /** SortedList.add of a pair that is absent: it lands at its insertion point. */
  function Insert(s: seq<Pair>, x: Pair): (r: seq<Pair>)
    requires Sorted(s) && x !in s
    ensures Sorted(r) && |r| == |s| + 1
    ensures forall p :: p in r <==> p in s || p == x
  {
    var i := Bisect(s, At(x));
    var r := s[..i] + [x] + s[i..];
    assert forall j :: i <= j < |s| ==> PairLess(x, s[j]) by {
      forall j | i <= j < |s| ensures PairLess(x, s[j]) {
        assert !Below(s[j], At(x)) && s[j] != x;
      }
    }
    assert forall a, b :: 0 <= a < b < |r| ==> PairLess(r[a], r[b]) by {
      forall a, b | 0 <= a < b < |r| ensures PairLess(r[a], r[b]) {
        if b < i {
          assert r[a] == s[a] && r[b] == s[b];
        } else if b == i {
          assert r[a] == s[a] && r[b] == x;
        } else if a == i {
          assert r[b] == s[b - 1];
        } else if a < i {
          assert r[a] == s[a] && r[b] == s[b - 1];
        } else {
          assert r[a] == s[a - 1] && r[b] == s[b - 1];
        }
      }
    }
    assert forall p :: p in r <==> p in s || p == x by {
      assert s == s[..i] + s[i..];
    }
    r
  }

  /** The keys carried by a sequence of pairs. */
  function Keys(s: seq<Pair>): set<int> {
    set i | 0 <= i < |s| :: s[i].1
  }

  /** No key occurs in two pairs. */
  ghost predicate DistinctKeys(s: seq<Pair>) {
    forall i, j :: 0 <= i < j < |s| ==> s[i].1 != s[j].1
  }

  /** The keys of a sequence are those of all but its last pair, plus the last pair's. */
  lemma KeysOfSnoc(s: seq<Pair>)
    requires s != []
    ensures Keys(s) == Keys(s[..|s| - 1]) + {s[|s| - 1].1}
  {
    var n := |s| - 1;
    var t := s[..n];
    forall k | k in Keys(s) ensures k in Keys(t) + {s[n].1} {
      var i :| 0 <= i < |s| && s[i].1 == k;
      if i < n { assert t[i].1 == k; }
    }
    forall k | k in Keys(t) ensures k in Keys(s) {
      var i :| 0 <= i < |t| && t[i].1 == k;
      assert s[i].1 == k;
    }
  }

  /** Distinct keys carried by `s` are as many as its pairs. */
  lemma {:induction false} KeysCount(s: seq<Pair>)
    requires DistinctKeys(s)
    ensures |Keys(s)| == |s|
  {
    if s != [] {
      var n := |s| - 1;
      var t := s[..n];
      assert DistinctKeys(t);
      KeysCount(t);
      KeysOfSnoc(s);
      assert s[n].1 !in Keys(t);
    }
  }

  /** The keys of a sequence of pairs, in order: `[key for value, key in s]`. */
  function KeySequence(s: seq<Pair>): (r: seq<int>)
    ensures |r| == |s| && forall i :: 0 <= i < |s| ==> r[i] == s[i].1
  {
    seq(|s|, i requires 0 <= i < |s| => s[i].1)
  }

  /** The values of a sequence of pairs, in order: `[value for value, key in s]`. */
  function ValueSequence(s: seq<Pair>): (r: seq<int>)
    ensures |r| == |s| && forall i :: 0 <= i < |s| ==> r[i] == s[i].0
  {
    seq(|s|, i requires 0 <= i < |s| => s[i].0)
  }

  /** A sequence back to front: what `reversed` yields. */
  function Reversed<T>(s: seq<T>): (r: seq<T>)
    ensures |r| == |s| && forall i :: 0 <= i < |s| ==> r[i] == s[|s| - 1 - i]
  {
    seq(|s|, i requires 0 <= i < |s| => s[|s| - 1 - i])
  }
}
