/**
 * PriorityDict: a dictionary that keeps its keys in value order by holding
 * two indices in lockstep, a mapping key -> value and a sorted list of
 * (value, key) pairs.
 */
module PriorityDicts {
  import opened Outcomes
  import opened Positions
  import opened SortedPairs
  import opened Consistency
  import opened Mappings

  /** Deleting the entries before the bisection point of `(t, _Biggest)` is pruning at threshold `t`. */
  lemma PrefixDropIsCleaned(d: map<int, int>, l: seq<Pair>, t: int)
    requires Consistent(d, l)
    ensures d - Keys(l[..Bisect(l, High(t))]) == Cleaned(d, t)
  {
    KeysBelow(d, l, High(t));
    var left, right := d - Keys(l[..Bisect(l, High(t))]), Cleaned(d, t);
    assert forall k :: k in left <==> k in right;
    assert left.Keys == right.Keys;
    forall k | k in left ensures left[k] == right[k] {
    }
  }

  class PriorityDict {
    /** `_dict`: the mapping index, key -> value. */
    var mapping: map<int, int>
    /** `_list`: the order index, (value, key) pairs in increasing order. */
    var order: seq<Pair>

    /** `_check`: the two indices agree. */
    ghost predicate Valid()
      reads this
    {
      Consistent(mapping, order)
    }

    /** `__init__`: an empty container, then `update` with the given items. */
    constructor (items: map<int, int>)
      ensures Valid() && mapping == items
    {
      mapping := map[];
      order := [];
      new;
      Update(items);
      assert map[] + items == items;
    }

    /** `clear`: both indices emptied. */
    method Clear()
      modifies this
      ensures Valid() && mapping == map[]
    {
      mapping := map[];
      order := [];
    }

    /** `__len__`: the size of the mapping index, which is also the length of the order index. */
    function Len(): (n: nat)
      reads this
      requires Valid()
      ensures n == |order|
    {
      |mapping|
    }

    /** `__contains__`: a key of the mapping index is exactly a key carried by the order index. */
    function Contains(key: int): (b: bool)
      reads this
      requires Valid()
      ensures b <==> key in Keys(order)
    {
      KeysAgree(mapping, order);
      key in mapping
    }

    /** `__getitem__`: the value of a present key, paired with it in the order index; KeyError otherwise. */
    function Lookup(key: int): (r: Result<int>)
      reads this
      requires Valid()
      ensures r.Ok? <==> key in mapping
      ensures r.Ok? ==> r.value == mapping[key] && (r.value, key) in order
      ensures r.Err? ==> r.error == KeyError
    {
      if key in mapping then
        Correspondence(mapping, order);
        Ok(mapping[key])
      else
        Err(KeyError)
    }

    /** `get`: never raises; an absent key gives `default`, which is None unless given. */
    function Get(key: int, default: Option<int>): (r: Option<int>)
      reads this
      requires Valid()
      ensures Lookup(key).Ok? ==> r == Some(Lookup(key).value)
      ensures Lookup(key).Err? ==> r == default
    {
      if key in mapping then Some(mapping[key]) else default
    }

    /**
     * `index`: the position of a present key in iteration order, the only
     * position that carries it; KeyError for an absent key.
     */
    function Index(key: int): (r: Result<nat>)
      reads this
      requires Valid()
      ensures r.Ok? <==> key in mapping
      ensures r.Ok? ==> r.value < |order| && order[r.value] == (mapping[key], key)
      ensures r.Ok? ==> forall i :: 0 <= i < |order| && order[i].1 == key ==> i == r.value
      ensures r.Err? ==> r.error == KeyError
    {
      if key in mapping then
        Correspondence(mapping, order);
        Ok(IndexOf(order, (mapping[key], key)))
      else
        Err(KeyError)
    }

    /**
     * `bisect_left`: the number of entries whose value is below `v`; the
     * positions before it hold smaller values and the others do not.
     */
    function BisectLeft(v: int): (r: nat)
      reads this
      requires Valid()
      ensures r == |set k | k in mapping && mapping[k] < v|
      ensures r <= |order|
      ensures forall i :: 0 <= i < r ==> order[i].0 < v
      ensures forall i :: r <= i < |order| ==> order[i].0 >= v
    {
      CountValuesBelow(mapping, order, v);
      Bisect(order, Low(v))
    }

    /**
     * `bisect_right`: the number of entries whose value is at most `v`; the
     * positions before it hold values at most `v` and the others do not.
     */
    function BisectRight(v: int): (r: nat)
      reads this
      requires Valid()
      ensures r == |set k | k in mapping && mapping[k] <= v|
      ensures r <= |order|
      ensures forall i :: 0 <= i < r ==> order[i].0 <= v
      ensures forall i :: r <= i < |order| ==> order[i].0 > v
    {
      CountValuesAtMost(mapping, order, v);
      Bisect(order, High(v))
    }

    /** `__iter__`: every key exactly once, in increasing (value, key) order. */
    function IterKeys(): (r: seq<int>)
      reads this
      requires Valid()
      ensures |r| == |mapping|
      ensures forall k :: k in mapping <==> k in r
      ensures forall i :: 0 <= i < |r| ==> r[i] in mapping
      ensures forall i, j :: 0 <= i < j < |r| ==> PairLess((mapping[r[i]], r[i]), (mapping[r[j]], r[j]))
    {
      KeysAgree(mapping, order);
      var r := KeySequence(order);
      assert forall i :: 0 <= i < |r| ==> (mapping[r[i]], r[i]) == order[i];
      assert forall k :: k in Keys(order) <==> k in r by {
        forall k | k in r ensures k in Keys(order) {
          var i :| 0 <= i < |r| && r[i] == k;
          assert order[i].1 == k;
        }
      }
      r
    }

    /** `__reversed__`: every key exactly once, in decreasing (value, key) order. */
    function ReversedKeys(): (r: seq<int>)
      reads this
      requires Valid()
      ensures |r| == |mapping|
      ensures forall k :: k in mapping <==> k in r
      ensures forall i :: 0 <= i < |r| ==> r[i] in mapping
      ensures forall i, j :: 0 <= i < j < |r| ==> PairLess((mapping[r[j]], r[j]), (mapping[r[i]], r[i]))
    {
      var forward := IterKeys();
      var r := Reversed(forward);
      assert forall k :: k in forward <==> k in r by {
        forall k | k in forward ensures k in r {
          var i :| 0 <= i < |forward| && forward[i] == k;
          assert r[|r| - 1 - i] == k;
        }
      }
      r
    }

    /** `most_common()` with no count: all (key, value) items, highest (value, key) first. */
    function MostCommon(): (r: seq<(int, int)>)
      reads this
      requires Valid()
      ensures |r| == |mapping|
      ensures forall i :: 0 <= i < |r| ==> r[i].0 in mapping && mapping[r[i].0] == r[i].1
      ensures forall k :: k in mapping ==> (k, mapping[k]) in r
      ensures forall i, j :: 0 <= i < j < |r| ==> PairLess((r[j].1, r[j].0), (r[i].1, r[i].0))
    {
      var n, descending := |order|, Reversed(order);
      var r := seq(n, i requires 0 <= i < n => (descending[i].1, descending[i].0));
      forall k | k in mapping ensures (k, mapping[k]) in r {
        var i := PositionOf(mapping, order, k);
        assert r[n - 1 - i] == (k, mapping[k]);
      }
      r
    }

    /**
     * `__setitem__`: the key holds the new value, every other entry is
     * unchanged, and the size grows by one exactly when the key is new.
     */
    method SetItem(key: int, value: int)
      requires Valid()
      modifies this
      ensures Valid()
      ensures mapping == old(mapping)[key := value]
      ensures |mapping| == if key in old(mapping) then |old(mapping)| else |old(mapping)| + 1
    {
      if key in mapping {
        ReplaceKey(mapping, order, key, value);
        order := Insert(Remove(order, (mapping[key], key)), (value, key));
      } else {
        InsertKey(mapping, order, key, value);
        order := Insert(order, (value, key));
      }
      mapping := mapping[key := value];
    }

    /** `__delitem__`: removes exactly the key, or raises KeyError and changes nothing. */
    method DelItem(key: int) returns (r: Outcome)
      requires Valid()
      modifies this
      ensures Valid()
      ensures r == if key in old(mapping) then Pass else Fail(KeyError)
      ensures r.Pass? ==> mapping == old(mapping) - {key}
      ensures r.Fail? ==> mapping == old(mapping) && order == old(order)
    {
      if key !in mapping {
        return Fail(KeyError);
      }
      RemoveKey(mapping, order, key);
      order := Remove(order, (mapping[key], key));
      mapping := mapping - {key};
      r := Pass;
    }

    /**
     * `pop`: a present key is removed and its value returned; an absent key
     * gives the default when one is given and KeyError otherwise, and
     * changes nothing. Here `None` stands for the source's `_NotGiven`
     * ("no default given"), not for Python's `None` as it does in `Get`, so
     * `pop(k, None)` on an absent key, which returns Python's `None`, is not
     * expressible.
     */
    method Pop(key: int, default: Option<int>) returns (r: Result<int>)
      requires Valid()
      modifies this
      ensures Valid()
      ensures key in old(mapping) ==> r == Ok(old(mapping)[key]) && mapping == old(mapping) - {key}
      ensures key !in old(mapping) ==> mapping == old(mapping) && order == old(order)
      ensures key !in old(mapping) ==> r == if default.Some? then Ok(default.value) else Err(KeyError)
    {
      if key in mapping {
        var value := mapping[key];
        RemoveKey(mapping, order, key);
        order := Remove(order, (value, key));
        mapping := mapping - {key};
        r := Ok(value);
      } else if default.Some? {
        r := Ok(default.value);
      } else {
        r := Err(KeyError);
      }
    }

    /** `setdefault`: the value of a present key, or the key inserted with `default`. */
    method SetDefault(key: int, default: int) returns (r: int)
      requires Valid()
      modifies this
      ensures Valid()
      ensures key in old(mapping) ==> r == old(mapping)[key] && mapping == old(mapping) && order == old(order)
      ensures key !in old(mapping) ==> r == default && mapping == old(mapping)[key := default]
    {
      if key in mapping {
        r := mapping[key];
      } else {
        InsertKey(mapping, order, key, default);
        order := Insert(order, (default, key));
        mapping := mapping[key := default];
        r := default;
      }
    }

    /**
     * `popitem`: removes the item at a position (the last one by default,
     * index -1) from both indices and returns it as (key, value); IndexError
     * on an empty container or an out-of-range position.
     */
    method PopItem(index: int) returns (r: Result<(int, int)>)
      requires Valid()
      modifies this
      ensures Valid()
      ensures r.Ok? <==> Resolve(index, |old(order)|).Ok?
      ensures r.Err? ==> r.error == IndexError && mapping == old(mapping) && order == old(order)
      ensures r.Ok? ==>
        var i := Resolve(index, |old(order)|).value;
        && old(order)[i] == (r.value.1, r.value.0)
        && order == DeleteRange(old(order), i, i + 1)
        && mapping == old(mapping) - {r.value.0}
      ensures r.Ok? ==> r.value.0 in old(mapping) && old(mapping)[r.value.0] == r.value.1
      ensures r.Ok? && index == -1 ==>
        forall k :: k in mapping ==> PairLess((mapping[k], k), (r.value.1, r.value.0))
    {
      match Resolve(index, |order|)
      case Err(e) =>
        r := Err(e);
      case Ok(i) =>
        var pair := order[i];
        if index == -1 {
          LastIsLargest(mapping, order);
        }
        RemoveAt(mapping, order, i);
        order := DeleteRange(order, i, i + 1);
        mapping := mapping - {pair.1};
        r := Ok((pair.1, pair.0));
    }

    /**
     * `update`: overwrites with every item. With more than a tenth as many
     * items as entries both indices are rebuilt; otherwise each item is set
     * in turn.
     */
    method Update(items: map<int, int>)
      requires Valid()
      modifies this
      ensures Valid() && mapping == old(mapping) + items
    {
      if 10 * |items| > |mapping| {
        mapping := mapping + items;
        order := [];
        order := FromMap(mapping);
      } else {
        ghost var d0 := mapping;
        var rest := items.Keys;
        NothingOverwritten(d0, items);
        while exists k :: k in rest
          invariant rest <= items.Keys
          invariant Valid()
          invariant mapping == d0 + (items - rest)
          decreases |rest|
        {
          var k :| k in rest;
          OverwriteStep(d0, items, rest, k);
          SetItem(k, items[k]);
          rest := rest - {k};
        }
        AllOverwritten(d0, items, rest);
      }
    }

    /**
     * `update` as written: the rebuild path overwrites, while the per-key path
     * reads the old value of each key in turn and stops with KeyError at the
     * first new key, keeping the items it has already applied. It fails
     * exactly when the per-key path is taken and some key is new; otherwise
     * it ends at overwrite semantics.
     */
    method UpdateAsWritten(items: map<int, int>) returns (r: Outcome)
      requires Valid()
      modifies this
      ensures Valid()
      ensures r.Fail? <==> UpdateAsWrittenOutcome(old(mapping), items).Err?
      ensures r.Fail? ==> r.error == KeyError
      ensures r.Pass? ==> mapping == old(mapping) + items
      ensures r.Fail? ==> mapping.Keys == old(mapping).Keys
      ensures r.Fail? ==> forall k :: k in mapping ==> mapping[k] == old(mapping)[k] || (k in items && mapping[k] == items[k])
    {
      if 10 * |items| > |mapping| {
        mapping := mapping + items;
        order := [];
        order := FromMap(mapping);
        return Pass;
      }
      ghost var d0 := mapping;
      var rest := items.Keys;
      NothingOverwritten(d0, items);
      while exists k :: k in rest
        invariant rest <= items.Keys
        invariant Valid()
        invariant mapping == d0 + (items - rest)
        invariant forall k :: k in items && k !in rest ==> k in d0
        decreases |rest|
      {
        var k :| k in rest;
        if k !in mapping {
          PartlyOverwritten(d0, items, rest);
          assert k in items && k !in d0;
          return Fail(KeyError);
        }
        OverwriteStep(d0, items, rest, k);
        SetItem(k, items[k]);
        rest := rest - {k};
      }
      AllOverwritten(d0, items, rest);
      r := Pass;
    }

    /**
     * The deletion loop of `clean` and of positional slice deletion: the key
     * of every position in [lo, hi) leaves the mapping index, then the
     * positions leave the order index.
     */
    method DeletePositions(lo: nat, hi: nat)
      requires Valid() && lo <= hi <= |order|
      modifies this
      ensures Valid()
      ensures mapping == old(mapping) - Keys(old(order)[lo..hi])
      ensures order == DeleteRange(old(order), lo, hi)
    {
      ghost var d0, l0 := mapping, order;
      DropNone(d0, l0, lo);
      var i := lo;
      while i < hi
        invariant lo <= i <= hi
        invariant order == l0
        invariant mapping == d0 - Keys(l0[lo..i])
      {
        DropOneMore(d0, l0, lo, i);
        mapping := mapping - {order[i].1};
        i := i + 1;
      }
      DropRange(d0, l0, lo, hi);
      order := DeleteRange(order, lo, hi);
    }

    /**
     * `clean`: removes every entry whose value is at most `t` and keeps
     * every other entry as it was.
     */
    method Clean(t: int)
      requires Valid()
      modifies this
      ensures Valid() && mapping == Cleaned(old(mapping), t)
      ensures forall k :: k in mapping <==> k in old(mapping) && old(mapping)[k] > t
      ensures forall k :: k in mapping ==> mapping[k] == old(mapping)[k]
    {
      ghost var d0, l0 := mapping, order;
      var pos := BisectRight(t);
      DeletePositions(0, pos);
      assert l0[0..pos] == l0[..pos];
      PrefixDropIsCleaned(d0, l0, t);
    }

    /**
     * `__iadd__`, `__isub__`, `__ior__`, `__iand__`: one of three strategies,
     * chosen by size, each computing the same merge.
     */
    method MergeInPlace(op: MergeOp, that: map<int, int>)
      requires Valid()
      modifies this
      ensures Valid() && mapping == Merged(op, old(mapping), that)
    {
      if |mapping| == 0 {
        MergeWhenEmpty(op, that);
      } else if |that| * 3 > |mapping| {
        MergeRebuild(op, that);
      } else {
        MergeIncremental(op, that);
      }
    }

    /**
     * The strategy for an empty container: Sum and Max take the other
     * operand as it is, Difference and Min leave the container empty.
     */
    method MergeWhenEmpty(op: MergeOp, that: map<int, int>)
      requires Valid() && |mapping| == 0
      modifies this
      ensures Valid() && mapping == Merged(op, old(mapping), that)
    {
      assert mapping == map[];
      MergeIntoEmpty(op, that);
      if AddsNewKeys(op) {
        mapping := that;
        order := FromMap(mapping);
      } else {
        mapping := map[];
        order := [];
      }
    }

    /**
     * The strategy for a large other operand: the order index is cleared,
     * every key of `that` is merged into the mapping index, and the order
     * index is rebuilt from it.
     */
    method MergeRebuild(op: MergeOp, that: map<int, int>)
      requires Valid()
      modifies this
      ensures Valid() && mapping == Merged(op, old(mapping), that)
    {
      order := [];
      mapping := ApplyAll(op, mapping, that);
      order := FromMap(mapping);
    }

    /**
     * The strategy for a small other operand: each key of `that` is merged
     * by itself, its old pair removed from the order index and its new pair
     * added.
     */
    method MergeIncremental(op: MergeOp, that: map<int, int>)
      requires Valid()
      modifies this
      ensures Valid() && mapping == Merged(op, old(mapping), that)
    {
      ghost var d0 := mapping;
      var rest := that.Keys;
      NoKeysMerged(op, d0, that);
      while exists k :: k in rest
        invariant rest <= that.Keys
        invariant Valid()
        invariant mapping == Merged(op, d0, that - rest)
        decreases |rest|
      {
        var k :| k in rest;
        MergedStep(op, d0, that, rest, k);
        if k in mapping {
          SetItem(k, Combine(op, mapping[k], that[k]));
        } else if AddsNewKeys(op) {
          SetItem(k, that[k]);
        }
        rest := rest - {k};
      }
      AllKeysMerged(op, d0, that, rest);
    }

    /**
     * `__add__`, `__sub__`, `__or__`, `__and__`: a fresh container holding
     * the merge of this one's mapping with `that`; this one is not changed.
     */
    method MergeCopy(op: MergeOp, that: map<int, int>) returns (result: PriorityDict)
      ensures fresh(result) && result.Valid()
      ensures result.mapping == Merged(op, mapping, that)
    {
      result := new PriorityDict(map[]);
      var merged := ApplyAll(op, mapping, that);
      result.mapping := merged;
      result.order := FromMap(merged);
    }
  }
}
