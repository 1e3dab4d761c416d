/**
 * The container seen purely as a key -> value mapping: the four arithmetic
 * merges, the pointwise comparisons, threshold pruning, and the outcome of
 * `update` as the source writes it.
 */
module Mappings {
  import opened Outcomes

  /** The four merges: `+` (Sum), `-` (Difference), `|` (Max) and `&` (Min). */
  datatype MergeOp = Sum | Difference | Max | Min

  /** The new value of a key that both operands hold. */
  function Combine(op: MergeOp, mine: int, theirs: int): int {
    match op
    case Sum => mine + theirs
    case Difference => mine - theirs
    case Max => if theirs > mine then theirs else mine
    case Min => if theirs < mine then theirs else mine
  }

  /** Sum and Max bring in keys that only the right operand holds; Difference and Min never do. */
  predicate AddsNewKeys(op: MergeOp) {
    op == Sum || op == Max
  }

  /**
   * The mapping a merge produces: shared keys are combined, keys only on the
   * left keep their value, keys only on the right enter as they are for Sum
   * and Max and are ignored for Difference and Min.
   */
  function Merged(op: MergeOp, a: map<int, int>, b: map<int, int>): map<int, int> {
    map k | k in a.Keys + (if AddsNewKeys(op) then b.Keys else {}) ::
      if k in a && k in b then Combine(op, a[k], b[k])
      else if k in a then a[k]
      else b[k]
  }

  /** Merging nothing changes nothing. */
  lemma MergeNothing(op: MergeOp, a: map<int, int>)
    ensures Merged(op, a, map[]) == a
  {
  }

  /** Merging into an empty mapping gives the right operand for Sum and Max, and nothing for Difference and Min. */
  lemma MergeIntoEmpty(op: MergeOp, b: map<int, int>)
    ensures Merged(op, map[], b) == if AddsNewKeys(op) then b else map[]
  {
  }

  /**
   * One key of the right operand more: the merge changes at that key only,
   * in the way the loops of the source update it.
   */
  lemma MergedStep(op: MergeOp, a: map<int, int>, b: map<int, int>, rest: set<int>, k: int)
    requires rest <= b.Keys && k in rest
    ensures k in Merged(op, a, b - rest) <==> k in a
    ensures k in a ==> Merged(op, a, b - rest)[k] == a[k]
    ensures k in a ==>
      Merged(op, a, b - (rest - {k})) == Merged(op, a, b - rest)[k := Combine(op, a[k], b[k])]
    ensures k !in a && AddsNewKeys(op) ==>
      Merged(op, a, b - (rest - {k})) == Merged(op, a, b - rest)[k := b[k]]
    ensures k !in a && !AddsNewKeys(op) ==>
      Merged(op, a, b - (rest - {k})) == Merged(op, a, b - rest)
  {
    assert b - (rest - {k}) == (b - rest)[k := b[k]];
  }

  /**
   * The loop of the rebuild strategy and of the copying merges: every key of
   * `b`, in whatever order the keys come, updates the mapping by itself.
   */
  method ApplyAll(op: MergeOp, a: map<int, int>, b: map<int, int>) returns (r: map<int, int>)
    ensures r == Merged(op, a, b)
  {
    r := a;
    var rest := b.Keys;
    NoKeysMerged(op, a, b);
    while exists k :: k in rest
      invariant rest <= b.Keys
      invariant r == Merged(op, a, b - rest)
      decreases |rest|
    {
      var k :| k in rest;
      MergedStep(op, a, b, rest, k);
      if k in r {
        r := r[k := Combine(op, r[k], b[k])];
      } else if AddsNewKeys(op) {
        r := r[k := b[k]];
      }
      rest := rest - {k};
    }
    AllKeysMerged(op, a, b, rest);
  }

  /** Before any key of `b` is taken in, the merge is the left operand. */
  lemma NoKeysMerged(op: MergeOp, a: map<int, int>, b: map<int, int>)
    ensures Merged(op, a, b - b.Keys) == a
  {
    assert b - b.Keys == map[];
    MergeNothing(op, a);
  }

  /** Removing a set of keys that holds nothing leaves a mapping as it is. */
  lemma RemoveNothing(b: map<int, int>, rest: set<int>)
    requires !exists k :: k in rest
    ensures b - rest == b
  {
    var none: set<int> := {};
    assert forall k :: k in rest <==> k in none;
    assert rest == none;
    assert b - none == b;
  }

  /** Once no key is left to take in, the merge is complete. */
  lemma AllKeysMerged(op: MergeOp, a: map<int, int>, b: map<int, int>, rest: set<int>)
    requires !exists k :: k in rest
    ensures Merged(op, a, b - rest) == Merged(op, a, b)
  {
    RemoveNothing(b, rest);
  }

  /** Sum and Max do not depend on the order of their operands. */
  lemma UnionMergesCommute(op: MergeOp, a: map<int, int>, b: map<int, int>)
    requires AddsNewKeys(op)
    ensures Merged(op, a, b) == Merged(op, b, a)
  {
    var left, right := Merged(op, a, b), Merged(op, b, a);
    assert left.Keys == a.Keys + b.Keys == right.Keys;
    forall k | k in left ensures left[k] == right[k] {
    }
  }

  /** Max and Min of a mapping with itself give the mapping back. */
  lemma MaxMinIdempotent(a: map<int, int>)
    ensures Merged(Max, a, a) == a && Merged(Min, a, a) == a
  {
    var upper, lower := Merged(Max, a, a), Merged(Min, a, a);
    assert upper.Keys == a.Keys && lower.Keys == a.Keys;
    forall k | k in a ensures upper[k] == a[k] && lower[k] == a[k] {
    }
  }

  /**
   * Subtracting what was added restores every value of the left operand;
   * keys that only the right operand held stay behind with value 0.
   */
  lemma SumThenDifference(a: map<int, int>, b: map<int, int>)
    ensures Merged(Difference, Merged(Sum, a, b), b).Keys == a.Keys + b.Keys
    ensures forall k :: k in a ==> Merged(Difference, Merged(Sum, a, b), b)[k] == a[k]
    ensures forall k :: k in b && k !in a ==> Merged(Difference, Merged(Sum, a, b), b)[k] == 0
  {
    var sum := Merged(Sum, a, b);
    assert forall k :: k in sum <==> k in a || k in b;
    assert sum.Keys == a.Keys + b.Keys;
    var back := Merged(Difference, sum, b);
    assert back.Keys == sum.Keys;
    forall k | k in back ensures back[k] == if k in a then a[k] else 0 {
      assert k in sum;
    }
  }

  /**
   * `self <= that` as the source computes it: a size check, then every key
   * of self present in that with no larger value. The size check is implied:
   * it holds exactly when the comparison holds key by key.
   */
  function LessOrEqual(a: map<int, int>, b: map<int, int>): (r: bool)
    ensures r <==> a.Keys <= b.Keys && forall k :: k in a ==> a[k] <= b[k]
  {
    SizeCheckImplied(a, b);
    |a| <= |b| && forall k :: k in a ==> k in b && a[k] <= b[k]
  }

  /** `self < that`: different, and `self <= that`; that is, the strict part of `<=`. */
  function LessThan(a: map<int, int>, b: map<int, int>): (r: bool)
    ensures r <==> LessOrEqual(a, b) && !LessOrEqual(b, a)
  {
    LessOrEqualPartialOrder(a, b, b);
    a != b && LessOrEqual(a, b)
  }

  /** `self >= that` as the source computes it, which is `<=` with the operands swapped. */
  function GreaterOrEqual(a: map<int, int>, b: map<int, int>): (r: bool)
    ensures r <==> LessOrEqual(b, a)
  {
    |a| >= |b| && forall k :: k in b ==> k in a && a[k] >= b[k]
  }

  /** `self > that`: different, and `self >= that`, which is `<` with the operands swapped. */
  function GreaterThan(a: map<int, int>, b: map<int, int>): (r: bool)
    ensures r <==> LessThan(b, a)
  {
    a != b && GreaterOrEqual(a, b)
  }

  /** A subset of keys has no more elements. */
  lemma SubsetSize(a: map<int, int>, b: map<int, int>)
    requires a.Keys <= b.Keys
    ensures |a| <= |b|
  {
    assert b.Keys == a.Keys + (b.Keys - a.Keys);
  }

  /** The size check in front of a key-by-key comparison adds nothing. */
  lemma SizeCheckImplied(a: map<int, int>, b: map<int, int>)
    ensures (|a| <= |b| && forall k :: k in a ==> k in b && a[k] <= b[k])
        <==> a.Keys <= b.Keys && forall k :: k in a ==> a[k] <= b[k]
  {
    if forall k :: k in a ==> k in b && a[k] <= b[k] {
      forall k | k in a.Keys ensures k in b.Keys {
        assert k in a;
      }
      assert a.Keys <= b.Keys;
    }
    if a.Keys <= b.Keys && forall k :: k in a ==> a[k] <= b[k] {
      SubsetSize(a, b);
      forall k | k in a ensures k in b && a[k] <= b[k] {
        assert k in a.Keys;
      }
    }
  }

  /** `<=` is a partial order on mappings: reflexive, antisymmetric and transitive. */
  lemma LessOrEqualPartialOrder(a: map<int, int>, b: map<int, int>, c: map<int, int>)
    ensures LessOrEqual(a, a)
    ensures LessOrEqual(a, b) && LessOrEqual(b, a) ==> a == b
    ensures LessOrEqual(a, b) && LessOrEqual(b, c) ==> LessOrEqual(a, c)
  {
    if LessOrEqual(a, b) && LessOrEqual(b, a) {
      assert a.Keys == b.Keys;
      forall k | k in a ensures a[k] == b[k] {
      }
    }
  }

  /** Max is an upper bound of both operands. */
  lemma MaxIsUpperBound(a: map<int, int>, b: map<int, int>)
    ensures LessOrEqual(a, Merged(Max, a, b)) && LessOrEqual(b, Merged(Max, a, b))
  {
    var upper := Merged(Max, a, b);
    assert forall k :: k in upper <==> k in a || k in b;
  }

  /** Min lowers the left operand, and no shared key ends above the right operand's value. */
  lemma MinIsLowerBound(a: map<int, int>, b: map<int, int>)
    ensures LessOrEqual(Merged(Min, a, b), a)
    ensures forall k :: k in a && k in b ==> Merged(Min, a, b)[k] <= b[k]
  {
    var lower := Merged(Min, a, b);
    assert forall k :: k in lower <==> k in a;
  }

  /** What `clean(t)` leaves: the entries whose value is above the threshold. */
  function Cleaned(d: map<int, int>, t: int): map<int, int> {
    map k | k in d && d[k] > t :: d[k]
  }

  /** Pruning twice at the same threshold is pruning once; a higher threshold subsumes a lower one. */
  lemma CleanedTwice(d: map<int, int>, t: int, u: int)
    requires t <= u
    ensures Cleaned(Cleaned(d, t), t) == Cleaned(d, t)
    ensures Cleaned(Cleaned(d, t), u) == Cleaned(d, u)
  {
  }

  /**
   * The outcome of `update` as written: the rebuild path (more than a tenth
   * as many items as entries) overwrites, but the per-key path looks up
   * the old value of every key and raises KeyError on a new one.
   */
  function UpdateAsWrittenOutcome(d: map<int, int>, items: map<int, int>): (r: Result<map<int, int>>)
    ensures r.Ok? ==> r.value == d + items
    ensures r.Err? <==> 10 * |items| <= |d| && exists k :: k in items && k !in d
    ensures r.Err? ==> r.error == KeyError
  {
    if 10 * |items| > |d| then Ok(d + items)
    else if forall k :: k in items ==> k in d then Ok(d + items)
    else Err(KeyError)
  }

  /** One more item taken in by an overwriting update: its key now holds the item's value. */
  lemma OverwriteStep(d: map<int, int>, items: map<int, int>, rest: set<int>, k: int)
    requires rest <= items.Keys && k in rest
    ensures (d + (items - rest))[k := items[k]] == d + (items - (rest - {k}))
  {
    var left, right := (d + (items - rest))[k := items[k]], d + (items - (rest - {k}));
    assert forall j :: j in left <==> j in right;
    assert left.Keys == right.Keys;
    forall j | j in left ensures left[j] == right[j] {
    }
  }

  /** An overwriting update that has taken in no item yet has changed nothing. */
  lemma NothingOverwritten(d: map<int, int>, items: map<int, int>)
    ensures d + (items - items.Keys) == d
  {
    assert items - items.Keys == map[];
  }

  /** An overwriting update with no item left to take in is complete. */
  lemma AllOverwritten(d: map<int, int>, items: map<int, int>, rest: set<int>)
    requires !exists k :: k in rest
    ensures d + (items - rest) == d + items
  {
    RemoveNothing(items, rest);
  }

  /** A single new key given to a container of ten or more entries raises KeyError. */
  lemma UpdateAsWrittenRejectsNewKey(d: map<int, int>, k: int, v: int)
    requires |d| >= 10 && k !in d
    ensures UpdateAsWrittenOutcome(d, map[k := v]) == Err(KeyError)
  {
    assert map[k := v].Keys == {k};
  }

  /**
   * An update stopped part way, having overwritten only keys the mapping
   * already held, keeps the keys of the mapping; each entry has its old value
   * or the value of its item.
   */
  lemma PartlyOverwritten(d: map<int, int>, items: map<int, int>, rest: set<int>)
    requires forall k :: k in items && k !in rest ==> k in d
    ensures (d + (items - rest)).Keys == d.Keys
    ensures forall k :: k in d + (items - rest) ==> (d + (items - rest))[k] == d[k] || (k in items && (d + (items - rest))[k] == items[k])
  {
    var partial := d + (items - rest);
    assert forall k :: k in partial <==> k in d;
  }

  /** The entries with value at most `v` are those below `v` and, apart from them, those equal to `v`. */
  lemma SplitAtValue(d: map<int, int>, v: int)
    ensures |set k | k in d && d[k] <= v| == |set k | k in d && d[k] < v| + |set k | k in d && d[k] == v|
  {
    var atMost, below, equal := set k | k in d && d[k] <= v, set k | k in d && d[k] < v, set k | k in d && d[k] == v;
    var none: set<int> := {};
    assert forall k :: k in atMost <==> k in below + equal;
    assert atMost == below + equal;
    assert forall k :: k in below * equal <==> k in none;
    assert below * equal == none;
  }
}
