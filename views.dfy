/**
 * The positional views of a container: `iloc`, which reads and deletes
 * keys by position, and the values view, which reads values by position,
 * counts them and searches for them. Each view operation is a function or
 * method of the container it wraps.
 */
module Views {
  import opened Outcomes
  import opened Positions
  import opened SortedPairs
  import opened Consistency
  import opened Mappings
  import opened PriorityDicts

  /**
   * `iloc[index]`: the key at a position in iteration order, negative
   * positions counting from the end; IndexError outside the container.
   * The key found is one whose `index` is that position.
   */
  function IlocGet(d: PriorityDict, index: int): (r: Result<int>)
    reads d
    requires d.Valid()
    ensures r.Ok? <==> -(|d.mapping| as int) <= index < |d.mapping|
    ensures r.Ok? ==> r.value in d.mapping && d.Index(r.value) == Resolve(index, |d.order|)
    ensures r.Err? ==> r.error == IndexError
  {
    match Resolve(index, |d.order|)
    case Ok(i) => Ok(d.order[i].1)
    case Err(e) => Err(e)
  }

  /** Positions and keys correspond: the key at the position `index` reports is the key itself. */
  lemma IlocOfIndex(d: PriorityDict, key: int)
    requires d.Valid() && key in d.mapping
    ensures d.Index(key).Ok? && IlocGet(d, d.Index(key).value) == Ok(key)
  {
  }

  /** `iloc[start:stop]`: the keys of the selected positions, a contiguous piece of iteration order. */
  function IlocSlice(d: PriorityDict, sl: Slice): (r: seq<int>)
    reads d
    requires d.Valid()
    ensures r == d.IterKeys()[Bounds(sl, |d.order|).0..Bounds(sl, |d.order|).1]
  {
    var (lo, hi) := Bounds(sl, |d.order|);
    KeySequence(d.order[lo..hi])
  }

  /**
   * `del iloc[index]`: the entry at a position leaves both indices;
   * IndexError, changing nothing, outside the container.
   */
  method IlocDelete(d: PriorityDict, index: int) returns (r: Outcome)
    requires d.Valid()
    modifies d
    ensures d.Valid()
    ensures r.Pass? <==> -(|old(d.mapping)| as int) <= index < |old(d.mapping)|
    ensures r.Fail? ==> r.error == IndexError && d.mapping == old(d.mapping) && d.order == old(d.order)
    ensures r.Pass? ==>
      var i := Resolve(index, |old(d.order)|).value;
      && d.mapping == old(d.mapping) - {old(d.order)[i].1}
      && d.order == DeleteRange(old(d.order), i, i + 1)
  {
    match Resolve(index, |d.order|)
    case Err(e) =>
      r := Fail(e);
    case Ok(i) =>
      KeysOfOne(d.order, i);
      d.DeletePositions(i, i + 1);
      r := Pass;
  }

  /**
   * `del iloc[start:stop]`: the keys of the selected positions leave the
   * mapping index, the positions leave the order index, and the size drops
   * by the number of positions selected.
   */
  method IlocDeleteSlice(d: PriorityDict, sl: Slice)
    requires d.Valid()
    modifies d
    ensures d.Valid()
    ensures
      var (lo, hi) := Bounds(sl, |old(d.order)|);
      && d.mapping == old(d.mapping) - Keys(old(d.order)[lo..hi])
      && d.order == DeleteRange(old(d.order), lo, hi)
      && |d.mapping| == |old(d.mapping)| - (hi - lo)
  {
    var (lo, hi) := Bounds(sl, |d.order|);
    d.DeletePositions(lo, hi);
  }

  /** `viewvalues()[index]`: the value at a position, which is the value of the key `iloc` finds there. */
  function ValueAt(d: PriorityDict, index: int): (r: Result<int>)
    reads d
    requires d.Valid()
    ensures r.Ok? <==> IlocGet(d, index).Ok?
    ensures r.Ok? ==> r.value == d.mapping[IlocGet(d, index).value]
    ensures r.Err? ==> r.error == IndexError
  {
    match Resolve(index, |d.order|)
    case Ok(i) => Ok(d.order[i].0)
    case Err(e) => Err(e)
  }

  /** `viewvalues()[start:stop]`: the values of the keys `iloc[start:stop]` selects, in the same order. */
  function ValueSlice(d: PriorityDict, sl: Slice): (r: seq<int>)
    reads d
    requires d.Valid()
    ensures |r| == |IlocSlice(d, sl)|
    ensures forall i :: 0 <= i < |r| ==> IlocSlice(d, sl)[i] in d.mapping && r[i] == d.mapping[IlocSlice(d, sl)[i]]
  {
    var (lo, hi) := Bounds(sl, |d.order|);
    ValueSequence(d.order[lo..hi])
  }

  /**
   * `viewvalues().count(v)`: bisect_right minus bisect_left, which is the
   * number of entries whose value is `v`; those entries occupy the
   * positions from bisect_left on.
   */
  function ValueCount(d: PriorityDict, v: int): (r: nat)
    reads d
    requires d.Valid()
    ensures r == |set k | k in d.mapping && d.mapping[k] == v|
    ensures d.BisectLeft(v) <= d.BisectRight(v)
    ensures forall i :: 0 <= i < |d.order| ==>
      (d.order[i].0 == v <==> d.BisectLeft(v) <= i < d.BisectLeft(v) + r)
  {
    SplitAtValue(d.mapping, v);
    d.BisectRight(v) - d.BisectLeft(v)
  }

  /**
   * `viewvalues().index(v)` as intended: the first position whose value is
   * `v`; ValueError when no entry has that value.
   */
  function ValueIndex(d: PriorityDict, v: int): (r: Result<nat>)
    reads d
    requires d.Valid()
    ensures r.Ok? <==> exists k :: k in d.mapping && d.mapping[k] == v
    ensures r.Ok? ==> r.value < |d.order| && d.order[r.value].0 == v
    ensures r.Ok? ==> forall i :: 0 <= i < r.value ==> d.order[i].0 < v
    ensures r.Err? ==> r.error == ValueError
  {
    FirstOfValue(d.mapping, d.order, v);
    var pos := d.BisectLeft(v);
    if pos == |d.order| || d.order[pos].0 != v then Err(ValueError) else Ok(pos)
  }

  /**
   * `viewvalues().index(v)` as written: the view holds no `_dict`, so the
   * size test raises AttributeError before anything is compared.
   */
  function ValueIndexAsWritten(d: PriorityDict, v: int): (r: Result<nat>)
    ensures r.Err? && r.error == AttributeError
  {
    Err(AttributeError)
  }

  /** The search as written fails even for a value that is present, which the intended search finds. */
  lemma ValueIndexAsWrittenMissesPresentValue(d: PriorityDict, key: int)
    requires d.Valid() && key in d.mapping
    ensures ValueIndex(d, d.mapping[key]).Ok?
    ensures ValueIndexAsWritten(d, d.mapping[key]) == Err(AttributeError)
  {
  }
}
