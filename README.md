# PriorityDict, modelled in Dafny

`PriorityDict` (prioritydict.py) is a dictionary that keeps its keys in
value order. It holds two indices and updates them together:

- the mapping index `_dict`, from key to value;
- the order index `_list`, a sorted list of `(value, key)` pairs.

This project models that container with keys and values as unbounded
integers. Python tuple order on `(value, key)` is `SortedPairs.PairLess`.

The model has seven modules:

- `Outcomes`: the exceptions raised (KeyError, IndexError, ValueError,
  AttributeError) and the `Result` / `Option` wrappers that carry them.
- `Positions`: Python's resolution of a position (negative from the end,
  IndexError outside) and of a step-1 slice (bounds clamped).
- `SortedPairs`: the part of the external `SortedList` the container relies
  on, as a strictly sorted `seq` of pairs:
  - `add` is `Insert`, `remove` is `Remove`, slice deletion and `pop` are
    `DeleteRange`, and `index` is `IndexOf`;
  - bisection is one binary search, `Bisect`, against a `Probe`.
    `Low(v)` stands for the 1-tuple `(v,)`, which sorts before every pair
    with value `v`. `High(v)` stands for `(v, _Biggest)`, which sorts after
    every such pair. `At(p)` is an ordinary pair.
- `Consistency`:
  - `Consistent(d, l)` is the representation invariant checked by `_check`;
  - the lemmas every mutator uses to re-establish it;
  - `FromMap`, the rebuild of the order index from the mapping index.
- `Mappings`: the container seen as a plain mapping:
  - `Merged`, what the four merges compute, and `ApplyAll`, the loop over
    the other operand;
  - the comparisons;
  - `Cleaned`, threshold pruning;
  - `UpdateAsWrittenOutcome`, the outcome of `update` as the source writes it.
- `PriorityDicts`: `class PriorityDict`. Its field `mapping` is `_dict`,
  its field `order` is `_list`, and `Valid()` is `_check`. Every mutator is
  a method that re-establishes `Valid()` and states the new mapping in terms
  of the old one. The read-only operations are functions of the object.
- `Views`: the positional views, `iloc` and the values view. Each view
  operation is a function or method of the container it wraps.

Each in-place merge is one method, `MergeInPlace(op, that)`.
`op` is one of `Sum` (`+=`), `Difference` (`-=`), `Max` (`|=`) and
`Min` (`&=`). It branches like the source:

- an empty container is handled by `MergeWhenEmpty`;
- `3 * len(that) > len(self)` means a rebuild, `MergeRebuild`;
- otherwise each key is merged in turn, by `MergeIncremental`.

Each of the three branch methods is proved separately to produce
`Merged(op, old mapping, that)` and a valid container, so the branches
agree. The copying merges (`+`, `-`, `|`, `&`) are `MergeCopy`, which
builds a fresh container with the same mapping.

Three behaviours of the code that its docstrings or its operator names do
not make plain; the model follows the code:

- The `iloc` docstring (prioritydict.py:86-88) says an invalid index raises
  IndexError. That holds for a single position, which indexes the sorted
  list directly (line 94). A slice is passed to the sorted list as it is
  (line 92), so its bounds are clamped as Python clamps them and never fail
  (`Positions.Clamp`, `Positions.Bounds`).
- `+=` gives every key of the operand an entry (prioritydict.py:387-402),
  but `-=` only changes keys the container already holds (lines 411-424).
  So a Sum followed by a Difference with the same operand keeps the keys
  that only the operand held, with value 0 (`Mappings.SumThenDifference`).
- The `update` docstring (prioritydict.py:331-332) promises to overwrite
  existing keys. Its per-key path (lines 346-350) reads the old value of
  each key first, so it raises KeyError at the first new key, after it has
  applied the items before it (`PriorityDicts.PriorityDict.UpdateAsWritten`,
  and Findings).

## Model

| member | source | states |
|---|---|---|
| `PriorityDicts.PriorityDict.constructor` | prioritydict.py:144-147 | A new container is consistent and holds exactly the given items. |
| `PriorityDicts.PriorityDict.Clear` | prioritydict.py:149-152 | Both indices become empty, and the empty container is consistent. |
| `PriorityDicts.PriorityDict.Clean` | prioritydict.py:154-163 | After `clean(t)` no entry has a value at most `t`. Every entry with a larger value is kept with its value. The container stays consistent. |
| `PriorityDicts.PrefixDropIsCleaned` | prioritydict.py:160-163 | Deleting the positions before `bisect_right(t)` removes exactly the entries with value at most `t`. |
| `Mappings.CleanedTwice` | prioritydict.py:154-163 | Pruning twice at `t` equals pruning once. Pruning at `t` and then at a higher `u` equals pruning at `u`. |
| `PriorityDicts.PriorityDict.DeletePositions` | prioritydict.py:159-163 | The deletion loop: the keys at positions [lo, hi) leave the mapping index, those positions leave the order index, and consistency is restored. |
| `PriorityDicts.PriorityDict.Contains` | prioritydict.py:165-167 | A key is in the mapping index exactly when some pair of the order index carries it. |
| `PriorityDicts.PriorityDict.DelItem` | prioritydict.py:169-176 | A present key is removed and nothing else changes. An absent key gives KeyError and both indices stay unchanged. |
| `PriorityDicts.PriorityDict.Lookup` | prioritydict.py:178-183 | Succeeds exactly for present keys with the key's value in the mapping index, and that value is paired with the key in the order index. An absent key gives KeyError. |
| `PriorityDicts.PriorityDict.IterKeys` | prioritydict.py:185-190 | Iteration yields every key exactly once, in strictly increasing (value, key) order. |
| `PriorityDicts.PriorityDict.ReversedKeys` | prioritydict.py:192-197 | Reversed iteration yields every key exactly once, in strictly decreasing (value, key) order. |
| `PriorityDicts.PriorityDict.Len` | prioritydict.py:199-201 | The size of the mapping index equals the length of the order index. |
| `PriorityDicts.PriorityDict.SetItem` | prioritydict.py:203-209 | The key gets the new value and every other entry is unchanged. The size grows by one exactly when the key is new. The container stays consistent. |
| `PriorityDicts.PriorityDict.Get` | prioritydict.py:227-233 | Gives the value of a present key. For an absent key it gives the default (None unless one is given) and never raises. |
| `PriorityDicts.PriorityDict.Pop` | prioritydict.py:239-253 | `None` here means no default was given. A present key is removed and its value returned. For an absent key it returns the default if one is given, otherwise KeyError. Either way an absent key changes nothing. |
| `PriorityDicts.PriorityDict.SetDefault` | prioritydict.py:265-276 | A present key returns its value and changes nothing. An absent key is inserted with the default, which is returned. |
| `PriorityDicts.PriorityDict.PopItem` | prioritydict.py:255-263 | Succeeds exactly when the position is in [-n, n). It removes and returns the (key, value) at that position from both indices. With the default position -1 the item is above every remaining entry. Otherwise it raises IndexError and changes nothing. |
| `Consistency.LastIsLargest` | prioritydict.py:255-263 | The last pair of a consistent order index is above the pair of every other entry. |
| `Consistency.RemoveAt` | prioritydict.py:261-262 | Removing the pair at a position, and its key, keeps the indices consistent. |
| `PriorityDicts.PriorityDict.MostCommon` | prioritydict.py:293-296 | `most_common()` lists every (key, value) item once, highest (value, key) first. |
| `PriorityDicts.PriorityDict.Update` | prioritydict.py:329-350 | Both strategies, the rebuild and the per-key path, leave the mapping overwritten with every item (`old + items`) and the container consistent. |
| `Mappings.OverwriteStep` | prioritydict.py:346-350 | One item taken in by the per-key loop gives that key the item's value and moves the loop invariant on. |
| `Mappings.UpdateAsWrittenRejectsNewKey` | prioritydict.py:341-350 | As written, a single new key given to a container of ten or more entries raises KeyError. |
| `Mappings.UpdateAsWrittenOutcome` | prioritydict.py:341-350 | As written, `update` fails with KeyError exactly when the per-key path is taken (at most a tenth as many items as entries) and some key is new. When it succeeds, it overwrites. |
| `PriorityDicts.PriorityDict.UpdateAsWritten` | prioritydict.py:341-350 | The loop as written: it keeps the container valid, fails exactly when `UpdateAsWrittenOutcome` fails and then with KeyError, and otherwise ends at the old mapping overwritten by the items. A failure keeps the keys of the mapping, and each entry holds its old value or its item's value. |
| `PriorityDicts.PriorityDict.Index` | prioritydict.py:352-358 | For a present key, returns the position whose pair is (value, key), and no other position carries that key. An absent key gives KeyError. |
| `SortedPairs.IndexOf` | prioritydict.py:358 | `SortedList.index` returns the one position holding a present pair. |
| `PriorityDicts.PriorityDict.BisectLeft` | prioritydict.py:360-367 | `bisect_left(v)` is the number of entries with value below `v`. Earlier positions hold smaller values and later ones do not. |
| `PriorityDicts.PriorityDict.BisectRight` | prioritydict.py:373-379 | `bisect_right(v)` is the number of entries with value at most `v`. Earlier positions hold values at most `v` and later ones do not. |
| `SortedPairs.Bisect` | prioritydict.py:367 | The binary search returns the point that splits the sorted list into pairs below the probe and pairs not below it. |
| `SortedPairs.BisectCounts` | prioritydict.py:379 | The binary search agrees with a one-by-one count of the pairs below the probe. |
| `SortedPairs.CountOfSplit` | prioritydict.py:379 | A list split into a prefix below the probe and a rest not below it has exactly the prefix's length below the probe. |
| `Consistency.KeysBelow` | prioritydict.py:160-161 | The keys before a bisection point are exactly the entries whose pair is below the probe. |
| `Consistency.CountKeysBelow` | prioritydict.py:360-379 | The bisection point equals the number of entries whose pair is below the probe. |
| `Consistency.CountValuesBelow` | prioritydict.py:367 | Bisecting with `(v,)` counts the entries with value below `v`. |
| `Consistency.CountValuesAtMost` | prioritydict.py:379 | Bisecting with `(v, _Biggest)` counts the entries with value at most `v`. |
| `PriorityDicts.PriorityDict.MergeInPlace` | prioritydict.py:381-403 | `+=`, and likewise the other three in-place merges (lines 405-471): whichever strategy runs, the result is `Merged(op, old, that)` and consistent. |
| `PriorityDicts.PriorityDict.MergeWhenEmpty` | prioritydict.py:384-386 | Empty container: Sum and Max take the other operand; Difference and Min (lines 408-410, 454-456) stay empty. Both give the merge. |
| `Mappings.MergeIntoEmpty` | prioritydict.py:384-386 | Merging into nothing gives the operand for Sum and Max, and nothing for Difference and Min. |
| `PriorityDicts.PriorityDict.MergeRebuild` | prioritydict.py:387-394 | Rebuild strategy (also lines 411-416, 433-440, 457-462): the mapping is merged, then the order index is rebuilt. The result is the merge, and consistent. |
| `Mappings.ApplyAll` | prioritydict.py:389-393 | The key loop, in whatever order the keys come, computes `Merged(op, a, b)`. |
| `Consistency.FromMap` | prioritydict.py:394 | Rebuilding the order index from the mapping index, one insertion at a time, gives a consistent pair. |
| `PriorityDicts.PriorityDict.MergeIncremental` | prioritydict.py:395-402 | Per-key strategy (also lines 417-424, 441-448, 463-470): each key's old pair is removed and its new pair added. The result is the merge, and consistent. |
| `Mappings.MergedStep` | prioritydict.py:396-402 | One key taken in changes the merge at that key only: combined if shared, added for Sum/Max if new, ignored for Difference/Min. |
| `PriorityDicts.PriorityDict.MergeCopy` | prioritydict.py:473-484 | `+`, and likewise the other three copying merges (lines 486-519): a fresh consistent container holding the same merge that the in-place form computes. The original is not changed. |
| `Mappings.UnionMergesCommute` | prioritydict.py:473-508 | Sum and Max do not depend on the order of the operands. |
| `Mappings.SumThenDifference` | prioritydict.py:473-495 | Sum then Difference with the same operand restores every original value. Keys only in the operand remain, with value 0. |
| `Mappings.MaxMinIdempotent` | prioritydict.py:497-519 | Max and Min of a mapping with itself give it back. |
| `Mappings.MaxIsUpperBound` | prioritydict.py:497-508 | The Max merge is `>=` both operands. |
| `Mappings.MinIsLowerBound` | prioritydict.py:510-519 | The Min merge is `<=` the left operand, and no shared key ends above the right operand's value. |
| `Mappings.LessOrEqual` | prioritydict.py:540-547 | `self <= that`, against `that`'s mapping index: holds exactly when every key of self is in that with no larger value; the size check is implied. |
| `Mappings.LessThan` | prioritydict.py:533-538 | `self < that` is the strict part of `<=`: `<=` holds one way and not the other. |
| `Mappings.GreaterOrEqual` | prioritydict.py:556-563 | `self >= that` is `that <= self`. |
| `Mappings.GreaterThan` | prioritydict.py:549-554 | `self > that` is `that < self`. |
| `Mappings.SizeCheckImplied` | prioritydict.py:544-547 | The size test in front of the key-by-key comparison does not change its result. |
| `Mappings.LessOrEqualPartialOrder` | prioritydict.py:533-547 | `<=` is reflexive, antisymmetric and transitive. |
| `Consistency.Correspondence` | prioritydict.py:656-660 | In a consistent state, a pair is in the order index exactly when the mapping index agrees with it. |
| `Consistency.KeysAgree` | prioritydict.py:656-660 | In a consistent state, the keys of the order index are exactly the keys of the mapping index. |
| `Consistency.OrderDetermined` | prioritydict.py:656-660 | Two consistent order indices for the same mapping are equal: the mapping index determines the order index. |
| `Consistency.SortedUnique` | prioritydict.py:657 | Two strictly sorted lists with the same elements are equal. |
| `Consistency.RemoveKey` | prioritydict.py:174-176 | Removing a present key's pair and the key keeps the indices consistent. |
| `Consistency.InsertKey` | prioritydict.py:274-275 | Adding a new key and its pair keeps the indices consistent. |
| `Consistency.ReplaceKey` | prioritydict.py:205-209 | Replacing a present key's pair with its new one keeps the indices consistent. |
| `Consistency.DropRange` | prioritydict.py:102-105 | Deleting a range of positions and their keys keeps the indices consistent. |
| `Consistency.CheckAsWritten` | prioritydict.py:656-660 | `_check` as written: sizes agree, the list is sorted allowing equal neighbours, and every listed pair agrees with the mapping. Every consistent state passes it. |
| `Consistency.CheckAsWrittenAdmitsDuplicate` | prioritydict.py:656-660 | The check as written passes a state that repeats one pair and omits a key (see Findings). |
| `SortedPairs.Insert` | prioritydict.py:208 | `SortedList.add` of an absent pair keeps the list sorted and adds exactly that pair. |
| `SortedPairs.Remove` | prioritydict.py:207 | `SortedList.remove` of a present pair keeps the list sorted and removes exactly that pair. |
| `SortedPairs.DeleteRange` | prioritydict.py:163 | Deleting a range of positions shifts the rest down and keeps the list sorted. |
| `Positions.Clamp` | prioritydict.py:92 | One slice bound as Python clamps it: omitted gives the default, [0, n] is kept, [-n, 0) counts from the end, below -n gives 0 and above n gives n. |
| `Positions.Resolve` | prioritydict.py:94 | A position is valid exactly in [-n, n). Negative positions count from the end; others raise IndexError. |
| `Positions.Bounds` | prioritydict.py:92 | A step-1 slice selects a range [lo, hi) with lo <= hi <= n. An omitted start is 0; a start in [0, n] is kept, one in [-n, 0) counts from the end, one below -n is 0 and one above n is n. The stop is clamped the same way (omitted: n), and a stop that resolves before the start gives hi == lo. |
| `Views.IlocGet` | prioritydict.py:84-94 | `iloc[i]` succeeds exactly for i in [-n, n). The key found has index i. Otherwise it raises IndexError. |
| `Views.IlocOfIndex` | prioritydict.py:352-358 | `iloc` at a key's `index` gives the key back. |
| `Views.IlocSlice` | prioritydict.py:91-92 | `iloc[start:stop]` is the matching contiguous piece of iteration order. |
| `Views.IlocDelete` | prioritydict.py:106-109 | `del iloc[i]` removes the entry at position i from both indices. An invalid position gives IndexError and changes nothing. |
| `Views.IlocDeleteSlice` | prioritydict.py:102-105 | `del iloc[start:stop]` removes exactly the selected positions' keys from both indices, and the size drops by their number. |
| `Views.ValueAt` | prioritydict.py:801-802 | `viewvalues()[i]` succeeds exactly when `iloc[i]` does, and gives that key's value. |
| `Views.ValueSlice` | prioritydict.py:799-800 | `viewvalues()[start:stop]` gives the values of the keys `iloc[start:stop]` selects, in the same order. |
| `Views.ValueCount` | prioritydict.py:823-827 | `count(v)` equals the number of entries whose value is `v`, and `bisect_left(v) <= bisect_right(v)`. These entries fill the positions from `bisect_left(v)` on. |
| `Consistency.FirstOfValue` | prioritydict.py:818-822 | Some entry has value `v` exactly when the position `bisect_left(v)` exists and holds value `v`. |
| `Views.ValueIndex` | prioritydict.py:812-822 | Intended `index(v)`: succeeds exactly when some entry has value `v`, and returns the first position with that value. Otherwise ValueError. |
| `Views.ValueIndexAsWritten` | prioritydict.py:812-822 | `viewvalues().index(v)` as written always raises AttributeError. |
| `Views.ValueIndexAsWrittenMissesPresentValue` | prioritydict.py:818-819 | As written, `index(v)` raises AttributeError even for a value that is present and that the intended search finds. |

## Left out

- The internals of `SortedList` (external `sortedcontainers` library). Only its contract on a sorted sequence is modelled.
- `SortedPairs.Insert`: requires the pair to be absent, whereas `SortedList.add` accepts duplicates. The container never adds a pair it already holds, and the strict order of the model relies on that.
- Python 2/3 plumbing: `iter_items`, `not26`, `hexversion` branches, `has_key`, `keys`/`values`/`items`/`iter*`/`view*`. These are aliases over iterating the order index, which `IterKeys` models.
- `bisect`: an alias. It calls `SortedList.bisect`, that is bisect_right, on the 1-tuple `(v,)`. No pair equals a 1-tuple, so it is the same point as `bisect_left`, which is modelled.
- `__eq__`/`__ne__`: plain equality of the mapping indices, which Dafny's map equality is.
- `isdisjoint` and the set algebra and comparisons of `KeysView` and `ItemsView`. They delegate to Python's own dict views.
- `KeysView.isdisjoint` refers to an undefined `version_info`; it is not modelled.
- The KeysView and ItemsView indexing and iteration: the same reads of the order index that `Views.IlocGet`, `Views.IlocSlice` and `IterKeys` model.
- The `ValuesView` operators that raise TypeError, `__len__`/`__contains__`/iteration of the views, and `__repr__`.
- `tally`, `subtract`, `count` and `fromkeys`: they go through `collections.Counter`, which is not part of this model.
- The constructor's docstring claims that a key list is tallied, but `update` calls `dict(*args)`. The constructor is modelled as taking a mapping.
- `most_common(count)` with an explicit count: it uses Python 2's `xrange`. Only `most_common()` is modelled.
- `elements`: a lazy `itertools` chain.
- `copy`: not modelled. It shares `_dict` and `_list` with the original instead of copying them, so it would need aliasing between two objects.
- Slices with a step other than 1.
- An in-place merge whose other operand is the container itself. `that` is a mapping value here, so its aliasing with `self` is not modelled.
- `PriorityDicts.PriorityDict.Update`: models the corrected per-key path; see Findings. As written, the KeyError leaves the container holding the items already applied. That partial state is modelled by `PriorityDicts.PriorityDict.UpdateAsWritten`.
- `PriorityDicts.PriorityDict.Pop`: `Option.None` stands for "no default given", so `pop(k, None)`, which returns Python's `None` for an absent key, cannot be expressed.
- Floats and other value or key types: keys and values are unbounded integers, so arithmetic is exact and never overflows.
- Concurrency, and views that go stale during mutation.

## Findings

| source | as written | input that shows it | evidently intended | confidence | as-written member | corrected member |
|---|---|---|---|---|---|---|
| prioritydict.py:346-350 | The per-key path of `update` reads `_dict[key]` for every item, so it raises KeyError on a key that is not yet present. | A container with 10 entries updated with one new key (`Mappings.UpdateAsWrittenRejectsNewKey`). | Overwrite semantics as the docstring says: each item is set like `__setitem__`, whether its key is new or not. | not executed; high | `PriorityDicts.PriorityDict.UpdateAsWritten` | `PriorityDicts.PriorityDict.Update` |
| prioritydict.py:818-819 | `ValuesView.index` tests `len(self._dict)`, but a values view has no `_dict` attribute, so every call raises AttributeError. | Any container with an entry of value `v`, then `viewvalues().index(v)` (`Views.ValueIndexAsWrittenMissesPresentValue`). | The first position holding value `v`, or ValueError when no entry has it. | not executed; high | `Views.ValueIndexAsWritten` | `Views.ValueIndex` |
| prioritydict.py:656-660 | `_check` compares sizes and checks each listed pair against the mapping, with the sorted list's own check allowing equal neighbours. So it passes a list that repeats one pair and omits another key. | Mapping `{1: 1, 2: 2}` with list `[(1, 1), (1, 1)]` (`Consistency.CheckAsWrittenAdmitsDuplicate`). | The list holds exactly one pair per entry: a bijection between the two indices. | not executed; medium (rests on the sorted list's check admitting equal neighbours) | `Consistency.CheckAsWritten` | `Consistency.Consistent` |
