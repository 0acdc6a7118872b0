# CollectionDiffAndIntersectUtil in Dafny

This project models `CollectionDiffAndIntersectUtil`, a Java utility for reconciling two lists of records.
It has three operations:

- **getGroupKeyMapping** turns a collection of records into an insertion-ordered one-to-many map. The map
  goes from the key that a named getter (or a `Map` entry) yields for each record to the records with that
  key. It can skip null keys (`ignoreNullKey`) and split a key that is a list into its items
  (`flattenList`). A record whose key cannot be read is skipped.
- **hashDiffAndIntersect** groups both lists by key. It then sends the records of keys found only in A to
  `diffA`, those of keys found only in B to `diffB`, and those of shared keys to `intersect`. The shared
  keys' records come from A when `returnA` is set, from B otherwise.
- **iterateDiffAndIntersect** walks B in order with a caller-supplied comparator. Each entity of B that
  some remaining element of A matches goes to `intersect`, and the first such element is removed from A
  through `removeFrom`. The others go to `diffB`, and what is left of A becomes `diffA`.

The modules follow that structure:

- `Results` holds `Option`, the outcome of a call that may end with a `ConcurrentModificationException`
  (`Completion`), and the `DiffAndIntersect` value.
- `SeqUtil` holds `Count` and `Repeat`, which state how often a record is filed under a key.
- `GroupSpec` and `GroupFacts` hold a reference definition of the grouping and its properties.
  `Grouping` holds the loop that builds the map, proved equal to that definition.
- `HashSpec` and `HashDiff` cover hash mode. The loop over the `HashSet` of keys picks its next key
  arbitrarily, so every guarantee holds for every iteration order.
- `JavaList` models the part of `java.util.ArrayList` comparator mode depends on: the elements, `modCount`
  and `remove(Object)`.
- `GreedySpec` holds `containsCheck` and the greedy first-match pass as functions. It also holds
  `Survives`, which says when the source's pass completes without an exception.
- `IterateDiff` holds `removeFrom` and `iterateDiffAndIntersect` as written, with the iterator of the
  for-each loop spelled out. It also holds the corrected versions that the findings below call for.

The key of a record is a `KVal`: `Null`, a single value (`Atom`) or a list of keys (`ListOf`). Reading it
yields `Got(v)` or `Failed`. Failure stands for the exceptions that lines 45-76 catch while the key is
read: a missing or inaccessible getter, the getter itself, and the `Map` lookup. A `Map` with
no entry for the name yields `Got(Null)`, as `Map.get` does.

Two places where the code does not do what it sets out to do are modelled as written, and also corrected:

- The Javadoc of `returnNew` (lines 140-141) says that intersect returns collectionA's entity when it is set.
  The code never reads `returnNew` and always adds B's entity (line 154).
- `removeFrom` is meant to take the matched element out of A. The code removes it inside a for-each over
  A, which makes Java's fail-fast iterator throw in most cases (Findings, row 1).

For each, the corrected version carries the intended property, proved.

## Model

| member | source | states |
|---|---|---|
| Grouping.GetGroupKeyMapping | CollectionDiffAndIntersectUtil.java:35-80 | The map returned equals the reference grouping `Grouped`: each record is filed, in input order, under every key it yields (kept nulls included, list keys split when `flattenList`), and keys appear in first-filing order. A null collection gives the empty map. The map is well formed: each key listed once, exactly the map's keys, no empty list. With `ignoreNullKey` it has no null key. |
| Grouping.FileUnderKeys | CollectionDiffAndIntersectUtil.java:63-73 | The get-or-create loop over the candidate keys leaves the map built from the earlier filings plus one filing of the record under each kept candidate, in candidate order. |
| Grouping.Put | CollectionDiffAndIntersectUtil.java:67-72 | Get-or-create then add: the map afterwards is the map with the record appended to k's list, k added at the end of the key order exactly when it was absent. |
| Grouping.GetGroupKeyMappingByDefault | CollectionDiffAndIntersectUtil.java:22-24 | The three-argument overload is the grouping with nulls ignored and lists not flattened; its map has no null key. |
| GroupSpec.FiledUnderNonEmpty | CollectionDiffAndIntersectUtil.java:67-72 | A key holds a non-empty list exactly when some record was filed under it. |
| GroupSpec.BuildStep | CollectionDiffAndIntersectUtil.java:67-72 | Filing one more record under k appends it to k's list and adds k at the end of the key order if k is new, leaving everything else as it was. |
| GroupFacts.GroupedWellFormed | CollectionDiffAndIntersectUtil.java:38-80 | The grouping's keys are distinct and are exactly the map's keys; no list is empty; with `ignoreNullKey` there is no null key. |
| GroupFacts.NoNullFiling | CollectionDiffAndIntersectUtil.java:64-66 | With `ignoreNullKey`, nothing is ever filed under the null key, whatever the records yield and whether lists are flattened. |
| GroupFacts.KeysInFirstFilingOrder | CollectionDiffAndIntersectUtil.java:38-73 | The key order of the LinkedHashMap is exactly the keys filed, each once, ordered by where each was first filed. |
| GroupFacts.AppendRecord | CollectionDiffAndIntersectUtil.java:55-73 | Appending a record to the input appends it to each key's list once per occurrence of that key among the record's kept keys, and leaves every other list unchanged. |
| GroupFacts.FlattenedListKey | CollectionDiffAndIntersectUtil.java:56-59 | With `flattenList`, a record whose key is a list joins the list of each item k once per occurrence of k in the list; only null items are dropped, and only under `ignoreNullKey`. |
| GroupFacts.SingleKey | CollectionDiffAndIntersectUtil.java:60-73 | A record whose key is kept whole joins exactly that key's list; the key is appended to the key order exactly when it was not yet in the map. |
| GroupFacts.FailedRecordSkipped | CollectionDiffAndIntersectUtil.java:74-76 | A record whose key cannot be read is dropped: the grouping equals the grouping of the input without it. |
| HashSpec.HashGrouping | CollectionDiffAndIntersectUtil.java:106-107 | In hash mode the map's keys are exactly the keys the records have, and each key holds exactly that key's records in input order. |
| HashSpec.GatherMultiset | CollectionDiffAndIntersectUtil.java:112-122 | Concatenating the groups of a duplicate-free key order yields, as a multiset, every record whose key was gathered exactly once, whatever the order. |
| HashSpec.GatherOfKey | CollectionDiffAndIntersectUtil.java:112-122 | Within one key, the concatenated groups hold that key's records in input order; the key order only changes how keys interleave. |
| HashSpec.OwnKeysSplit | CollectionDiffAndIntersectUtil.java:113-122 | A list's records with a key split, each exactly once, into those whose key the other list lacks and those whose key it shares. |
| HashDiff.HashDiffAndIntersect | CollectionDiffAndIntersectUtil.java:99-129 | For every HashSet order: diffA holds exactly A's records whose key B lacks, diffB exactly B's whose key A lacks, and intersect exactly the chosen side's records with a shared key, as multisets. For each key these are that key's records in input order. Records with no key appear nowhere. The chosen side's keyed records are split between its diff list and intersect, each exactly once. |
| HashDiff.Route | CollectionDiffAndIntersectUtil.java:109-123 | The loop visits each key of either map exactly once, in some order. Along that order, diffA, diffB and intersect are the concatenated groups of the A-only keys, the B-only keys, and the shared keys from A or B as `returnA` says. |
| HashDiff.RoutedOutput | CollectionDiffAndIntersectUtil.java:112-122 | What the loop gathers for one output is, as a multiset and key by key, exactly the source list's records with keys in that output's key set. |
| HashDiff.SideConserved | CollectionDiffAndIntersectUtil.java:113-122 | The returned side's diff list and intersect together hold each of its keyed records exactly once. |
| HashDiff.IdenticalListsHaveNoDiff | CollectionDiffAndIntersectUtil.java:113-122 | Diffing a list against itself gives empty diff lists and puts all its keyed records into intersect. |
| GreedySpec.ContainsCheck | CollectionDiffAndIntersectUtil.java:207-213 | True exactly when some element k of the list has `compare(k, entity)`. |
| GreedySpec.FirstMatch | CollectionDiffAndIntersectUtil.java:215-220 | None exactly when containsCheck is false; otherwise the position of a matching element with no match before it. |
| GreedySpec.GreedyStep | CollectionDiffAndIntersectUtil.java:151-158 | Taking one more entity of B performs one step of the loop on the state left by the earlier ones. The pass survives that entity exactly when it survived the earlier ones and this removal, if any, is at the second-to-last position. |
| GreedySpec.FailureStep | CollectionDiffAndIntersectUtil.java:151-158 | When the pass does not survive, names the entity of B whose removal throws: the pass survives the entities before it and not that one. |
| GreedySpec.FailureStepAt | CollectionDiffAndIntersectUtil.java:151-158 | Once the pass fails at entity n, it fails on all of B and the failing entity is n, whatever follows in B. |
| GreedySpec.GreedyAccounting | CollectionDiffAndIntersectUtil.java:151-160 | Every matched entity of B consumed a distinct element of A that matches it. A is split into what is left and what was consumed, and B into matched and unmatched, as multisets. |
| GreedySpec.GreedyRoutes | CollectionDiffAndIntersectUtil.java:151-158 | B is split in its own order: an entity goes to intersect exactly when containsCheck finds a match for it in what is then left of A, and to diffB otherwise. |
| JavaList.RemoveFirst | CollectionDiffAndIntersectUtil.java:219 | Removing an object absent from the list leaves it unchanged; otherwise exactly one copy leaves the list. |
| JavaList.RemoveFirstAt | CollectionDiffAndIntersectUtil.java:219 | When position i holds the first occurrence of its value, removing that value removes position i. |
| JavaList.ArrayList.Remove | CollectionDiffAndIntersectUtil.java:219 | `remove(Object)` reports whether the object was present, removes its first occurrence, and increments modCount exactly when it removed something. |
| IterateDiff.RemoveFrom | CollectionDiffAndIntersectUtil.java:215-220 | With no match, the list and modCount are unchanged and the call completes. Otherwise the first matching element is removed and modCount incremented. The call completes exactly when that element was second-to-last, and throws ConcurrentModificationException otherwise. |
| IterateDiff.IterateDiffAndIntersect | CollectionDiffAndIntersectUtil.java:145-166 | If the pass survives, the result is diffA = what is left of A, diffB = B's unmatched entities, intersect = B's matched entities whatever `returnNew` says, and A is left as diffA. Otherwise the call throws, and A keeps the removals made up to and including the failing entity. |
| IterateDiff.TakeEntity | CollectionDiffAndIntersectUtil.java:153-158 | One pass of the loop over B: reports containsCheck on what is left of A, leaves A as the greedy step says, and throws exactly when the pass does not survive that entity. |
| IterateDiff.RemoveFirstMatch | CollectionDiffAndIntersectUtil.java:215-220 | Corrected removeFrom: removes exactly the first matching element, if any, and returns it. |
| IterateDiff.DiffAndIntersectByComparator | CollectionDiffAndIntersectUtil.java:145-166 | Corrected iterateDiffAndIntersect: always completes with the greedy pass over all of B. Intersect holds A's matched elements when `returnNew` is set and B's matched entities otherwise, and A is left as diffA. |
| IterateDiff.LastPositionMatchThrows | CollectionDiffAndIntersectUtil.java:215-220 | For A = [(1,"a"), (2,"b")] and B = [(2,"b"), (3,"c")] compared by id, the pass throws at B's first entity, though the greedy result is diffA [(1,"a")], diffB [(3,"c")], intersect [(2,"b")]. |
| IterateDiff.SingletonMatchThrows | CollectionDiffAndIntersectUtil.java:215-220 | If A has one element and it matches B's first entity, the source throws at that entity. |
| IterateDiff.ReturnNewIgnored | CollectionDiffAndIntersectUtil.java:145-166 | For A = [(2,"new"), (9,"z")] and B = [(2,"old")], the pass completes, and intersect holds B's (2,"old") where A's (2,"new") was asked for. |

## Left out

- Reflection (`Class.forName`, `getMethod`, `invoke`) and the `Map` lookup are replaced by the `extract` parameter. `extract` returns `Failed` for any call that throws. The `keyType` argument has no effect on the result and is dropped.
- The `logger.debug` call in the catch block (line 75) is left out, because logging has no effect on the results.
- Java's `hashCode`/`equals` on keys is modelled as Dafny value equality on `KVal`, and `equals` in `remove(Object)` as Dafny equality on elements. A key class whose `equals` is not structural is outside the model. In particular, `remove(k)` at line 219 removes the first element that `equals` k. In Java that element can come before the position the comparator matched, when `compare` separates elements that `equals` treats as the same. IterateDiff.RemoveFrom (through JavaList.RemoveFirstAt) takes these two positions to be the same, because Dafny equality never identifies elements that differ.
- Exceptions thrown by a key's `hashCode` or `equals` inside `map.get`/`map.put` (lines 67-72) are left out. The catch at line 74 catches them too. With `flattenList`, such an exception can come after the record was already filed under some of its keys. The model files a record under all of its kept keys or under none of them, so it does not capture that partial filing.
- The unchecked casts `(K)` at lines 58 and 61 are left out. Keys stay `KVal` values, and no `ClassCastException` can arise.
- The `DiffAndIntersect` setters are left out, because the result is an immutable value.
- HashDiff.HashDiffAndIntersect: states its outputs as multisets and per-key subsequences, not as exact sequences, because the concatenation order of the keys is whatever the `HashSet` yields.
- getGroupKeyMapping iterates any `Collection`. It is modelled on a sequence in iteration order, with `None` for a null collection.
- In comparator mode, collectionA is an `ArrayList` (its fail-fast iterator and `remove(Object)` are modelled). Other `List` implementations are left out: they may fail at other points or refuse `remove` with `UnsupportedOperationException`.
- In comparator mode, the model takes non-null lists. A null list makes the source throw `NullPointerException`, which is left out.
- IterateDiff.IterateDiffAndIntersect: models collectionB as an unmodified sequence. Passing the same list object as both A and B (aliasing) is left out.
- A comparator that throws, or that reads mutable state, is left out: `compare` is a total pure function.
- Multithreaded use is left out.
- Recursive flattening is not done by the source and not modelled. With `flattenList`, only the top-level list is split, and a list inside it stays one key.

## Findings

| source | as written | input that shows it | evidently intended | confidence | as-written member | corrected member |
|---|---|---|---|---|---|---|
| CollectionDiffAndIntersectUtil.java:215-220 | `removeFrom` calls `remove(k)` on the list its for-each loop is iterating, and keeps iterating. The next `hasNext`/`next` then throws `ConcurrentModificationException` unless the removed element was second-to-last. | A = [(1,"a"), (2,"b")], B = [(2,"b"), (3,"c")] with a comparator on the id: (2,"b") matches A's last element, and the loop throws instead of returning. | Remove the first matching element and stop. | high; not executed | IterateDiff.LastPositionMatchThrows | IterateDiff.RemoveFirstMatch |
| CollectionDiffAndIntersectUtil.java:145-166 | `returnNew` is never read, and line 154 always adds B's entity to intersect. | A = [(2,"new"), (9,"z")], B = [(2,"old")], `returnNew` = true: intersect is [(2,"old")]. | With `returnNew`, intersect holds A's matched element, as the parameter's documentation says. | high; not executed | IterateDiff.ReturnNewIgnored | IterateDiff.DiffAndIntersectByComparator |
