# javaslang HashMultimap builders and java.util.List views, in Dafny

This project models two sequential pieces of javaslang's collection library.

- **The `HashMultimap` builder layer.** `HashMultimap.withSeq()`, `withSet()` and
  `withSortedSet(...)` give a `Builder`. It fixes a container kind (`SEQ`, `SET`,
  `SORTED_SET`) and an empty-container supplier (`List::empty`, `HashSet::empty`,
  `TreeSet.empty`). Every way of building an instance is a left-to-right fold of
  `put` over an ordered list of pairs, starting from `empty()`. That covers
  `ofEntries` (all three overloads), the 1-to-10-pair `of`, `of(Tuple2)`,
  `tabulate`, `fill`, and the stream collector. The collector concatenates its
  partial lists and then calls `ofEntries`. Instances derived through
  `emptyInstance`, `createFromMap` and `narrow` keep the builder's configuration.
- **The `java.util.List` view over a persistent sequence** (`JavaConverters`). A
  `HasDelegate` holds one reference to the current persistent sequence and a
  mutability flag fixed by the `ChangePolicy`. Each `List` mutator computes a new
  sequence and swaps it in. On an immutable view it throws
  UnsupportedOperationException instead. The sequence operation runs first, so a
  bad index throws IndexOutOfBoundsException even on an immutable view. The list
  iterator is a second `HasDelegate` over its own snapshot, plus a cursor.

Files:

- `JavaErrors.dfy`: the Java exceptions; `Result` (a value or a thrown
  exception); `Nullable` (a reference that may be null).
- `Folds.dfy`: the fold of an arbitrary `put` over pairs, and the facts about it
  that hold for any `put`.
- `Containers.dfy`: container kinds, suppliers, and stand-ins for javaslang's
  `List`, `HashSet` and `TreeSet`.
- `HashMultimap.dfy`: builders, instances, construction paths, and their lemmas.
- `JavaConverters.dfy`: `ChangePolicy`, `HasDelegate`, the `ListView` operations
  and the `ListIterator` cursor, written as pure transitions. Each transition maps
  (state before) to (state after, returned value or thrown exception).
- `ListViewObjects.dfy`: a class holding the mutable reference. Each of its
  methods applies one transition; `listIterator` and `toArray(array)` apply the
  corrected ones from "## Findings".

`put` is defined in `AbstractMultimap`, and `AbstractMultimap` is not part of this
model. Here `put` is a concrete modelling choice:

1. Look the key up. If it is absent, ask the supplier for an empty container.
2. Add the value: a `SEQ` container appends it; a `SET` or `SORTED_SET` container
   inserts it into a set.
3. Store the container back through `createFromMap`.

The fold lemmas in `Folds` are proved for any `put`.

On two points the code differs from what a reader might expect. The model follows the code:

- List-view iterators do not fail fast when the view is modified. There is no
  such check: each iterator works on its own snapshot.
- The fixed-arity constructors cover 1 to 10 pairs, not only 2 to 10. There are
  also the one-pair `of(k, v)` and `of(Tuple2)`.

## Model

| member | source | states |
|---|---|---|
| `Containers.Supply` | javaslang/src/main/java/javaslang/collection/HashMultimap.java:32-46 | the supplier yields an empty container of its own family (list, hash set, or tree set with the same ordering) |
| `Containers.Add` | javaslang/src/main/java/javaslang/collection/HashMultimap.java:32-46 | modelling choice for the unseen containers: adding keeps the container's family; the values grow by exactly the new one; a list appends at the end; a set already holding the value is unchanged |
| `Containers.AddTwice` | javaslang/src/test/java/javaslang/collection/TreeSetTest.java:26-28 | adding the same value twice: set containers keep one copy (distinct elements), list containers keep both |
| `Folds.FoldPutsConcat` | javaslang/src/main/java/javaslang/collection/HashMultimap.java:62-69 | for any `put`, folding over `left + right` equals folding over `right` from the result for `left` |
| `Folds.FoldPutsPreserves` | javaslang/src/main/java/javaslang/collection/HashMultimap.java:64-67 | a property that every `put` keeps holds after the whole fold |
| `HashMultimap.WithSeq` | javaslang/src/main/java/javaslang/collection/HashMultimap.java:32-34 | the builder has kind SEQ and a supplier matching that kind |
| `HashMultimap.WithSet` | javaslang/src/main/java/javaslang/collection/HashMultimap.java:36-38 | the builder has kind SET and a supplier matching that kind |
| `HashMultimap.WithSortedSet` | javaslang/src/main/java/javaslang/collection/HashMultimap.java:40-42 | the builder has kind SORTED_SET with a natural-order TreeSet supplier |
| `HashMultimap.WithSortedSetBy` | javaslang/src/main/java/javaslang/collection/HashMultimap.java:44-46 | the builder has kind SORTED_SET with a TreeSet supplier bound to the given comparator |
| `HashMultimap.Empty` | javaslang/src/main/java/javaslang/collection/HashMultimap.java:58-60 | `empty()` has no keys, carries the builder's kind and supplier, and satisfies the multimap invariant |
| `HashMultimap.EmptyInstance` | javaslang/src/main/java/javaslang/collection/HashMultimap.java:366-368 | `emptyInstance()` has no keys and keeps the kind and supplier of the instance it is derived from |
| `HashMultimap.CreateFromMap` | javaslang/src/main/java/javaslang/collection/HashMultimap.java:370-373 | `createFromMap(back)` holds exactly `back` and keeps the kind and supplier |
| `HashMultimap.Narrow` | javaslang/src/main/java/javaslang/collection/HashMultimap.java:351-353 | `narrow` gives back the same content, kind and supplier |
| `HashMultimap.Put` | javaslang/src/main/java/javaslang/collection/HashMultimap.java:28 | modelling choice for the inherited `put`: configuration kept; the key is added and other keys are untouched; the key's values gain exactly the new value; the invariant (no empty container, all of the configured family) is preserved; under SEQ the value is appended |
| `HashMultimap.OfEntries` | javaslang/src/main/java/javaslang/collection/HashMultimap.java:62-79 | the two `Tuple2` overloads: a null argument throws NullPointerException and nothing else does; otherwise the result is the fold of `put` over the entries from `empty()` |
| `HashMultimap.OfEntriesLoop` | javaslang/src/main/java/javaslang/collection/HashMultimap.java:62-69 | the imperative loop of `ofEntries` computes the same result as the fold |
| `HashMultimap.OfMapEntries` | javaslang/src/main/java/javaslang/collection/HashMultimap.java:81-89 | the `Map.Entry` overload throws on null, and otherwise equals the `Tuple2` overload on the same keys and values in the same order |
| `HashMultimap.Of` | javaslang/src/main/java/javaslang/collection/HashMultimap.java:112-322 | each fixed-arity `of` (1 to 10 pairs, defined as the shorter `of` followed by `put`) equals `ofEntries` of its pairs in argument order |
| `HashMultimap.OfEntry` | javaslang/src/main/java/javaslang/collection/HashMultimap.java:324-327 | `of(entry)` is the one-pair `of` and equals `ofEntries` of that single entry |
| `HashMultimap.TabulatePairs` | javaslang/src/main/java/javaslang/collection/HashMultimap.java:91-95 | the tabulated pairs are `f(0) .. f(n-1)`, none when n <= 0 |
| `HashMultimap.Tabulate` | javaslang/src/main/java/javaslang/collection/HashMultimap.java:91-95 | a null `f` throws NullPointerException; otherwise `tabulate` is `ofEntries` of the tabulated pairs |
| `HashMultimap.FillPairs` | javaslang/src/main/java/javaslang/collection/HashMultimap.java:97-101 | `n` supplied pairs, none when n <= 0 |
| `HashMultimap.Fill` | javaslang/src/main/java/javaslang/collection/HashMultimap.java:97-101 | a null supplier throws NullPointerException; otherwise `fill` is `ofEntries` of the supplied pairs |
| `HashMultimap.Accumulate` | javaslang/src/main/java/javaslang/collection/HashMultimap.java:331 | the accumulator `ArrayList::add` appends the entry after the entries already accumulated |
| `HashMultimap.Combine` | javaslang/src/main/java/javaslang/collection/HashMultimap.java:332-335 | the combiner's result is the left list followed by the right list, with neither changed |
| `HashMultimap.AccumulatePartition` | javaslang/src/main/java/javaslang/collection/HashMultimap.java:330-331 | accumulating a partition into a fresh list with `add` yields the partition's elements in order |
| `HashMultimap.Reduce` | javaslang/src/main/java/javaslang/collection/HashMultimap.java:330-335 | however the input is split and combined (left list then right list), the reduced list is the input in encounter order |
| `HashMultimap.Collect` | javaslang/src/main/java/javaslang/collection/HashMultimap.java:329-337 | the collector's result equals `ofEntries` of the whole input in encounter order, for any order-preserving partitioning |
| `HashMultimap.BuildSnoc` | javaslang/src/main/java/javaslang/collection/HashMultimap.java:65-67 | one more entry is one more `put` on the result so far |
| `HashMultimap.BuildConcat` | javaslang/src/main/java/javaslang/collection/HashMultimap.java:62-69 | `ofEntries(left + right)` is `ofEntries(left)` with the entries of `right` put into it |
| `HashMultimap.BuildConfigured` | javaslang/src/main/java/javaslang/collection/HashMultimap.java:58-69 | every instance built from a builder carries that builder's kind and supplier |
| `HashMultimap.BuildContents` | javaslang/src/main/java/javaslang/collection/HashMultimap.java:62-69 | after `ofEntries`: a key is present iff some entry has it; its values are exactly its entries' values; under SEQ they are in entry order with duplicates kept; no key maps to an empty container |
| `HashMultimap.LaterPairsAccumulate` | javaslang/src/main/java/javaslang/collection/HashMultimap.java:65-67 | a later entry with an existing key adds to that key's values and does not reset them |
| `HashMultimap.CollectCombined` | javaslang/src/main/java/javaslang/collection/HashMultimap.java:332-336 | a combined collector result is the left part's `ofEntries` with the right part's entries put into it |
| `HashMultimap.PutTwice` | javaslang/src/main/java/javaslang/collection/HashMultimap.java:36-46 | with a SET or SORTED_SET configuration, putting the same pair a second time changes nothing |
| `HashMultimap.SeqKeepsTwoInOrder` | javaslang/src/main/java/javaslang/collection/HashMultimap.java:63-68 | a SEQ builder given two entries with one key keeps both values in entry order |
| `HashMultimap.CombineOrderMatters` | javaslang/src/main/java/javaslang/collection/HashMultimap.java:332-336 | swapping left and right in the combiner changes a SEQ result that has a repeated key, so order preservation matters |
| `HashMultimap.Derive` | javaslang/src/main/java/javaslang/collection/HashMultimap.java:351-373 | any chain of `put`, `emptyInstance`, `createFromMap` and `narrow` keeps the kind and supplier |
| `HashMultimap.ConfigurationIsPermanent` | javaslang/src/main/java/javaslang/collection/HashMultimap.java:32-46 | the kind and supplier chosen by `withSeq`, `withSet` or `withSortedSet` survive every build and every later derivation |
| `HashMultimap.SeqScenario` | javaslang/src/main/java/javaslang/collection/HashMultimap.java:62-69 | SEQ builder, entries (a,1), (a,2), (b,3): a maps to [1, 2], b maps to [3], and no other key is present |
| `HashMultimap.SetScenario` | javaslang/src/main/java/javaslang/collection/HashMultimap.java:62-69 | SET builder, entries (a,1), (a,1), (a,2): a maps to {1, 2} |
| `JavaConverters.IsMutable` | javaslang/src/main/java/javaslang/collection/JavaConverters.java:79-86 | `isMutable()` holds iff the policy is MUTABLE |
| `JavaConverters.AsJava` | javaslang/src/main/java/javaslang/collection/JavaConverters.java:44-50 | `asJava` gives a view over the sequence whose flag is set iff the policy is MUTABLE |
| `JavaConverters.SetDelegate` | javaslang/src/main/java/javaslang/collection/JavaConverters.java:115-123 | mutable: installs the new delegate and returns the previous one; immutable: throws UnsupportedOperationException and changes nothing; the flag never changes |
| `JavaConverters.Add` | javaslang/src/main/java/javaslang/collection/JavaConverters.java:134-137 | `add(e)` appends `e` at the end, keeping every earlier element in place; on an immutable view it throws and the view is unchanged |
| `JavaConverters.Insert` | javaslang/src/main/java/javaslang/collection/JavaConverters.java:139-143 | `add(i, e)`: an index outside 0..size throws IndexOutOfBoundsException whatever the mutability; otherwise `e` sits at `i` with earlier elements in place and later ones shifted up by one |
| `JavaConverters.AddAll` | javaslang/src/main/java/javaslang/collection/JavaConverters.java:145-148 | `addAll(c)` appends the elements of `c` in order |
| `JavaConverters.InsertAll` | javaslang/src/main/java/javaslang/collection/JavaConverters.java:150-154 | `addAll(i, c)`: bad index throws IndexOutOfBoundsException; otherwise `c` is inserted at `i` with the rest shifted by its length |
| `JavaConverters.Clear` | javaslang/src/main/java/javaslang/collection/JavaConverters.java:156-159 | `clear()` leaves the delegate empty; immutable: throws and changes nothing |
| `JavaConverters.RemoveAt` | javaslang/src/main/java/javaslang/collection/JavaConverters.java:215-219 | `remove(i)`: bad index throws IndexOutOfBoundsException; otherwise returns the old element at `i` and the delegate loses exactly that position |
| `JavaConverters.RemoveElement` | javaslang/src/main/java/javaslang/collection/JavaConverters.java:221-226 | `remove(obj)` removes the first occurrence, or nothing; it swaps even then, so an immutable view always throws |
| `JavaConverters.RemoveAll` | javaslang/src/main/java/javaslang/collection/JavaConverters.java:228-233 | `removeAll(c)` leaves no element of `c` and every other element with its multiplicity, in list order (the survivors are `Filter` of the delegate, whose order `FilterOne`/`FilterConcat` pin); an immutable view throws UnsupportedOperationException |
| `JavaConverters.RetainAll` | javaslang/src/main/java/javaslang/collection/JavaConverters.java:235-240 | `retainAll(c)` keeps exactly the elements of `c`, each with its multiplicity, in list order; an immutable view throws UnsupportedOperationException |
| `JavaConverters.FilterOne` | javaslang/src/main/java/javaslang/collection/JavaConverters.java:228-240 | the filter behind `removeAll`/`retainAll` keeps a single element iff the test accepts it |
| `JavaConverters.FilterConcat` | javaslang/src/main/java/javaslang/collection/JavaConverters.java:228-240 | the filter distributes over concatenation, so the survivors keep their relative order |
| `JavaConverters.BulkRemovalKeepsOrder` | javaslang/src/main/java/javaslang/collection/JavaConverters.java:228-240 | on a delegate `s + t`, `removeAll` and `retainAll` leave the survivors of `s` followed by those of `t` |
| `JavaConverters.BulkRemovalOfOne` | javaslang/src/main/java/javaslang/collection/JavaConverters.java:228-240 | on a one-element delegate, `removeAll(c)` keeps the element iff it is not in `c`, and `retainAll(c)` iff it is |
| `JavaConverters.Set` | javaslang/src/main/java/javaslang/collection/JavaConverters.java:242-246 | `set(i, e)`: bad index throws IndexOutOfBoundsException; otherwise returns the old element, the length is unchanged, position `i` holds `e` and every other position is unchanged |
| `JavaConverters.Get` | javaslang/src/main/java/javaslang/collection/JavaConverters.java:175-179 | `get(i)` returns the element at `i`, or throws IndexOutOfBoundsException exactly when `i` is out of range |
| `JavaConverters.Size` | javaslang/src/main/java/javaslang/collection/JavaConverters.java:248-251 | `size()` is the length of the delegate |
| `JavaConverters.IsEmpty` | javaslang/src/main/java/javaslang/collection/JavaConverters.java:188-191 | `isEmpty()` holds iff the size is zero |
| `JavaConverters.Contains` | javaslang/src/main/java/javaslang/collection/JavaConverters.java:161-166 | `contains(obj)` holds iff some position of the delegate holds `obj` |
| `JavaConverters.ContainsAll` | javaslang/src/main/java/javaslang/collection/JavaConverters.java:168-173 | `containsAll(c)` holds iff every element of `c` is contained |
| `JavaConverters.IndexOf` | javaslang/src/main/java/javaslang/collection/JavaConverters.java:181-186 | `indexOf(obj)` is -1 iff absent, otherwise the first position holding `obj` |
| `JavaConverters.LastIndexOf` | javaslang/src/main/java/javaslang/collection/JavaConverters.java:198-203 | `lastIndexOf(obj)` is -1 iff absent, otherwise the last position holding `obj` |
| `JavaConverters.SubList` | javaslang/src/main/java/javaslang/collection/JavaConverters.java:253-257 | `subList(from, to)` throws IndexOutOfBoundsException unless 0 <= from <= to <= size; otherwise a new view, with the same flag, whose j-th element is the parent's (from + j)-th |
| `JavaConverters.ToArray` | javaslang/src/main/java/javaslang/collection/JavaConverters.java:259-262 | `toArray()` holds the elements in order, one slot each |
| `JavaConverters.ToArrayIntoAsWritten` | javaslang/src/main/java/javaslang/collection/JavaConverters.java:264-282 | `toArray(a)` as written: a null array throws NullPointerException; the result has length max(a.length, size); the first `size` slots hold the elements in order; later slots keep the array's old content |
| `JavaConverters.ToArrayInto` | javaslang/src/main/java/javaslang/collection/JavaConverters.java:264-282 | as above, except that the slot right after the last element is null when the array is longer than the list |
| `JavaConverters.ToArrayLeavesStaleSlot` | javaslang/src/main/java/javaslang/collection/JavaConverters.java:277-281 | filling [y, y] from the list [x] gives [x, y] as written, and [x, null] with the correction |
| `JavaConverters.SetDelegateUndo` | javaslang/src/main/java/javaslang/collection/JavaConverters.java:115-123 | installing the delegate that `setDelegate` returned restores the view |
| `JavaConverters.InsertThenRemoveAt` | javaslang/src/main/java/javaslang/collection/JavaConverters.java:139-219 | `add(i, e)` then `remove(i)` restores the view and returns `e` |
| `JavaConverters.RemoveAtThenInsert` | javaslang/src/main/java/javaslang/collection/JavaConverters.java:139-219 | `remove(i)` then `add(i, old element)` restores the view |
| `JavaConverters.SetThenSetBack` | javaslang/src/main/java/javaslang/collection/JavaConverters.java:313-315 | `set(i, e)` then `set(i, returned element)` restores the view and returns `e` |
| `JavaConverters.SubListGet` | javaslang/src/main/java/javaslang/collection/JavaConverters.java:253-257 | reading a sub-list at `j` reads the parent at `from + j`, and throws outside the sub-list's range |
| `JavaConverters.SizeAfterMutators` | javaslang/src/main/java/javaslang/collection/JavaConverters.java:134-251 | on a mutable view `add` and `add(i, e)` grow the size by one, `remove(i)` shrinks it by one, `set` keeps it, and `clear` empties the view |
| `JavaConverters.ImmutableViewRejectsMutators` | javaslang/src/main/java/javaslang/collection/JavaConverters.java:134-246 | on an IMMUTABLE view every mutator throws and leaves the view unchanged |
| `JavaConverters.ListIteratorOf` | javaslang/src/main/java/javaslang/collection/JavaConverters.java:323-331 | `ListIterator.of` snapshots the sequence, keeps the flag, and sets the cursor to the given index without checking it |
| `JavaConverters.ListIteratorAtAsWritten` | javaslang/src/main/java/javaslang/collection/JavaConverters.java:210-213 | `listIterator(index)` as written: an iterator over the view's current delegate, with the view's flag, at any index |
| `JavaConverters.ListIteratorAt` | javaslang/src/main/java/javaslang/collection/JavaConverters.java:210-213 | with the range check: IndexOutOfBoundsException iff the index is outside 0..size; otherwise the same iterator, with its cursor in bounds |
| `JavaConverters.ListIteratorAtStart` | javaslang/src/main/java/javaslang/collection/JavaConverters.java:205-208 | `listIterator()` starts at index 0 over the view's delegate, with the view's flag |
| `JavaConverters.HasNext` | javaslang/src/main/java/javaslang/collection/JavaConverters.java:333-336 | `hasNext` holds iff the cursor is below the snapshot's length |
| `JavaConverters.HasPrevious` | javaslang/src/main/java/javaslang/collection/JavaConverters.java:351-354 | `hasPrevious` holds iff the cursor is above 0 |
| `JavaConverters.NextIndex` | javaslang/src/main/java/javaslang/collection/JavaConverters.java:346-349 | `nextIndex` is the cursor |
| `JavaConverters.PreviousIndex` | javaslang/src/main/java/javaslang/collection/JavaConverters.java:364-367 | `previousIndex` is the cursor minus one |
| `JavaConverters.Next` | javaslang/src/main/java/javaslang/collection/JavaConverters.java:338-344 | past the end `next` throws NoSuchElementException and the cursor stays; otherwise the cursor moves up by one and the element at the old cursor is returned; a negative cursor moves and then throws IndexOutOfBoundsException |
| `JavaConverters.Previous` | javaslang/src/main/java/javaslang/collection/JavaConverters.java:356-362 | at 0 `previous` throws NoSuchElementException and the cursor stays; otherwise the cursor moves down by one and the element there is returned; a cursor past the end moves and then throws IndexOutOfBoundsException |
| `JavaConverters.IteratorRemove` | javaslang/src/main/java/javaslang/collection/JavaConverters.java:369-378 | the iterator's `remove()` removes the element at the cursor from its own snapshot, or throws; the cursor does not move |
| `JavaConverters.IteratorSet` | javaslang/src/main/java/javaslang/collection/JavaConverters.java:380-393 | the iterator's `set(v)` replaces the element at the cursor in its own snapshot, or throws; the cursor does not move |
| `JavaConverters.IteratorAdd` | javaslang/src/main/java/javaslang/collection/JavaConverters.java:395-404 | the iterator's `add(v)` inserts at the cursor in its own snapshot, or throws; the cursor does not move |
| `JavaConverters.CursorStaysInBounds` | javaslang/src/main/java/javaslang/collection/JavaConverters.java:333-404 | from an in-bounds cursor every iterator operation keeps the cursor in bounds, and `next`/`previous` fail only with NoSuchElementException |
| `JavaConverters.UncheckedIteratorIndex` | javaslang/src/main/java/javaslang/collection/JavaConverters.java:210-213 | as written, `listIterator(-1)` on [x] is accepted, and its `next()` moves the cursor to 0 and throws IndexOutOfBoundsException; the checked version refuses index -1 |
| `JavaConverters.IndexesTrackCursor` | javaslang/src/main/java/javaslang/collection/JavaConverters.java:338-367 | after `next`, `previousIndex` is the index of the element just returned; after `previous`, `nextIndex` is |
| `JavaConverters.NextThenPrevious` | javaslang/src/main/java/javaslang/collection/JavaConverters.java:338-362 | `previous` after `next` restores the cursor and returns the same element |
| `JavaConverters.WalkForward` | javaslang/src/main/java/javaslang/collection/JavaConverters.java:333-344 | iterating with `hasNext`/`next` from an in-bounds cursor yields the snapshot from the cursor to the end, and stops at the end |
| `ListViewObjects.ListViewObject.constructor` | javaslang/src/main/java/javaslang/collection/JavaConverters.java:44-50 | `asJava(seq, policy)` creates a view over `seq` whose flag is `policy.isMutable()`, through the `ListView` constructor at lines 130-132 |
| `ListViewObjects.ListViewObject.Add` | javaslang/src/main/java/javaslang/collection/JavaConverters.java:134-137 | the object's reference becomes what the `add(e)` transition installs, and the call returns what it returns |
| `ListViewObjects.ListViewObject.Insert` | javaslang/src/main/java/javaslang/collection/JavaConverters.java:139-143 | the object's reference becomes what the `add(i, e)` transition installs, and the call returns or throws as it does |
| `ListViewObjects.ListViewObject.Clear` | javaslang/src/main/java/javaslang/collection/JavaConverters.java:156-159 | the object's reference becomes what the `clear()` transition installs |
| `ListViewObjects.ListViewObject.RemoveAt` | javaslang/src/main/java/javaslang/collection/JavaConverters.java:215-219 | the object's reference becomes what the `remove(i)` transition installs, and the removed element is returned |
| `ListViewObjects.ListViewObject.Set` | javaslang/src/main/java/javaslang/collection/JavaConverters.java:242-246 | the object's reference becomes what the `set(i, e)` transition installs, and the old element is returned |
| `ListViewObjects.ListViewObject.SubList` | javaslang/src/main/java/javaslang/collection/JavaConverters.java:253-257 | `subList` returns a freshly allocated object over the range, with the same flag, or throws IndexOutOfBoundsException |
| `ListViewObjects.ListViewObject.ListIterator` | javaslang/src/main/java/javaslang/collection/JavaConverters.java:210-213 | the object's `listIterator(index)` is the corrected factory `JavaConverters.ListIteratorAt`: IndexOutOfBoundsException outside 0..size, otherwise a cursor in bounds (javaslang itself has no range check; see "## Findings") |
| `ListViewObjects.ListViewObject.ToArray` | javaslang/src/main/java/javaslang/collection/JavaConverters.java:264-282 | the object's `toArray(array)` is the corrected `JavaConverters.ToArrayInto`, which nulls the slot after the last element (javaslang leaves it stale; see "## Findings") |
| `ListViewObjects.ClearSubList` | javaslang/src/main/java/javaslang/collection/JavaConverters.java:253-257 | clearing (`clear()`, lines 156-159) a sub-list object leaves the parent view's delegate unchanged; it throws IndexOutOfBoundsException for a bad range, UnsupportedOperationException on an immutable parent, and succeeds otherwise |

## Left out

- `AbstractMultimap` (where `put`, `get`, `remove`, `merge`, equality and iteration live) is not part of this model. `put` is the concrete stand-in described above. Its rejection of null keys or values, if any, is not modelled.
- `HashMap`, `List`, `HashSet`, `TreeSet`, `Vector`, `Collections.tabulate` and `Collections.fill` are not part of this model. They are stood in for by Dafny maps, sequences and sets. The index checks of `insert`, `removeAt`, `update`, `get` and `subSequence` follow the exceptions javaslang documents for them.
- TreeSet ordering: a SORTED_SET container is a set that records which comparator it is bound to. Element order, and comparison failures between incompatible values, are not modelled.
- `HashMultimap.Narrow`: Dafny has no subtyping between type instantiations, so `narrow` is stated at one type: same content, kind and supplier.
- `HashMultimap.FillPairs`: the supplier is a pure function, so every supplied pair is the same. A stateful Java supplier could yield different pairs.
- Null elements inside the `entries` argument (the NullPointerException of `entry._1`), and null collections passed to `addAll`, `removeAll`, `retainAll` and `containsAll`, are not modelled.
- The boolean results of `add`, `addAll`, `remove(Object)`, `removeAll` and `retainAll` are reference inequality of persistent collections, so the model leaves them out. Those transitions return `()`.
- `ListView.iterator()` returns the delegate's own javaslang iterator, which is not part of this model. `listIterator()` and `WalkForward` cover traversal.
- `equals`, `hashCode` and `toString` of the view depend on `Collections.areEqual` and the delegate's hashing, which are not part of this model.
- `toArray(U[])`: the reflective allocation of a new array and the aliasing between argument and result are left out. Only the contents of the returned array are modelled, with `null` as `Null`.
- Unchecked casts, ClassCastException paths, serialization, and Java `Collector` plumbing beyond list concatenation are left out.
- `SetView`, `NavigableSetView`, `MapView`, `NavigableMapView` and their `asJava` overloads are unimplemented (`TODO`) in javaslang, so they are not modelled.
- Java `int` indices are modelled as unbounded integers. Sequences longer than 2^31 - 1 elements do not arise in Java.
- The iterator's `remove`, `set` and `add` are modelled as written. They act at the cursor, not at the last returned element, and they do not move the cursor. javaslang marks them `TODO` against the `java.util.ListIterator` contract.
- The methods of `ListViewObjects.ListViewObject` state their effect with `old` and `fresh`. They only apply the transitions above.
- `ListViewObjects.ListViewObject.ListIterator`: applies the corrected, range-checked factory, not javaslang's unchecked one. The as-written behaviour is `JavaConverters.ListIteratorAtAsWritten`.
- `ListViewObjects.ListViewObject.ToArray`: applies the corrected fill, which nulls the slot after the last element, not javaslang's. The as-written behaviour is `JavaConverters.ToArrayIntoAsWritten`.

## Findings

| source | as written | input that shows it | evidently intended | confidence | as-written member | corrected member |
|---|---|---|---|---|---|---|
| javaslang/src/main/java/javaslang/collection/JavaConverters.java:264-282 | when the array is longer than the list, slots after the last element keep their old content | the list [x] into the array [y, y] gives [x, y] | `java.util.List.toArray(T[])` sets the slot right after the last element to null, giving [x, null] | not executed | JavaConverters.ToArrayLeavesStaleSlot | JavaConverters.ToArrayInto |
| javaslang/src/main/java/javaslang/collection/JavaConverters.java:210-213 | `listIterator(index)` accepts any index | `listIterator(-1)` on [x]: `hasNext()` is true, then `next()` moves the cursor to 0 and throws IndexOutOfBoundsException | `java.util.List.listIterator(int)` throws IndexOutOfBoundsException when index < 0 or index > size() | not executed | JavaConverters.UncheckedIteratorIndex | JavaConverters.ListIteratorAt |
