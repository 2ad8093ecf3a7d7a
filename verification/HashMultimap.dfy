/**
 The builder/factory layer of javaslang's `HashMultimap`: a `Builder`
 captures a container kind and an empty-container supplier, and every way of
 building a multimap from it (`empty`, `ofEntries`, the fixed-arity `of`,
 `tabulate`, `fill`, the stream collector) is a left-to-right fold of `put`
 starting from `empty()`.

 `put` itself belongs to `AbstractMultimap`, which is not part of this model;
 here it is given concretely: look the key up (absent: ask the supplier for an
 empty container), add the value to the container, store it back.
 */
module HashMultimap {
  import opened JavaErrors
  import opened Containers
  import Folds

  /** A javaslang `Tuple2` key/value pair. */
  type Pair<K, V> = (K, V)

  /** A `java.util.Map.Entry`. */
  datatype MapEntry<K, V> = MapEntry(key: K, value: V)

  /** `HashMultimap.Builder`: the container kind and the empty-container supplier. */
  datatype Builder = Builder(containerType: ContainerType, emptyContainer: EmptySupplier)

  /** A `HashMultimap`: the backing key-to-container map, plus the configuration
      it was built with. */
  datatype Multimap<K, V> = Multimap(back: map<K, Container<V>>, containerType: ContainerType, emptyContainer: EmptySupplier)

  /** The supplier produces containers of the builder's kind. */
  predicate ValidBuilder(b: Builder)
  {
    Matches(b.containerType, b.emptyContainer)
  }

  /** `m` carries the configuration of builder `b`. */
  predicate Configured<K, V>(m: Multimap<K, V>, b: Builder)
  {
    m.containerType == b.containerType && m.emptyContainer == b.emptyContainer
  }

  /** Two instances, possibly of different key and value types, share a configuration. */
  predicate SameConfiguration<K, V, K2, V2>(m: Multimap<K, V>, n: Multimap<K2, V2>)
  {
    m.containerType == n.containerType && m.emptyContainer == n.emptyContainer
  }

  /** The multimap invariant: a consistent configuration, and every key maps to
      a non-empty container of the configured family. */
  predicate Valid<K, V>(m: Multimap<K, V>)
  {
    && Matches(m.containerType, m.emptyContainer)
    && forall k :: k in m.back ==> Elements(m.back[k]) != {} && SuppliedBy(m.back[k], m.emptyContainer)
  }

  /** The values stored under `key` (none when the key is absent). */
  function ValuesOf<K, V>(m: Multimap<K, V>, key: K): set<V>
  {
    if key in m.back then Elements(m.back[key]) else {}
  }

  // -- the four builder factories

  function WithSeq(): (b: Builder)
    ensures ValidBuilder(b) && b.containerType == SEQ
  {
    Builder(SEQ, ListEmpty)
  }

  function WithSet(): (b: Builder)
    ensures ValidBuilder(b) && b.containerType == SET
  {
    Builder(SET, HashSetEmpty)
  }

  function WithSortedSet(): (b: Builder)
    ensures ValidBuilder(b) && b.containerType == SORTED_SET
    ensures b.emptyContainer.ordering == NaturalOrder
  {
    Builder(SORTED_SET, TreeSetEmpty(NaturalOrder))
  }

  function WithSortedSetBy(comparator: ComparatorId): (b: Builder)
    ensures ValidBuilder(b) && b.containerType == SORTED_SET
    ensures b.emptyContainer.ordering == ByComparator(comparator)
  {
    Builder(SORTED_SET, TreeSetEmpty(ByComparator(comparator)))
  }

  // -- instances

  /** `Builder.empty()`: no keys, the builder's configuration. */
  function Empty<K, V>(b: Builder): (m: Multimap<K, V>)
    ensures m.back == map[]
    ensures Configured(m, b)
    ensures ValidBuilder(b) ==> Valid(m)
  {
    Multimap(map[], b.containerType, b.emptyContainer)
  }

  /** `emptyInstance()`: an empty multimap with the configuration of `m`. */
  function EmptyInstance<K, V, K2, V2>(m: Multimap<K, V>): (r: Multimap<K2, V2>)
    ensures r.back == map[]
    ensures SameConfiguration(r, m)
    ensures Valid(m) ==> Valid(r)
  {
    Multimap(map[], m.containerType, m.emptyContainer)
  }

  /** `createFromMap(back)`: a multimap over `back` with the configuration of `m`. */
  function CreateFromMap<K, V, K2, V2>(m: Multimap<K, V>, back: map<K2, Container<V2>>): (r: Multimap<K2, V2>)
    ensures r.back == back
    ensures SameConfiguration(r, m)
  {
    Multimap(back, m.containerType, m.emptyContainer)
  }

  /** `narrow(m)`: the very same instance, seen at a wider type. */
  function Narrow<K, V>(m: Multimap<K, V>): (r: Multimap<K, V>)
    ensures r.back == m.back && SameConfiguration(r, m)
  {
    m
  }

  /** `put(key, value)` (a modelling choice, see the module comment). */
  function Put<K, V>(m: Multimap<K, V>, key: K, value: V): (r: Multimap<K, V>)
    ensures SameConfiguration(r, m)
    ensures r.back.Keys == m.back.Keys + {key}
    ensures forall k :: k in m.back && k != key ==> r.back[k] == m.back[k]
    ensures ValuesOf(r, key) == ValuesOf(m, key) + {value}
    ensures Valid(m) ==> Valid(r)
    ensures Valid(m) && m.containerType == SEQ ==>
              r.back[key].ListOf? && r.back[key].items == (if key in m.back then m.back[key].items else []) + [value]
  {
    var current := if key in m.back then m.back[key] else Supply(m.emptyContainer);
    CreateFromMap(m, m.back[key := Add(current, value)])
  }

  /** `put` applied to `m` for each pair, in order. */
  function PutAll<K, V>(m: Multimap<K, V>, pairs: seq<Pair<K, V>>): Multimap<K, V>
  {
    Folds.FoldPuts(Put, m, pairs)
  }

  /** What `ofEntries` builds from a non-null list of entries. */
  function Build<K, V>(b: Builder, pairs: seq<Pair<K, V>>): Multimap<K, V>
  {
    PutAll(Empty(b), pairs)
  }

  // -- construction paths

  /** Both `ofEntries` overloads over `Tuple2` entries (an `Iterable` or varargs):
      a null argument throws before anything is built. */
  function OfEntries<K, V>(b: Builder, entries: Nullable<seq<Pair<K, V>>>): (r: Result<Multimap<K, V>>)
    ensures entries.Null? <==> r == Throws(NullPointerException)
    ensures entries.NonNull? ==> r == Ok(Build(b, entries.value))
  {
    match entries
    case Null => Throws(NullPointerException)
    case NonNull(pairs) => Ok(Build(b, pairs))
  }

  /** The loop of `ofEntries`, as javaslang writes it. */
  method OfEntriesLoop<K, V>(b: Builder, entries: Nullable<seq<Pair<K, V>>>) returns (r: Result<Multimap<K, V>>)
    ensures r == OfEntries(b, entries)
  {
    if entries.Null? {
      return Throws(NullPointerException);
    }
    var pairs := entries.value;
    var result: Multimap<K, V> := Empty(b);
    var i := 0;
    while i < |pairs|
      invariant 0 <= i <= |pairs|
      invariant result == PutAll(Empty(b), pairs[..i])
    {
      assert pairs[..i + 1][..i] == pairs[..i];
      result := Put(result, pairs[i].0, pairs[i].1);
      i := i + 1;
    }
    assert pairs[..i] == pairs;
    return Ok(result);
  }

  function AsPair<K, V>(e: MapEntry<K, V>): Pair<K, V>
  {
    (e.key, e.value)
  }

  /** The `ofEntries` overload over `java.util.Map.Entry` varargs: the same as the
      `Tuple2` overload on the same keys and values in the same order. */
  function OfMapEntries<K, V>(b: Builder, entries: Nullable<seq<MapEntry<K, V>>>): (r: Result<Multimap<K, V>>)
    ensures entries.Null? ==> r == Throws(NullPointerException)
    ensures entries.NonNull? ==> r == OfEntries(b, NonNull(seq(|entries.value|, i requires 0 <= i < |entries.value| => AsPair(entries.value[i]))))
  {
    match entries
    case Null => Throws(NullPointerException)
    case NonNull(es) =>
      var pairs := seq(|es|, i requires 0 <= i < |es| => AsPair(es[i]));
      Ok(Build(b, pairs))
  }

  /** The fixed-arity `of(k1, v1, ..., kn, vn)` for 1 to 10 pairs: `of(k1, v1)` is
      `empty().put(k1, v1)` and each longer one is the one before followed by a
      `put`. Every one of them is `ofEntries` of its pairs in argument order. */
  function Of<K, V>(b: Builder, pairs: seq<Pair<K, V>>): (r: Multimap<K, V>)
    requires 1 <= |pairs| <= 10
    ensures OfEntries(b, NonNull(pairs)) == Ok(r)
    decreases |pairs|
  {
    var last := pairs[|pairs| - 1];
    assert pairs[..|pairs| - 1] + [last] == pairs;
    BuildSnoc(b, pairs[..|pairs| - 1], last.0, last.1);
    if |pairs| == 1 then
      Put(Empty(b), last.0, last.1)
    else
      Put(Of(b, pairs[..|pairs| - 1]), last.0, last.1)
  }

  /** `of(Tuple2 entry)`: `empty().put(entry._1, entry._2)`, the one-pair `of`. */
  function OfEntry<K, V>(b: Builder, entry: Pair<K, V>): (r: Multimap<K, V>)
    ensures r == Of(b, [entry])
    ensures OfEntries(b, NonNull([entry])) == Ok(r)
  {
    Put(Empty(b), entry.0, entry.1)
  }

  /** The pairs `Collections.tabulate(n, f)` yields: `f(0), ..., f(n - 1)`, none when n <= 0. */
  function TabulatePairs<K, V>(n: int, f: int -> Pair<K, V>): (pairs: seq<Pair<K, V>>)
    ensures |pairs| == if n <= 0 then 0 else n
    ensures forall i :: 0 <= i < |pairs| ==> pairs[i] == f(i)
  {
    if n <= 0 then [] else seq(n, i => f(i))
  }

  /** `tabulate(n, f)`: a null `f` throws; otherwise `ofEntries` of the tabulated pairs. */
  function Tabulate<K, V>(b: Builder, n: int, f: Nullable<int -> Pair<K, V>>): (r: Result<Multimap<K, V>>)
    ensures f.Null? ==> r == Throws(NullPointerException)
    ensures f.NonNull? ==> r == OfEntries(b, NonNull(TabulatePairs(n, f.value)))
  {
    match f
    case Null => Throws(NullPointerException)
    case NonNull(g) => Ok(Build(b, TabulatePairs(n, g)))
  }

  /** The pairs `Collections.fill(n, s)` yields: n results of the supplier, none when n <= 0. */
  function FillPairs<K, V>(n: int, s: () -> Pair<K, V>): (pairs: seq<Pair<K, V>>)
    ensures |pairs| == if n <= 0 then 0 else n
    ensures forall i :: 0 <= i < |pairs| ==> pairs[i] == s()
  {
    if n <= 0 then [] else seq(n, _ => s())
  }

  /** `fill(n, s)`: a null `s` throws; otherwise `ofEntries` of the supplied pairs. */
  function Fill<K, V>(b: Builder, n: int, s: Nullable<() -> Pair<K, V>>): (r: Result<Multimap<K, V>>)
    ensures s.Null? ==> r == Throws(NullPointerException)
    ensures s.NonNull? ==> r == OfEntries(b, NonNull(FillPairs(n, s.value)))
  {
    match s
    case Null => Throws(NullPointerException)
    case NonNull(g) => Ok(Build(b, FillPairs(n, g)))
  }

  // -- the stream collector

  /** How a (possibly parallel) stream reduction splits its input: single
      partitions, and combinations of a left and a right part. */
  datatype Partitioned<K, V> =
    | Partition(elements: seq<Pair<K, V>>)
    | Combined(left: Partitioned<K, V>, right: Partitioned<K, V>)

  /** The stream's encounter order: the partitions read left to right. */
  function EncounterOrder<K, V>(t: Partitioned<K, V>): seq<Pair<K, V>>
  {
    match t
    case Partition(elements) => elements
    case Combined(left, right) => EncounterOrder(left) + EncounterOrder(right)
  }

  /** The collector's accumulator, `ArrayList::add`. */
  function Accumulate<K, V>(acc: seq<Pair<K, V>>, element: Pair<K, V>): (r: seq<Pair<K, V>>)
    ensures |r| == |acc| + 1 && r[..|acc|] == acc && r[|acc|] == element
  {
    acc + [element]
  }

  /** The collector's combiner: `left.addAll(right)`, then `left`. */
  function Combine<K, V>(left: seq<Pair<K, V>>, right: seq<Pair<K, V>>): (r: seq<Pair<K, V>>)
    ensures |r| == |left| + |right| && r[..|left|] == left && r[|left|..] == right
  {
    left + right
  }

  /** One partition accumulated into a new `ArrayList` (the supplier's empty list):
      the list holds the partition's elements in order. */
  function AccumulatePartition<K, V>(elements: seq<Pair<K, V>>): (acc: seq<Pair<K, V>>)
    ensures acc == elements
    decreases |elements|
  {
    if elements == [] then []
    else
      assert elements[..|elements| - 1] + [elements[|elements| - 1]] == elements;
      Accumulate(AccumulatePartition(elements[..|elements| - 1]), elements[|elements| - 1])
  }

  /** The intermediate list the reduction produces: the whole input in encounter order. */
  function Reduce<K, V>(t: Partitioned<K, V>): (acc: seq<Pair<K, V>>)
    ensures acc == EncounterOrder(t)
  {
    match t
    case Partition(elements) => AccumulatePartition(elements)
    case Combined(left, right) => Combine(Reduce(left), Reduce(right))
  }

  /** `collector()`: the finisher runs `ofEntries` on the reduced list, so the
      result is `ofEntries` of the whole input, however it was partitioned. */
  function Collect<K, V>(b: Builder, t: Partitioned<K, V>): (r: Multimap<K, V>)
    ensures OfEntries(b, NonNull(EncounterOrder(t))) == Ok(r)
  {
    OfEntries(b, NonNull(Reduce(t))).value
  }

  // -- lemmas

  /** ofEntries over one more pair is one more `put`. */
  lemma BuildSnoc<K, V>(b: Builder, pairs: seq<Pair<K, V>>, key: K, value: V)
    ensures Build(b, pairs + [(key, value)]) == Put(Build(b, pairs), key, value)
  {
    Folds.FoldPutsSnoc(Put, Empty<K, V>(b), pairs, key, value);
  }

  /** ofEntries over a left part and a right part is the left result with the
      right part put into it; this holds for any `put`. */
  lemma BuildConcat<K, V>(b: Builder, left: seq<Pair<K, V>>, right: seq<Pair<K, V>>)
    ensures Build(b, left + right) == PutAll(Build(b, left), right)
  {
    Folds.FoldPutsConcat(Put, Empty(b), left, right);
  }

  /** Every instance a builder produces carries the builder's configuration. */
  lemma BuildConfigured<K, V>(b: Builder, pairs: seq<Pair<K, V>>)
    ensures Configured(Build(b, pairs), b)
  {
    var inv := (m: Multimap<K, V>) => Configured(m, b);
    Folds.FoldPutsPreserves(Put, inv, Empty(b), pairs);
  }

  /** The values of `key` among `pairs`, in order. */
  function ValuesFor<K(==), V>(pairs: seq<Pair<K, V>>, key: K): seq<V>
    decreases |pairs|
  {
    if pairs == [] then []
    else
      var last := pairs[|pairs| - 1];
      ValuesFor(pairs[..|pairs| - 1], key) + (if last.0 == key then [last.1] else [])
  }

  lemma ValuesForSnoc<K, V>(pairs: seq<Pair<K, V>>, p: Pair<K, V>, key: K)
    ensures ValuesFor(pairs + [p], key) == ValuesFor(pairs, key) + (if p.0 == key then [p.1] else [])
  {
    assert (pairs + [p])[..|pairs|] == pairs;
  }

  /** The content of `ofEntries`: a key is present iff some entry has it; its
      values are exactly those of its entries; for a SEQ builder they are in
      entry order, duplicates kept; and no key maps to an empty container. */
  lemma {:induction false} BuildContents<K, V>(b: Builder, pairs: seq<Pair<K, V>>, key: K)
    requires ValidBuilder(b)
    ensures Valid(Build(b, pairs))
    ensures key in Build(b, pairs).back <==> ValuesFor(pairs, key) != []
    ensures ValuesOf(Build(b, pairs), key) == SetOf(ValuesFor(pairs, key))
    ensures b.containerType == SEQ && key in Build(b, pairs).back ==>
              Build(b, pairs).back[key] == ListOf(ValuesFor(pairs, key))
    decreases |pairs|
  {
    if pairs != [] {
      var init := pairs[..|pairs| - 1];
      var last := pairs[|pairs| - 1];
      BuildContents(b, init, key);
      BuildConfigured(b, init);
      var m := Build(b, init);
      assert Build(b, pairs) == Put(m, last.0, last.1);
      if last.0 == key {
        assert SetOf(ValuesFor(init, key) + [last.1]) == SetOf(ValuesFor(init, key)) + {last.1};
      } else {
        assert ValuesFor(pairs, key) == ValuesFor(init, key);
      }
    }
  }

  /** A later pair with an existing key goes through `put` and keeps the key's
      earlier values: ofEntries never resets a key. */
  lemma LaterPairsAccumulate<K, V>(b: Builder, pairs: seq<Pair<K, V>>, key: K, value: V)
    ensures ValuesOf(Build(b, pairs + [(key, value)]), key) == ValuesOf(Build(b, pairs), key) + {value}
  {
    Folds.FoldPutsSnoc(Put, Empty<K, V>(b), pairs, key, value);
  }

  /** A collector result is the left partition's ofEntries with the right
      partition put into it. */
  lemma CollectCombined<K, V>(b: Builder, left: Partitioned<K, V>, right: Partitioned<K, V>)
    ensures Collect(b, Combined(left, right)) == PutAll(Build(b, EncounterOrder(left)), EncounterOrder(right))
  {
    BuildConcat(b, EncounterOrder(left), EncounterOrder(right));
  }

  /** For SET and SORTED_SET builders, putting the same pair twice is putting it
      once; the key's container does not change the second time. */
  lemma PutTwice<K, V>(m: Multimap<K, V>, key: K, value: V)
    requires Valid(m) && m.containerType != SEQ
    ensures Put(Put(m, key, value), key, value) == Put(m, key, value)
  {
    var once := Put(m, key, value);
    assert !once.back[key].ListOf?;
    assert value in Elements(once.back[key]);
    assert once.back[key := Add(once.back[key], value)] == once.back;
  }

  /** Combining partitions out of order changes a SEQ multimap with duplicate
      keys: order preservation of the combiner is needed. */
  lemma CombineOrderMatters()
    ensures Build(WithSeq(), Combine([(0, 1)], [(0, 2)])) != Build(WithSeq(), Combine([(0, 2)], [(0, 1)]))
  {
    assert Combine([(0, 1)], [(0, 2)]) == [(0, 1), (0, 2)];
    assert Combine([(0, 2)], [(0, 1)]) == [(0, 2), (0, 1)];
    SeqKeepsTwoInOrder(0, 1, 2);
    SeqKeepsTwoInOrder(0, 2, 1);
  }

  /** A SEQ builder given two entries with the same key keeps both values in entry order. */
  lemma SeqKeepsTwoInOrder<K, V>(key: K, first: V, second: V)
    ensures Build(WithSeq(), [(key, first), (key, second)]).back[key] == ListOf([first, second])
  {
    TwoValues([(key, first), (key, second)], key);
    BuildContents(WithSeq(), [(key, first), (key, second)], key);
  }

  /** The derivations an instance can go through: `put`, `emptyInstance`,
      `createFromMap` and `narrow`. */
  datatype Derivation<K, V> =
    | PutEntry(key: K, value: V)
    | ToEmptyInstance
    | FromMap(back: map<K, Container<V>>)
    | Narrowed

  /** The instance after applying `steps` in order. */
  function Derive<K, V>(m: Multimap<K, V>, steps: seq<Derivation<K, V>>): (r: Multimap<K, V>)
    ensures SameConfiguration(r, m)
    decreases |steps|
  {
    if steps == [] then m
    else
      var next := match steps[0]
        case PutEntry(k, v) => Put(m, k, v)
        case ToEmptyInstance => EmptyInstance(m)
        case FromMap(back) => CreateFromMap(m, back)
        case Narrowed => Narrow(m);
      Derive(next, steps[1..])
  }

  /** The kind chosen by `withSeq`/`withSet`/`withSortedSet` never changes, whatever
      is built and derived from the builder. */
  lemma ConfigurationIsPermanent<K, V>(b: Builder, pairs: seq<Pair<K, V>>, steps: seq<Derivation<K, V>>)
    ensures Configured(Derive(Build(b, pairs), steps), b)
  {
    BuildConfigured(b, pairs);
  }

  lemma PairsOfThree<T>(s: seq<T>)
    requires |s| == 3
    ensures s == [] + [s[0]] + [s[1]] + [s[2]]
    ensures [s[0]] == [] + [s[0]] && [s[0], s[1]] == [s[0]] + [s[1]] && s == [s[0], s[1]] + [s[2]]
  {
  }

  /** Sequence scenario: (a,1), (a,2), (b,3) gives a -> [1, 2], b -> [3] and no other key. */
  lemma SeqScenario(other: char)
    requires other != 'a' && other != 'b'
    ensures Build(WithSeq(), [('a', 1), ('a', 2), ('b', 3)]).back['a'] == ListOf([1, 2])
    ensures Build(WithSeq(), [('a', 1), ('a', 2), ('b', 3)]).back['b'] == ListOf([3])
    ensures other !in Build(WithSeq(), [('a', 1), ('a', 2), ('b', 3)]).back
  {
    var pairs := [('a', 1), ('a', 2), ('b', 3)];
    var m := Build(WithSeq(), pairs);
    assert m.back['a'] == ListOf([1, 2]) by {
      ThreeValues(pairs, 'a');
      BuildContents(WithSeq(), pairs, 'a');
    }
    assert m.back['b'] == ListOf([3]) by {
      ThreeValues(pairs, 'b');
      BuildContents(WithSeq(), pairs, 'b');
    }
    assert other !in m.back by {
      ThreeValues(pairs, other);
      BuildContents(WithSeq(), pairs, other);
    }
  }

  lemma TwoValues<K, V>(pairs: seq<Pair<K, V>>, key: K)
    requires |pairs| == 2
    ensures ValuesFor(pairs, key) ==
              (if pairs[0].0 == key then [pairs[0].1] else []) +
              (if pairs[1].0 == key then [pairs[1].1] else [])
  {
    assert pairs == [pairs[0]] + [pairs[1]];
    ValuesForSnoc([], pairs[0], key);
    ValuesForSnoc([pairs[0]], pairs[1], key);
  }

  lemma ThreeValues<K, V>(pairs: seq<Pair<K, V>>, key: K)
    requires |pairs| == 3
    ensures ValuesFor(pairs, key) ==
              (if pairs[0].0 == key then [pairs[0].1] else []) +
              (if pairs[1].0 == key then [pairs[1].1] else []) +
              (if pairs[2].0 == key then [pairs[2].1] else [])
  {
    PairsOfThree(pairs);
    ValuesForSnoc([], pairs[0], key);
    ValuesForSnoc([pairs[0]], pairs[1], key);
    ValuesForSnoc([pairs[0], pairs[1]], pairs[2], key);
  }

  /** Set scenario: (a,1), (a,1), (a,2) gives a -> {1, 2}. */
  lemma SetScenario()
    ensures ValuesOf(Build(WithSet(), [('a', 1), ('a', 1), ('a', 2)]), 'a') == {1, 2}
  {
    var pairs := [('a', 1), ('a', 1), ('a', 2)];
    BuildContents(WithSet(), pairs, 'a');
    ThreeValues(pairs, 'a');
    assert ValuesFor(pairs, 'a') == [1, 1, 2];
  }
}
