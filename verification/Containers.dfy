/**
 The per-key value containers a multimap can be configured with. The real
 containers (javaslang's List, HashSet and TreeSet) are not part of this
 model; they are stood in for by a sequence and by sets. A TreeSet carries the
 identity of its comparator but its ordering is not modelled.
 */
module Containers {

  /** The container kind a builder captures. */
  datatype ContainerType = SEQ | SET | SORTED_SET

  /** Identity of a user-supplied `Comparator` object. */
  type ComparatorId = nat

  /** The order a TreeSet is bound to: the natural order or a given comparator. */
  datatype Ordering = NaturalOrder | ByComparator(comparator: ComparatorId)

  /** The empty-container supplier a builder captures: `List::empty`,
      `HashSet::empty`, or `TreeSet.empty` for some ordering. */
  datatype EmptySupplier = ListEmpty | HashSetEmpty | TreeSetEmpty(ordering: Ordering)

  /** The values of one key. */
  datatype Container<V> =
    | ListOf(items: seq<V>)
    | HashSetOf(elems: set<V>)
    | TreeSetOf(ordering: Ordering, elems: set<V>)

  function SetOf<V>(s: seq<V>): set<V>
  {
    set x | x in s
  }

  /** The values held, regardless of order and multiplicity. */
  function Elements<V>(c: Container<V>): set<V>
  {
    match c
    case ListOf(items) => SetOf(items)
    case HashSetOf(elems) => elems
    case TreeSetOf(_, elems) => elems
  }

  /** The container kind that goes with each supplier. */
  predicate Matches(kind: ContainerType, supplier: EmptySupplier)
  {
    match supplier
    case ListEmpty => kind == SEQ
    case HashSetEmpty => kind == SET
    case TreeSetEmpty(_) => kind == SORTED_SET
  }

  /** `c` is a container of the family `supplier` produces (same variant and,
      for TreeSets, the same ordering). */
  predicate SuppliedBy<V>(c: Container<V>, supplier: EmptySupplier)
  {
    match supplier
    case ListEmpty => c.ListOf?
    case HashSetEmpty => c.HashSetOf?
    case TreeSetEmpty(o) => c.TreeSetOf? && c.ordering == o
  }

  /** Calling the supplier: a fresh empty container of its family. */
  function Supply<V>(supplier: EmptySupplier): (c: Container<V>)
    ensures SuppliedBy(c, supplier)
    ensures Elements(c) == {}
  {
    match supplier
    case ListEmpty => ListOf([])
    case HashSetEmpty => HashSetOf({})
    case TreeSetEmpty(o) => TreeSetOf(o, {})
  }

  /** Adding one value: a sequence appends it at the end, keeping duplicates;
      a set inserts it and is unchanged when it is already present. */
  function Add<V>(c: Container<V>, v: V): (r: Container<V>)
    ensures forall s :: SuppliedBy(r, s) <==> SuppliedBy(c, s)
    ensures Elements(r) == Elements(c) + {v}
    ensures c.ListOf? ==> r.ListOf? && |r.items| == |c.items| + 1 && r.items[..|c.items|] == c.items && r.items[|c.items|] == v
    ensures !c.ListOf? && v in Elements(c) ==> r == c
  {
    match c
    case ListOf(items) => ListOf(items + [v])
    case HashSetOf(elems) => HashSetOf(elems + {v})
    case TreeSetOf(o, elems) => TreeSetOf(o, elems + {v})
  }

  /** Adding the same value twice to a set container is adding it once; to a
      sequence container it keeps both occurrences. */
  lemma AddTwice<V>(c: Container<V>, v: V)
    ensures !c.ListOf? ==> Add(Add(c, v), v) == Add(c, v)
    ensures c.ListOf? ==> Add(Add(c, v), v).items == c.items + [v, v]
  {
    if c.ListOf? {
      assert Add(Add(c, v), v).items == c.items + [v] + [v];
    }
  }
}
