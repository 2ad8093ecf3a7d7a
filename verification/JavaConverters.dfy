/**
 The `java.util.List` view javaslang puts over a persistent sequence.

 A view (`HasDelegate`) holds one mutable reference to the current persistent
 sequence and a mutability flag fixed at creation. Every `java.util.List`
 mutator computes a new persistent sequence and swaps it in; on an immutable
 view the swap throws UnsupportedOperationException instead. The sequence
 operation is evaluated first, so an index out of range raises
 IndexOutOfBoundsException even on an immutable view. A list iterator is a
 second `HasDelegate` over its own snapshot of the sequence, with a cursor.

 The persistent sequence operations (`append`, `insert`, `removeAt`, ...) are
 javaslang's and are stood in for by Dafny sequence operations with the
 index checks javaslang documents for them.

 Each operation is a pure transition from the view before the call to the
 view after it, paired with what the call returned or threw; the module
 ListViewObjects holds the mutable cell itself.
 */
module JavaConverters {
  import opened JavaErrors

  // -- change policy

  datatype ChangePolicy = IMMUTABLE | MUTABLE

  /** `ChangePolicy.isMutable()`. */
  function IsMutable(policy: ChangePolicy): (r: bool)
    ensures r <==> policy == MUTABLE
  {
    match policy
    case MUTABLE => true
    case IMMUTABLE => false
  }

  // -- HasDelegate

  /** `HasDelegate`: the current delegate and the fixed mutability flag. */
  datatype Cell<C> = Cell(delegate: C, mutable: bool)

  /** The state after a call, and what the call returned or threw. */
  datatype Outcome<S, R> = Outcome(state: S, result: Result<R>)

  /** `setDelegate`: on a mutable cell installs the new delegate and returns the
      previous one; on an immutable cell throws and changes nothing. */
  function SetDelegate<C>(cell: Cell<C>, newDelegate: C): (r: Outcome<Cell<C>, C>)
    ensures r.state.mutable == cell.mutable
    ensures cell.mutable ==> r.state.delegate == newDelegate && r.result == Ok(cell.delegate)
    ensures !cell.mutable ==> r == Outcome(cell, Throws(UnsupportedOperationException))
  {
    if cell.mutable then Outcome(Cell(newDelegate, cell.mutable), Ok(cell.delegate))
    else Outcome(cell, Throws(UnsupportedOperationException))
  }

  /** Installing the delegate `setDelegate` returned restores the cell. */
  lemma SetDelegateUndo<C>(cell: Cell<C>, newDelegate: C)
    requires cell.mutable
    ensures var o := SetDelegate(cell, newDelegate);
            SetDelegate(o.state, o.result.value) == Outcome(cell, Ok(newDelegate))
  {
  }

  // -- descriptions of the new delegate a mutator installs

  /** `next` is `s` with `e` inserted at position `i`. */
  ghost predicate IsInsertion<T>(s: seq<T>, i: int, e: T, next: seq<T>)
  {
    && 0 <= i <= |s|
    && |next| == |s| + 1
    && next[i] == e
    && (forall j :: 0 <= j < i ==> next[j] == s[j])
    && (forall j :: i < j < |next| ==> next[j] == s[j - 1])
  }

  /** `next` is `s` without its element at position `i`. */
  ghost predicate IsRemoval<T>(s: seq<T>, i: int, next: seq<T>)
  {
    && 0 <= i < |s|
    && |next| == |s| - 1
    && (forall j :: 0 <= j < i ==> next[j] == s[j])
    && (forall j :: i <= j < |next| ==> next[j] == s[j + 1])
  }

  /** `next` is `s` with position `i` replaced by `e`. */
  ghost predicate IsUpdate<T>(s: seq<T>, i: int, e: T, next: seq<T>)
  {
    && 0 <= i < |s|
    && |next| == |s|
    && next[i] == e
    && (forall j :: 0 <= j < |s| && j != i ==> next[j] == s[j])
  }

  /** `next` is `s` with the elements of `c` inserted, in order, at position `i`. */
  ghost predicate IsInsertionOfAll<T>(s: seq<T>, i: int, c: seq<T>, next: seq<T>)
  {
    && 0 <= i <= |s|
    && |next| == |s| + |c|
    && (forall j :: 0 <= j < i ==> next[j] == s[j])
    && (forall j :: 0 <= j < |c| ==> next[i + j] == c[j])
    && (forall j :: i <= j < |s| ==> next[j + |c|] == s[j])
  }

  /** The outcome of a mutator whose sequence operation produced `next`: on a
      mutable view `next` is installed and `value` returned; on an immutable
      view UnsupportedOperationException is thrown and the view is unchanged. */
  ghost predicate Swapped<T, R>(v: Cell<seq<T>>, r: Outcome<Cell<seq<T>>, R>, next: seq<T>, value: R)
  {
    if v.mutable then r == Outcome(Cell(next, true), Ok(value))
    else r == Outcome(v, Throws(UnsupportedOperationException))
  }

  // -- helpers on sequences (stand-ins for javaslang's Seq operations)

  /** The first position of `o` in `s`, or -1. */
  function FirstIndex<T(==)>(s: seq<T>, o: T): (r: int)
    ensures -1 <= r < |s|
    ensures r == -1 <==> o !in s
    ensures 0 <= r ==> s[r] == o && forall j :: 0 <= j < r ==> s[j] != o
  {
    if s == [] then -1
    else if s[0] == o then 0
    else
      var k := FirstIndex(s[1..], o);
      if k < 0 then -1 else k + 1
  }

  /** The last position of `o` in `s`, or -1. */
  function LastIndex<T(==)>(s: seq<T>, o: T): (r: int)
    ensures -1 <= r < |s|
    ensures r == -1 <==> o !in s
    ensures 0 <= r ==> s[r] == o && forall j :: r < j < |s| ==> s[j] != o
  {
    if s == [] then -1
    else if s[|s| - 1] == o then |s| - 1
    else LastIndex(s[..|s| - 1], o)
  }

  /** `s` with its first occurrence of `o` removed (javaslang `Seq.remove`). */
  function RemoveFirst<T(==)>(s: seq<T>, o: T): (r: seq<T>)
    ensures o !in s ==> r == s
    ensures o in s ==> IsRemoval(s, FirstIndex(s, o), r)
  {
    if s == [] then []
    else if s[0] == o then s[1..]
    else [s[0]] + RemoveFirst(s[1..], o)
  }

  /** The elements of `s` that `keep` accepts, in order, each as often as in `s`.
      The order is pinned by `FilterOne` and `FilterConcat`, which together
      determine `Filter` on every sequence. */
  function Filter<T>(s: seq<T>, keep: T -> bool): (r: seq<T>)
    ensures forall x :: x in r ==> x in s && keep(x)
    ensures forall x :: x in s ==> multiset(r)[x] == if keep(x) then multiset(s)[x] else 0
    ensures |r| <= |s|
  {
    if s == [] then []
    else
      assert s == [s[0]] + s[1..];
      (if keep(s[0]) then [s[0]] else []) + Filter(s[1..], keep)
  }

  /** On one element, `Filter` keeps it or drops it. */
  lemma FilterOne<T>(x: T, keep: T -> bool)
    ensures Filter([x], keep) == if keep(x) then [x] else []
  {
    assert [x][1..] == [];
  }

  /** `Filter` distributes over concatenation, so survivors keep their relative order. */
  lemma {:induction false} FilterConcat<T>(s: seq<T>, t: seq<T>, keep: T -> bool)
    ensures Filter(s + t, keep) == Filter(s, keep) + Filter(t, keep)
    decreases |s|
  {
    if s == [] {
      assert s + t == t;
    } else {
      assert (s + t)[0] == s[0];
      assert (s + t)[1..] == s[1..] + t;
      FilterConcat(s[1..], t, keep);
    }
  }

  /** The test `removeAll(c)` applies to each element: not an element of `c`. */
  function NotIn<T(==)>(c: seq<T>): T -> bool
  {
    x => x !in c
  }

  /** The test `retainAll(c)` applies to each element: an element of `c`. */
  function In<T(==)>(c: seq<T>): T -> bool
  {
    x => x in c
  }

  // -- ListView

  /** `ListView`: a `HasDelegate` over a sequence. */
  type ListView<T> = Cell<seq<T>>

  /** Both `asJava` overloads (indexed and linear sequences): a view over `s`
      that is mutable iff the policy is MUTABLE. */
  function AsJava<T>(s: seq<T>, policy: ChangePolicy): (v: ListView<T>)
    ensures v.delegate == s
    ensures v.mutable <==> policy == MUTABLE
  {
    Cell(s, IsMutable(policy))
  }

  /** `add(e)`: appends `e`. Its boolean result is not modelled. */
  function Add<T>(v: ListView<T>, e: T): (r: Outcome<ListView<T>, ()>)
    ensures Swapped(v, r, r.state.delegate, ())
    ensures v.mutable ==> IsInsertion(v.delegate, |v.delegate|, e, r.state.delegate)
  {
    var o := SetDelegate(v, v.delegate + [e]);
    Outcome(o.state, if o.result.Ok? then Ok(()) else Throws(o.result.exception))
  }

  /** `add(index, e)`: inserts `e` at `index`; an index outside 0..size throws
      IndexOutOfBoundsException whatever the view's mutability. */
  function Insert<T>(v: ListView<T>, index: int, e: T): (r: Outcome<ListView<T>, ()>)
    ensures !(0 <= index <= |v.delegate|) ==> r == Outcome(v, Throws(IndexOutOfBoundsException))
    ensures 0 <= index <= |v.delegate| ==> Swapped(v, r, r.state.delegate, ())
    ensures 0 <= index <= |v.delegate| && v.mutable ==> IsInsertion(v.delegate, index, e, r.state.delegate)
  {
    if !(0 <= index <= |v.delegate|) then Outcome(v, Throws(IndexOutOfBoundsException))
    else
      var o := SetDelegate(v, v.delegate[..index] + [e] + v.delegate[index..]);
      Outcome(o.state, if o.result.Ok? then Ok(()) else Throws(o.result.exception))
  }

  /** `addAll(c)`: appends the elements of `c` in order. */
  function AddAll<T>(v: ListView<T>, c: seq<T>): (r: Outcome<ListView<T>, ()>)
    ensures Swapped(v, r, r.state.delegate, ())
    ensures v.mutable ==> IsInsertionOfAll(v.delegate, |v.delegate|, c, r.state.delegate)
  {
    var o := SetDelegate(v, v.delegate + c);
    Outcome(o.state, if o.result.Ok? then Ok(()) else Throws(o.result.exception))
  }

  /** `addAll(index, c)`: inserts the elements of `c` in order at `index`. */
  function InsertAll<T>(v: ListView<T>, index: int, c: seq<T>): (r: Outcome<ListView<T>, ()>)
    ensures !(0 <= index <= |v.delegate|) ==> r == Outcome(v, Throws(IndexOutOfBoundsException))
    ensures 0 <= index <= |v.delegate| ==> Swapped(v, r, r.state.delegate, ())
    ensures 0 <= index <= |v.delegate| && v.mutable ==> IsInsertionOfAll(v.delegate, index, c, r.state.delegate)
  {
    if !(0 <= index <= |v.delegate|) then Outcome(v, Throws(IndexOutOfBoundsException))
    else
      var o := SetDelegate(v, v.delegate[..index] + c + v.delegate[index..]);
      Outcome(o.state, if o.result.Ok? then Ok(()) else Throws(o.result.exception))
  }

  /** `clear()`: installs `take(0)`, the empty sequence. */
  function Clear<T>(v: ListView<T>): (r: Outcome<ListView<T>, ()>)
    ensures Swapped(v, r, [], ())
  {
    var o := SetDelegate(v, v.delegate[..0]);
    Outcome(o.state, if o.result.Ok? then Ok(()) else Throws(o.result.exception))
  }

  /** `remove(index)`: removes and returns the element at `index`. */
  function RemoveAt<T>(v: ListView<T>, index: int): (r: Outcome<ListView<T>, T>)
    ensures !(0 <= index < |v.delegate|) ==> r == Outcome(v, Throws(IndexOutOfBoundsException))
    ensures 0 <= index < |v.delegate| ==> Swapped(v, r, r.state.delegate, v.delegate[index])
    ensures 0 <= index < |v.delegate| && v.mutable ==> IsRemoval(v.delegate, index, r.state.delegate)
  {
    if !(0 <= index < |v.delegate|) then Outcome(v, Throws(IndexOutOfBoundsException))
    else
      var o := SetDelegate(v, v.delegate[..index] + v.delegate[index + 1..]);
      Outcome(o.state, if o.result.Ok? then Ok(o.result.value[index]) else Throws(o.result.exception))
  }

  /** `remove(obj)`: removes the first occurrence of `obj`, if any. The new
      sequence is swapped in even when nothing was removed, so an immutable
      view always throws. Its boolean result is not modelled. */
  function RemoveElement<T(==)>(v: ListView<T>, obj: T): (r: Outcome<ListView<T>, ()>)
    ensures Swapped(v, r, r.state.delegate, ())
    ensures v.mutable && obj !in v.delegate ==> r.state.delegate == v.delegate
    ensures v.mutable && obj in v.delegate ==> IsRemoval(v.delegate, FirstIndex(v.delegate, obj), r.state.delegate)
  {
    var o := SetDelegate(v, RemoveFirst(v.delegate, obj));
    Outcome(o.state, if o.result.Ok? then Ok(()) else Throws(o.result.exception))
  }

  /** `removeAll(c)`: drops every occurrence of every element of `c`. */
  function RemoveAll<T(==)>(v: ListView<T>, c: seq<T>): (r: Outcome<ListView<T>, ()>)
    ensures Swapped(v, r, r.state.delegate, ())
    ensures v.mutable ==> forall x :: x in r.state.delegate ==> x in v.delegate && x !in c
    ensures v.mutable ==> forall x :: x in v.delegate ==> multiset(r.state.delegate)[x] == if x in c then 0 else multiset(v.delegate)[x]
    ensures v.mutable ==> r.state.delegate == Filter(v.delegate, NotIn(c))
  {
    var o := SetDelegate(v, Filter(v.delegate, NotIn(c)));
    Outcome(o.state, if o.result.Ok? then Ok(()) else Throws(o.result.exception))
  }

  /** `retainAll(c)`: keeps exactly the occurrences of elements of `c`. */
  function RetainAll<T(==)>(v: ListView<T>, c: seq<T>): (r: Outcome<ListView<T>, ()>)
    ensures Swapped(v, r, r.state.delegate, ())
    ensures v.mutable ==> forall x :: x in r.state.delegate ==> x in v.delegate && x in c
    ensures v.mutable ==> forall x :: x in v.delegate ==> multiset(r.state.delegate)[x] == if x in c then multiset(v.delegate)[x] else 0
    ensures v.mutable ==> r.state.delegate == Filter(v.delegate, In(c))
  {
    var o := SetDelegate(v, Filter(v.delegate, In(c)));
    Outcome(o.state, if o.result.Ok? then Ok(()) else Throws(o.result.exception))
  }

  /** `set(index, e)`: replaces the element at `index` and returns the old one. */
  function Set<T>(v: ListView<T>, index: int, e: T): (r: Outcome<ListView<T>, T>)
    ensures !(0 <= index < |v.delegate|) ==> r == Outcome(v, Throws(IndexOutOfBoundsException))
    ensures 0 <= index < |v.delegate| ==> Swapped(v, r, r.state.delegate, v.delegate[index])
    ensures 0 <= index < |v.delegate| && v.mutable ==> IsUpdate(v.delegate, index, e, r.state.delegate)
  {
    if !(0 <= index < |v.delegate|) then Outcome(v, Throws(IndexOutOfBoundsException))
    else
      var o := SetDelegate(v, v.delegate[index := e]);
      Outcome(o.state, if o.result.Ok? then Ok(o.result.value[index]) else Throws(o.result.exception))
  }

  // -- readers (they return a value and leave the view as it is)

  /** `get(index)`. */
  function Get<T>(v: ListView<T>, index: int): (r: Result<T>)
    ensures r.Ok? <==> 0 <= index < |v.delegate|
    ensures r.Ok? ==> r.value == v.delegate[index]
    ensures r.Throws? ==> r.exception == IndexOutOfBoundsException
  {
    if 0 <= index < |v.delegate| then Ok(v.delegate[index]) else Throws(IndexOutOfBoundsException)
  }

  /** `size()`: the number of elements, which the mutators change as described. */
  function Size<T>(v: ListView<T>): (r: nat)
    ensures r == |v.delegate|
  {
    |v.delegate|
  }

  /** `isEmpty()`. */
  function IsEmpty<T>(v: ListView<T>): (r: bool)
    ensures r <==> Size(v) == 0
  {
    v.delegate == []
  }

  /** `contains(obj)`. */
  function Contains<T(==)>(v: ListView<T>, obj: T): (r: bool)
    ensures r <==> exists i :: 0 <= i < |v.delegate| && v.delegate[i] == obj
  {
    obj in v.delegate
  }

  /** `containsAll(c)`. */
  function ContainsAll<T(==)>(v: ListView<T>, c: seq<T>): (r: bool)
    ensures r <==> forall i :: 0 <= i < |c| ==> Contains(v, c[i])
  {
    forall x :: x in c ==> x in v.delegate
  }

  /** `indexOf(obj)`: the first position holding `obj`, or -1. */
  function IndexOf<T(==)>(v: ListView<T>, obj: T): (r: int)
    ensures r == -1 <==> !Contains(v, obj)
    ensures 0 <= r ==> r < |v.delegate| && v.delegate[r] == obj && forall j :: 0 <= j < r ==> v.delegate[j] != obj
  {
    FirstIndex(v.delegate, obj)
  }

  /** `lastIndexOf(obj)`: the last position holding `obj`, or -1. */
  function LastIndexOf<T(==)>(v: ListView<T>, obj: T): (r: int)
    ensures r == -1 <==> !Contains(v, obj)
    ensures 0 <= r ==> r < |v.delegate| && v.delegate[r] == obj && forall j :: r < j < |v.delegate| ==> v.delegate[j] != obj
  {
    LastIndex(v.delegate, obj)
  }

  /** `subList(from, to)`: a new view over the range, with the same mutability.
      It holds its own reference, so mutating it leaves this view alone. */
  function SubList<T>(v: ListView<T>, from: int, to: int): (r: Result<ListView<T>>)
    ensures r.Ok? <==> 0 <= from <= to <= |v.delegate|
    ensures r.Throws? ==> r.exception == IndexOutOfBoundsException
    ensures r.Ok? ==> r.value.mutable == v.mutable && |r.value.delegate| == to - from
    ensures r.Ok? ==> forall j :: 0 <= j < to - from ==> r.value.delegate[j] == v.delegate[from + j]
  {
    if 0 <= from <= to <= |v.delegate| then Ok(Cell(v.delegate[from..to], v.mutable))
    else Throws(IndexOutOfBoundsException)
  }

  /** `toArray()`: a new array holding the elements in order. */
  function ToArray<T>(v: ListView<T>): (r: seq<Nullable<T>>)
    ensures |r| == |v.delegate|
    ensures forall i :: 0 <= i < |r| ==> r[i] == NonNull(v.delegate[i])
  {
    seq(|v.delegate|, i requires 0 <= i < |v.delegate| => NonNull(v.delegate[i]))
  }

  /** `toArray(array)` as javaslang writes it: when the array is too short a
      new one of exactly the right length is allocated; the first `size()`
      slots receive the elements in order; the other slots are left as they were. */
  function ToArrayIntoAsWritten<T>(v: ListView<T>, dest: Nullable<seq<Nullable<T>>>): (r: Result<seq<Nullable<T>>>)
    ensures dest.Null? <==> r == Throws(NullPointerException)
    ensures r.Ok? ==> |r.value| == if |dest.value| < |v.delegate| then |v.delegate| else |dest.value|
    ensures r.Ok? ==> forall i :: 0 <= i < |v.delegate| ==> r.value[i] == NonNull(v.delegate[i])
    ensures r.Ok? ==> forall i :: |v.delegate| <= i < |r.value| ==> r.value[i] == dest.value[i]
  {
    match dest
    case Null => Throws(NullPointerException)
    case NonNull(a) =>
      var length := |v.delegate|;
      var target := if |a| < length then seq(length, _ => Null) else a;
      Ok(seq(|target|, i requires 0 <= i < |target| => if i < length then NonNull(v.delegate[i]) else target[i]))
  }

  /** `toArray(array)` with the `java.util.List` rule javaslang omits: when the
      array has room to spare, the slot right after the last element is set to null. */
  function ToArrayInto<T>(v: ListView<T>, dest: Nullable<seq<Nullable<T>>>): (r: Result<seq<Nullable<T>>>)
    ensures dest.Null? <==> r == Throws(NullPointerException)
    ensures r.Ok? ==> |r.value| == if |dest.value| < |v.delegate| then |v.delegate| else |dest.value|
    ensures r.Ok? ==> forall i :: 0 <= i < |v.delegate| ==> r.value[i] == NonNull(v.delegate[i])
    ensures r.Ok? && |v.delegate| < |dest.value| ==> r.value[|v.delegate|] == Null
    ensures r.Ok? ==> forall i :: |v.delegate| < i < |r.value| ==> r.value[i] == dest.value[i]
  {
    match ToArrayIntoAsWritten(v, dest)
    case Throws(e) => Throws(e)
    case Ok(filled) =>
      if |v.delegate| < |filled| then Ok(filled[|v.delegate| := Null]) else Ok(filled)
  }

  /** Filling an array longer than the list leaves a stale element after the
      last one, where `java.util.List.toArray` promises null. */
  lemma ToArrayLeavesStaleSlot<T>(x: T, y: T)
    ensures ToArrayIntoAsWritten(Cell([x], true), NonNull([NonNull(y), NonNull(y)])) == Ok([NonNull(x), NonNull(y)])
    ensures ToArrayInto(Cell([x], true), NonNull([NonNull(y), NonNull(y)])) == Ok([NonNull(x), Null])
  {
    var r := ToArrayIntoAsWritten(Cell([x], true), NonNull([NonNull(y), NonNull(y)]));
    assert r.value == [NonNull(x), NonNull(y)];
    assert r.value[1 := Null] == [NonNull(x), Null];
  }

  // -- round trips between the mutators

  /** Inserting and then removing at the same index restores the view and
      returns the inserted element. */
  lemma InsertThenRemoveAt<T>(v: ListView<T>, index: int, e: T)
    requires v.mutable && 0 <= index <= |v.delegate|
    ensures RemoveAt(Insert(v, index, e).state, index) == Outcome(v, Ok(e))
  {
    var w := Insert(v, index, e).state;
    var u := RemoveAt(w, index).state;
    assert u.delegate == v.delegate;
  }

  /** Removing an element and inserting it back at its index restores the view. */
  lemma RemoveAtThenInsert<T>(v: ListView<T>, index: int)
    requires v.mutable && 0 <= index < |v.delegate|
    ensures Insert(RemoveAt(v, index).state, index, v.delegate[index]) == Outcome(v, Ok(()))
  {
    var w := RemoveAt(v, index).state;
    var u := Insert(w, index, v.delegate[index]).state;
    assert u.delegate == v.delegate;
  }

  /** Setting an element and then setting the returned old value back restores
      the view and returns the element that was set. */
  lemma SetThenSetBack<T>(v: ListView<T>, index: int, e: T)
    requires v.mutable && 0 <= index < |v.delegate|
    ensures Set(Set(v, index, e).state, index, Set(v, index, e).result.value) == Outcome(v, Ok(e))
  {
    var w := Set(v, index, e).state;
    var u := Set(w, index, v.delegate[index]).state;
    assert u.delegate == v.delegate;
  }

  /** A sub-list reads through to the parent's elements at shifted positions. */
  lemma SubListGet<T>(v: ListView<T>, from: int, to: int, j: int)
    requires 0 <= from <= to <= |v.delegate|
    ensures Get(SubList(v, from, to).value, j) == if 0 <= j < to - from then Get(v, from + j) else Throws(IndexOutOfBoundsException)
  {
  }

  /** `removeAll` and `retainAll` keep the survivors in list order: on a
      delegate `s + t` they leave the survivors of `s` followed by those of `t`. */
  lemma BulkRemovalKeepsOrder<T>(s: seq<T>, t: seq<T>, c: seq<T>)
    ensures RemoveAll(Cell(s + t, true), c).state.delegate
         == RemoveAll(Cell(s, true), c).state.delegate + RemoveAll(Cell(t, true), c).state.delegate
    ensures RetainAll(Cell(s + t, true), c).state.delegate
         == RetainAll(Cell(s, true), c).state.delegate + RetainAll(Cell(t, true), c).state.delegate
  {
    FilterConcat(s, t, NotIn(c));
    FilterConcat(s, t, In(c));
  }

  /** On a one-element delegate `removeAll(c)` keeps the element iff it is not in `c`,
      and `retainAll(c)` iff it is. */
  lemma BulkRemovalOfOne<T>(x: T, c: seq<T>)
    ensures RemoveAll(Cell([x], true), c).state.delegate == if x in c then [] else [x]
    ensures RetainAll(Cell([x], true), c).state.delegate == if x in c then [x] else []
  {
    FilterOne(x, NotIn(c));
    FilterOne(x, In(c));
  }

  /** How the size of a mutable view moves with each index-based mutator that succeeds. */
  lemma SizeAfterMutators<T>(v: ListView<T>, index: int, e: T)
    requires v.mutable
    ensures Size(Add(v, e).state) == Size(v) + 1
    ensures 0 <= index <= Size(v) ==> Size(Insert(v, index, e).state) == Size(v) + 1
    ensures 0 <= index < Size(v) ==> Size(RemoveAt(v, index).state) == Size(v) - 1
    ensures 0 <= index < Size(v) ==> Size(Set(v, index, e).state) == Size(v)
    ensures IsEmpty(Clear(v).state)
  {
  }

  /** Each mutator on an immutable view created by `asJava` throws and leaves
      the view unchanged. */
  lemma ImmutableViewRejectsMutators<T>(s: seq<T>, index: int, e: T, c: seq<T>)
    ensures var v := AsJava(s, IMMUTABLE);
            && Add(v, e).state == v && Add(v, e).result.Throws?
            && Insert(v, index, e).state == v && Insert(v, index, e).result.Throws?
            && AddAll(v, c).state == v && AddAll(v, c).result.Throws?
            && InsertAll(v, index, c).state == v && InsertAll(v, index, c).result.Throws?
            && Clear(v).state == v && Clear(v).result.Throws?
            && RemoveAt(v, index).state == v && RemoveAt(v, index).result.Throws?
            && RemoveElement(v, e).state == v && RemoveElement(v, e).result.Throws?
            && RemoveAll(v, c).state == v && RemoveAll(v, c).result.Throws?
            && RetainAll(v, c).state == v && RetainAll(v, c).result.Throws?
            && Set(v, index, e).state == v && Set(v, index, e).result.Throws?
  {
  }

  // -- ListIterator

  /** `ListView.ListIterator`: a `HasDelegate` over a snapshot, and a cursor. */
  datatype ListIterator<T> = ListIterator(cell: Cell<seq<T>>, index: int)

  /** `ListIterator.of(seq, index, mutable)`: no check of `index`. */
  function ListIteratorOf<T>(s: seq<T>, index: int, mutable: bool): (it: ListIterator<T>)
    ensures it.cell.delegate == s && it.cell.mutable == mutable && it.index == index
  {
    ListIterator(Cell(s, mutable), index)
  }

  /** `listIterator(index)` as javaslang writes it: any index is accepted. */
  function ListIteratorAtAsWritten<T>(v: ListView<T>, index: int): (it: ListIterator<T>)
    ensures it.cell == v && it.index == index
  {
    ListIteratorOf(v.delegate, index, v.mutable)
  }

  /** The cursor lies between two elements (or at an end) of the snapshot. */
  predicate CursorInBounds<T>(it: ListIterator<T>)
  {
    0 <= it.index <= |it.cell.delegate|
  }

  /** `listIterator(index)` with the `java.util.List` range check javaslang
      omits: an index outside 0..size throws IndexOutOfBoundsException. */
  function ListIteratorAt<T>(v: ListView<T>, index: int): (r: Result<ListIterator<T>>)
    ensures r.Ok? <==> 0 <= index <= |v.delegate|
    ensures r.Throws? ==> r.exception == IndexOutOfBoundsException
    ensures r.Ok? ==> r.value.cell == v && r.value.index == index && CursorInBounds(r.value)
  {
    if 0 <= index <= |v.delegate| then Ok(ListIteratorAtAsWritten(v, index))
    else Throws(IndexOutOfBoundsException)
  }

  /** `listIterator()`: a cursor before the first element of a snapshot of the view. */
  function ListIteratorAtStart<T>(v: ListView<T>): (it: ListIterator<T>)
    ensures it.cell == v && it.index == 0 && CursorInBounds(it)
  {
    ListIteratorAtAsWritten(v, 0)
  }

  function HasNext<T>(it: ListIterator<T>): (r: bool)
    ensures r <==> it.index < |it.cell.delegate|
  {
    it.index < |it.cell.delegate|
  }

  function HasPrevious<T>(it: ListIterator<T>): (r: bool)
    ensures r <==> it.index > 0
  {
    it.index > 0
  }

  function NextIndex<T>(it: ListIterator<T>): (r: int)
    ensures r == it.index
  {
    it.index
  }

  function PreviousIndex<T>(it: ListIterator<T>): (r: int)
    ensures r == it.index - 1
  {
    it.index - 1
  }

  /** `next()`: past the end it throws NoSuchElementException and the cursor
      stays; otherwise the cursor advances (`index++`) before the element is
      read, so a cursor left of the start advances and then throws
      IndexOutOfBoundsException. */
  function Next<T>(it: ListIterator<T>): (r: Outcome<ListIterator<T>, T>)
    ensures !HasNext(it) ==> r == Outcome(it, Throws(NoSuchElementException))
    ensures HasNext(it) ==> r.state == it.(index := it.index + 1)
    ensures HasNext(it) && 0 <= it.index ==> r.result == Ok(it.cell.delegate[it.index])
    ensures HasNext(it) && it.index < 0 ==> r.result == Throws(IndexOutOfBoundsException)
  {
    if !HasNext(it) then Outcome(it, Throws(NoSuchElementException))
    else
      var moved := it.(index := it.index + 1);
      Outcome(moved, if 0 <= it.index then Ok(it.cell.delegate[it.index]) else Throws(IndexOutOfBoundsException))
  }

  /** `previous()`: at the start it throws NoSuchElementException and the
      cursor stays; otherwise the cursor moves back (`--index`) and the element
      there is read, which throws IndexOutOfBoundsException for a cursor that
      started past the end. */
  function Previous<T>(it: ListIterator<T>): (r: Outcome<ListIterator<T>, T>)
    ensures !HasPrevious(it) ==> r == Outcome(it, Throws(NoSuchElementException))
    ensures HasPrevious(it) ==> r.state == it.(index := it.index - 1)
    ensures HasPrevious(it) && it.index <= |it.cell.delegate| ==> r.result == Ok(it.cell.delegate[it.index - 1])
    ensures HasPrevious(it) && it.index > |it.cell.delegate| ==> r.result == Throws(IndexOutOfBoundsException)
  {
    if !HasPrevious(it) then Outcome(it, Throws(NoSuchElementException))
    else
      var moved := it.(index := it.index - 1);
      Outcome(moved, if moved.index < |it.cell.delegate| then Ok(it.cell.delegate[moved.index]) else Throws(IndexOutOfBoundsException))
  }

  /** The iterator's `remove()`: removes the element at the cursor from the
      iterator's own snapshot; the cursor does not move. */
  function IteratorRemove<T>(it: ListIterator<T>): (r: Outcome<ListIterator<T>, ()>)
    ensures !(0 <= it.index < |it.cell.delegate|) ==> r == Outcome(it, Throws(IndexOutOfBoundsException))
    ensures 0 <= it.index < |it.cell.delegate| ==> Swapped(it.cell, Outcome(r.state.cell, r.result), r.state.cell.delegate, ())
    ensures 0 <= it.index < |it.cell.delegate| && it.cell.mutable ==> IsRemoval(it.cell.delegate, it.index, r.state.cell.delegate)
    ensures r.state.index == it.index
  {
    var o := RemoveAt(it.cell, it.index);
    Outcome(it.(cell := o.state), if o.result.Ok? then Ok(()) else Throws(o.result.exception))
  }

  /** The iterator's `set(value)`: replaces the element at the cursor in the
      iterator's own snapshot. */
  function IteratorSet<T>(it: ListIterator<T>, value: T): (r: Outcome<ListIterator<T>, ()>)
    ensures !(0 <= it.index < |it.cell.delegate|) ==> r == Outcome(it, Throws(IndexOutOfBoundsException))
    ensures 0 <= it.index < |it.cell.delegate| ==> Swapped(it.cell, Outcome(r.state.cell, r.result), r.state.cell.delegate, ())
    ensures 0 <= it.index < |it.cell.delegate| && it.cell.mutable ==> IsUpdate(it.cell.delegate, it.index, value, r.state.cell.delegate)
    ensures r.state.index == it.index
  {
    var o := Set(it.cell, it.index, value);
    Outcome(it.(cell := o.state), if o.result.Ok? then Ok(()) else Throws(o.result.exception))
  }

  /** The iterator's `add(value)`: inserts at the cursor in the iterator's own
      snapshot; the cursor does not move. */
  function IteratorAdd<T>(it: ListIterator<T>, value: T): (r: Outcome<ListIterator<T>, ()>)
    ensures !(0 <= it.index <= |it.cell.delegate|) ==> r == Outcome(it, Throws(IndexOutOfBoundsException))
    ensures 0 <= it.index <= |it.cell.delegate| ==> Swapped(it.cell, Outcome(r.state.cell, r.result), r.state.cell.delegate, ())
    ensures 0 <= it.index <= |it.cell.delegate| && it.cell.mutable ==> IsInsertion(it.cell.delegate, it.index, value, r.state.cell.delegate)
    ensures r.state.index == it.index
  {
    var o := Insert(it.cell, it.index, value);
    Outcome(it.(cell := o.state), o.result)
  }

  /** With the range check, the cursor stays in bounds through every iterator
      operation, and `next`/`previous` only ever fail with NoSuchElementException. */
  lemma CursorStaysInBounds<T>(it: ListIterator<T>, value: T)
    requires CursorInBounds(it)
    ensures CursorInBounds(Next(it).state) && CursorInBounds(Previous(it).state)
    ensures Next(it).result.Throws? ==> Next(it).result.exception == NoSuchElementException
    ensures Previous(it).result.Throws? ==> Previous(it).result.exception == NoSuchElementException
    ensures CursorInBounds(IteratorRemove(it).state)
    ensures CursorInBounds(IteratorSet(it, value).state)
    ensures CursorInBounds(IteratorAdd(it, value).state)
  {
  }

  /** Without the range check, `listIterator(-1)` is accepted, and its first
      `next()` moves the cursor and then throws IndexOutOfBoundsException. */
  lemma UncheckedIteratorIndex<T>(x: T)
    ensures var it := ListIteratorAtAsWritten(Cell([x], true), -1);
            && HasNext(it)
            && Next(it) == Outcome(it.(index := 0), Throws(IndexOutOfBoundsException))
    ensures ListIteratorAt(Cell([x], true), -1) == Throws(IndexOutOfBoundsException)
  {
  }

  /** `previous()` undoes `next()`: the cursor returns and the same element is read. */
  lemma NextThenPrevious<T>(it: ListIterator<T>)
    requires 0 <= it.index < |it.cell.delegate|
    ensures Previous(Next(it).state) == Outcome(it, Next(it).result)
  {
  }

  /** After a successful `next`, `previousIndex` names the element just returned
      and `nextIndex` the one after it; `previous` moves both back. */
  lemma IndexesTrackCursor<T>(it: ListIterator<T>)
    requires CursorInBounds(it)
    ensures HasNext(it) ==>
      PreviousIndex(Next(it).state) == NextIndex(it) &&
      Next(it).result == Ok(it.cell.delegate[PreviousIndex(Next(it).state)])
    ensures HasPrevious(it) ==>
      NextIndex(Previous(it).state) == PreviousIndex(it) &&
      Previous(it).result == Ok(it.cell.delegate[NextIndex(Previous(it).state)])
  {
  }

  /** Walking forward with `hasNext`/`next` from an in-bounds cursor yields the
      snapshot from the cursor on, and leaves the cursor at the end. */
  method WalkForward<T>(start: ListIterator<T>) returns (elements: seq<T>, it: ListIterator<T>)
    requires CursorInBounds(start)
    ensures elements == start.cell.delegate[start.index..]
    ensures it == start.(index := |start.cell.delegate|) && !HasNext(it)
  {
    elements := [];
    it := start;
    while HasNext(it)
      invariant it.cell == start.cell && start.index <= it.index <= |it.cell.delegate|
      invariant elements == start.cell.delegate[start.index..it.index]
      decreases |it.cell.delegate| - it.index
    {
      var o := Next(it);
      elements := elements + [o.result.value];
      it := o.state;
    }
  }
}
