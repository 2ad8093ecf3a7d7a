/**
 The mutable side of a `ListView`: an object holding the one reference to the
 current persistent sequence, and the mutability flag fixed at creation. The
 mutators swap the reference exactly as the transition of the same name in
 JavaConverters describes. `ListIterator` and `ToArray` apply the corrected
 transitions (`ListIteratorAt`, `ToArrayInto`) rather than the ones javaslang
 writes (`ListIteratorAtAsWritten`, `ToArrayIntoAsWritten`).
 */
module ListViewObjects {
  import opened JavaErrors
  import JC = JavaConverters

  /** A `ListView` object: the one mutable reference to the current sequence and
      the fixed flag. */
  class ListViewObject<T(==)> {
    var delegate: seq<T>
    const mutable: bool

    /** `asJava(seq, policy)`. */
    constructor (s: seq<T>, policy: JC.ChangePolicy)
      ensures delegate == s && mutable == JC.IsMutable(policy)
    {
      delegate := s;
      mutable := JC.IsMutable(policy);
    }

    function View(): JC.ListView<T>
      reads this
    {
      JC.Cell(delegate, mutable)
    }

    method Commit<R>(o: JC.Outcome<JC.ListView<T>, R>) returns (r: Result<R>)
      requires o.state.mutable == mutable
      modifies this
      ensures delegate == o.state.delegate && r == o.result
    {
      delegate := o.state.delegate;
      r := o.result;
    }

    method Add(e: T) returns (r: Result<()>)
      modifies this
      ensures View() == JC.Add(old(View()), e).state
      ensures r == JC.Add(old(View()), e).result
    {
      r := Commit(JC.Add(View(), e));
    }

    method Insert(index: int, e: T) returns (r: Result<()>)
      modifies this
      ensures View() == JC.Insert(old(View()), index, e).state
      ensures r == JC.Insert(old(View()), index, e).result
    {
      r := Commit(JC.Insert(View(), index, e));
    }

    method Clear() returns (r: Result<()>)
      modifies this
      ensures View() == JC.Clear(old(View())).state
      ensures r == JC.Clear(old(View())).result
    {
      r := Commit(JC.Clear(View()));
    }

    method RemoveAt(index: int) returns (r: Result<T>)
      modifies this
      ensures View() == JC.RemoveAt(old(View()), index).state
      ensures r == JC.RemoveAt(old(View()), index).result
    {
      r := Commit(JC.RemoveAt(View(), index));
    }

    method Set(index: int, e: T) returns (r: Result<T>)
      modifies this
      ensures View() == JC.Set(old(View()), index, e).state
      ensures r == JC.Set(old(View()), index, e).result
    {
      r := Commit(JC.Set(View(), index, e));
    }

    /** `listIterator(index)`, with the range check `java.util.List` asks for. */
    method ListIterator(index: int) returns (r: Result<JC.ListIterator<T>>)
      ensures r == JC.ListIteratorAt(View(), index)
      ensures r.Ok? ==> JC.CursorInBounds(r.value)
    {
      r := JC.ListIteratorAt(View(), index);
    }

    /** `toArray(array)`, with the slot after the last element set to null. */
    method ToArray(dest: Nullable<seq<Nullable<T>>>) returns (r: Result<seq<Nullable<T>>>)
      ensures r == JC.ToArrayInto(View(), dest)
    {
      r := JC.ToArrayInto(View(), dest);
    }

    /** `subList(from, to)`: a fresh object, so later mutations of either
        object do not reach the other. */
    method SubList(from: int, to: int) returns (r: Result<ListViewObject<T>>)
      ensures r.Ok? <==> JC.SubList(View(), from, to).Ok?
      ensures r.Ok? ==> fresh(r.value) && r.value.View() == JC.SubList(View(), from, to).value
      ensures r.Throws? ==> r.exception == IndexOutOfBoundsException
    {
      var s := JC.SubList(View(), from, to);
      if s.Ok? {
        var sub := new ListViewObject(s.value.delegate, if mutable then JC.MUTABLE else JC.IMMUTABLE);
        r := Ok(sub);
      } else {
        r := Throws(s.exception);
      }
    }
  }

  /** Clearing a sub-list object leaves the parent object's delegate as it was. */
  method ClearSubList<T(==)>(parent: ListViewObject<T>, from: int, to: int) returns (r: Result<()>)
    ensures parent.delegate == old(parent.delegate)
    ensures !(0 <= from <= to <= |parent.delegate|) ==> r == Throws(IndexOutOfBoundsException)
    ensures 0 <= from <= to <= |parent.delegate| ==> r == if parent.mutable then Ok(()) else Throws(UnsupportedOperationException)
  {
    var sub := parent.SubList(from, to);
    if sub.Ok? {
      r := sub.value.Clear();
    } else {
      r := Throws(sub.exception);
    }
  }
}
