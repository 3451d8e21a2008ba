/**
 * A generic growable array: a backing array `elementData` whose first
 * `size` slots hold the elements in order. The array is replaced by a
 * 1.5 times larger copy whenever it runs out of room.
 */
module BaseSyntax {
  import opened Outcomes
  import opened Growth
  import opened ListSpec

  /** A Java reference to a `T`: `Null` is the null reference. */
  datatype Nullable<T> = Null | Value(value: T)

  /** The two exceptions the list throws. */
  datatype Error =
    | IndexOutOfBounds(index: int, size: nat)
    | NotFound

  /**
   * A fresh array of length `newLength` holding the first elements of
   * `original`, padded with `Null` (the effect of `Arrays.copyOf`).
   */
  method CopyOf<T>(original: array<Nullable<T>>, newLength: nat) returns (copy: array<Nullable<T>>)
    ensures fresh(copy) && copy.Length == newLength
    ensures forall i :: 0 <= i < newLength ==>
              copy[i] == if i < original.Length then original[i] else Null
  {
    copy := new Nullable<T>[newLength](_ => Null);
    var n := if newLength < original.Length then newLength else original.Length;
    var i := 0;
    while i < n
      invariant 0 <= i <= n
      invariant forall j :: 0 <= j < i ==> copy[j] == original[j]
      invariant forall j :: i <= j < newLength ==> copy[j] == Null
    {
      copy[i] := original[i];
      i := i + 1;
    }
  }

  /**
   * Moves `a[from..to]` one slot to the right, into `a[from + 1..to + 1]`,
   * copying from the high end downward so that no element is overwritten
   * before it has been moved (the overlapping `System.arraycopy`).
   */
  method ShiftRight<T>(a: array<T>, from: nat, to: nat)
    requires from <= to < a.Length
    modifies a
    ensures forall k :: 0 <= k <= from ==> a[k] == old(a[k])
    ensures forall k :: from <= k < to ==> a[k + 1] == old(a[k])
    ensures forall k :: to < k < a.Length ==> a[k] == old(a[k])
  {
    var i := to;
    while i > from
      invariant from <= i <= to
      invariant forall k :: 0 <= k <= i ==> a[k] == old(a[k])
      invariant forall k :: i <= k < to ==> a[k + 1] == old(a[k])
      invariant forall k :: to < k < a.Length ==> a[k] == old(a[k])
    {
      a[i] := a[i - 1];
      i := i - 1;
    }
  }

  class ArrayList<T(==)> {
    /** The elements of the list, in order. */
    ghost var Contents: seq<Nullable<T>>

    var size: nat
    var elementData: array<Nullable<T>>

    /**
     * The representation invariant: the capacity never drops below the
     * default, the first `size` slots hold the elements in order, and
     * every slot past the last element is cleared.
     */
    ghost predicate Valid()
      reads this, elementData
    {
      DEFAULT_CAPACITY <= elementData.Length &&
      size == |Contents| && size <= elementData.Length &&
      (forall i :: 0 <= i < size ==> elementData[i] == Contents[i]) &&
      (forall i :: size <= i < elementData.Length ==> elementData[i] == Null)
    }

    constructor ()
      ensures Valid() && fresh(elementData)
      ensures Contents == [] && elementData.Length == DEFAULT_CAPACITY
    {
      elementData := new Nullable<T>[DEFAULT_CAPACITY](_ => Null);
      size := 0;
      Contents := [];
    }

    /** Makes room for one more element, growing the array once by 1.5 when it is full. */
    method EnsureCapacity()
      requires Valid()
      modifies this
      ensures Valid() && size == old(size) && Contents == old(Contents)
      ensures size < elementData.Length
      ensures elementData.Length == GrowTo(old(elementData.Length), size + 1)
      ensures elementData == old(elementData) || fresh(elementData)
      ensures old(size) < old(elementData.Length) ==> elementData == old(elementData)
    {
      OneStepSuffices(elementData.Length, size);
      if elementData.Length <= size {
        var newCapacity := Grow(elementData.Length);
        elementData := CopyOf(elementData, newCapacity);
      }
    }

    /**
     * Makes room for `requiredCapacity` elements: when the array is too
     * small, grows its capacity by 1.5 repeatedly until it suffices, then
     * reallocates once.
     */
    method EnsureCapacityFor(requiredCapacity: nat)
      requires Valid()
      modifies this
      ensures Valid() && size == old(size) && Contents == old(Contents)
      ensures elementData.Length == GrowTo(old(elementData.Length), requiredCapacity)
      ensures elementData == old(elementData) || fresh(elementData)
      ensures requiredCapacity <= old(elementData.Length) ==> elementData == old(elementData)
    {
      if elementData.Length < requiredCapacity {
        var newCapacity := Grow(elementData.Length);
        while newCapacity < requiredCapacity
          invariant elementData.Length < newCapacity
          invariant GrowTo(newCapacity, requiredCapacity) == GrowTo(elementData.Length, requiredCapacity)
          decreases requiredCapacity - newCapacity
        {
          newCapacity := Grow(newCapacity);
        }
        elementData := CopyOf(elementData, newCapacity);
      }
    }

    /** Passes exactly for the positions of existing elements. */
    function CheckIndex(index: int): (r: Outcome<Error>)
      reads this
      ensures r.Pass? <==> 0 <= index < size
      ensures r.Fail? ==> r.error == IndexOutOfBounds(index, size)
    {
      if index < 0 || index >= size then Fail(IndexOutOfBounds(index, size)) else Pass
    }

    /** Passes exactly for the positions an element can be inserted at, the end included. */
    function CheckIndexForAdd(index: int): (r: Outcome<Error>)
      reads this
      ensures r.Pass? <==> 0 <= index <= size
      ensures r.Fail? ==> r.error == IndexOutOfBounds(index, size)
    {
      if index < 0 || index > size then Fail(IndexOutOfBounds(index, size)) else Pass
    }

    /** Appends `value`. */
    method Add(value: Nullable<T>)
      requires Valid()
      modifies this, elementData
      ensures Valid() && Contents == old(Contents) + [value]
      ensures elementData.Length == GrowTo(old(elementData.Length), old(size) + 1)
      ensures elementData == old(elementData) || fresh(elementData)
      ensures old(size) < old(elementData.Length) ==> elementData == old(elementData)
    {
      EnsureCapacity();
      elementData[size] := value;
      size := size + 1;
      Contents := Contents + [value];
    }

    /** Inserts `value` at `index`, moving the elements from `index` on one place right. */
    method AddAt(value: Nullable<T>, index: int) returns (r: Outcome<Error>)
      requires Valid()
      modifies this, elementData
      ensures Valid()
      ensures r.Pass? <==> 0 <= index <= old(size)
      ensures r.Fail? ==>
                r.error == IndexOutOfBounds(index, old(size)) &&
                unchanged(this) && unchanged(elementData)
      ensures r.Pass? ==>
                Contents == InsertAt(old(Contents), index, value) &&
                elementData.Length == GrowTo(old(elementData.Length), old(size) + 1)
      ensures elementData == old(elementData) || fresh(elementData)
      ensures old(size) < old(elementData.Length) ==> elementData == old(elementData)
    {
      r := CheckIndexForAdd(index);
      if r.Fail? {
        return;
      }
      ghost var contents := Contents;
      ghost var inserted := InsertAt(contents, index, value);
      EnsureCapacity();
      if index != size {
        ShiftRight(elementData, index, size);
      }
      elementData[index] := value;
      size := size + 1;
      Contents := inserted;
      forall k | 0 <= k < size
        ensures elementData[k] == Contents[k]
      {
        if k > index {
          assert inserted[(k - 1) + 1] == contents[k - 1];
        }
      }
    }

    /** Appends every element of `list`, in order, reallocating at most once. */
    method AddAll(list: seq<Nullable<T>>)
      requires Valid()
      modifies this, elementData
      ensures Valid() && Contents == old(Contents) + list
      ensures elementData.Length == GrowTo(old(elementData.Length), old(size) + |list|)
      ensures elementData == old(elementData) || fresh(elementData)
      ensures old(size) + |list| <= old(elementData.Length) ==> elementData == old(elementData)
    {
      var requiredCapacity := size + |list|;
      if requiredCapacity > elementData.Length {
        EnsureCapacityFor(requiredCapacity);
      }
      ghost var appended := Contents + list;
      var i := 0;
      while i < |list|
        modifies elementData
        invariant 0 <= i <= |list|
        invariant forall k :: 0 <= k < size + i ==> elementData[k] == appended[k]
        invariant forall k :: size + i <= k < elementData.Length ==> elementData[k] == Null
      {
        elementData[size + i] := list[i];
        i := i + 1;
      }
      size := size + |list|;
      Contents := appended;
    }

    /** The element at `index`. */
    method Get(index: int) returns (r: Result<Nullable<T>, Error>)
      requires Valid()
      ensures r.Success? <==> 0 <= index < |Contents|
      ensures r.Success? ==> r.value == Contents[index]
      ensures r.Failure? ==> r.error == IndexOutOfBounds(index, |Contents|)
    {
      var check := CheckIndex(index);
      if check.Fail? {
        return Failure(check.error);
      }
      r := Success(elementData[index]);
    }

    /** Replaces the element at `index` by `value`. */
    method Set(value: Nullable<T>, index: int) returns (r: Outcome<Error>)
      requires Valid()
      modifies this, elementData
      ensures Valid() && size == old(size) && elementData == old(elementData)
      ensures r.Pass? <==> 0 <= index < old(size)
      ensures r.Fail? ==>
                r.error == IndexOutOfBounds(index, old(size)) &&
                unchanged(this) && unchanged(elementData)
      ensures r.Pass? ==> Contents == old(Contents)[index := value]
    {
      r := CheckIndex(index);
      if r.Fail? {
        return;
      }
      elementData[index] := value;
      Contents := Contents[index := value];
    }

    /**
     * Removes and returns the element at `index`, moving the later
     * elements one place left and clearing the slot this frees.
     */
    method RemoveAt(index: int) returns (r: Result<Nullable<T>, Error>)
      requires Valid()
      modifies this, elementData
      ensures Valid() && elementData == old(elementData)
      ensures r.Success? <==> 0 <= index < old(size)
      ensures r.Failure? ==>
                r.error == IndexOutOfBounds(index, old(size)) &&
                unchanged(this) && unchanged(elementData)
      ensures r.Success? ==>
                r.value == old(Contents)[index] &&
                Contents == ListSpec.RemoveAt(old(Contents), index) &&
                elementData[old(size) - 1] == Null
    {
      var check := CheckIndex(index);
      if check.Fail? {
        return Failure(check.error);
      }
      var removedElement := elementData[index];
      var i := index;
      while i < size - 1
        modifies elementData
        invariant index <= i <= size - 1
        invariant forall k :: 0 <= k < index ==> elementData[k] == Contents[k]
        invariant forall k :: index <= k < i ==> elementData[k] == Contents[k + 1]
        invariant forall k :: i < k < size ==> elementData[k] == Contents[k]
        invariant forall k :: size <= k < elementData.Length ==> elementData[k] == Null
      {
        elementData[i] := elementData[i + 1];
        i := i + 1;
      }
      ghost var remaining := ListSpec.RemoveAt(Contents, index);
      elementData[size - 1] := Null;
      size := size - 1;
      forall k | 0 <= k < size
        ensures elementData[k] == remaining[k]
      {
      }
      Contents := remaining;
      r := Success(removedElement);
    }

    /**
     * Removes and returns the first element equal to `element` (a null
     * element matches a null slot), leaving any later duplicates in place.
     */
    method Remove(element: Nullable<T>) returns (r: Result<Nullable<T>, Error>)
      requires Valid()
      modifies this, elementData
      ensures Valid() && elementData == old(elementData)
      ensures r.Failure? <==> element !in old(Contents)
      ensures r.Failure? ==> r.error == NotFound && unchanged(this) && unchanged(elementData)
      ensures r.Success? ==>
                FirstIndexOf(old(Contents), element).Some? &&
                r.value == old(Contents)[FirstIndexOf(old(Contents), element).value] == element &&
                Contents == ListSpec.RemoveAt(old(Contents), FirstIndexOf(old(Contents), element).value)
    {
      var i := 0;
      while i < size
        invariant 0 <= i <= size
        invariant element !in Contents[..i]
      {
        if elementData[i] == element {
          assert FirstIndexOf(Contents, element) == Some(i);
          r := RemoveAt(i);
          return;
        }
        i := i + 1;
      }
      assert Contents[..i] == Contents;
      r := Failure(NotFound);
    }

    /** The number of elements. */
    method Size() returns (n: nat)
      requires Valid()
      ensures n == |Contents|
    {
      n := size;
    }

    /** Whether the list holds no element. */
    method IsEmpty() returns (b: bool)
      requires Valid()
      ensures b <==> Contents == []
    {
      b := size == 0;
    }
  }

  /*
   * Three client methods make the calls of one usage sequence; the
   * verifier proves every result from the contracts alone.
   */

  method ScenarioBuild() returns (list: ArrayList<int>)
    ensures fresh(list) && fresh(list.elementData) && list.Valid()
    ensures list.Contents == [Value(1), Value(9), Value(2), Value(3)]
  {
    list := new ArrayList<int>();
    list.Add(Value(1));
    list.Add(Value(2));
    list.Add(Value(3));
    assert list.Contents == [Value(1), Value(2), Value(3)];
    var n := list.Size();
    assert n == 3;
    var inserted := list.AddAt(Value(9), 1);
    assert inserted == Pass;
  }

  method ScenarioRemove(list: ArrayList<int>)
    requires list.Valid() && list.Contents == [Value(1), Value(9), Value(2), Value(3)]
    modifies list, list.elementData
    ensures list.Valid() && list.Contents == [Value(9), Value(3)]
  {
    var removed := list.RemoveAt(0);
    assert removed == Success(Value(1));
    assert list.Contents == [Value(9), Value(2), Value(3)];
    var two := list.Remove(Value(2));
    assert FirstIndexOf([Value(9), Value(2), Value(3)], Value(2)) == Some(1);
    assert two == Success(Value(2));
  }

  method ScenarioErrors(list: ArrayList<int>)
    requires list.Valid() && list.Contents == [Value(9), Value(3)]
    modifies list, list.elementData
  {
    var missing := list.Remove(Value(99));
    assert missing == Failure(NotFound);
    var outside := list.Get(5);
    assert outside == Failure(IndexOutOfBounds(5, 2));
    var atEnd := list.AddAt(Value(4), 2);
    assert atEnd == Pass;
    var pastEnd := list.AddAt(Value(5), 4);
    assert pastEnd == Fail(IndexOutOfBounds(4, 3));
  }
}
