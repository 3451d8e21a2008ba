/**
 * The abstract meaning of the list operations, on the sequence of
 * elements held at positions [0, size) of the backing array.
 */
module ListSpec {
  import opened Outcomes

  /** `x` inserted at position `i`; the elements from `i` on move one place right. */
  function InsertAt<E>(s: seq<E>, i: nat, x: E): (r: seq<E>)
    requires i <= |s|
    ensures |r| == |s| + 1
    ensures r[i] == x
    ensures forall k :: 0 <= k < i ==> r[k] == s[k]
    ensures forall k :: i <= k < |s| ==> r[k + 1] == s[k]
  {
    s[..i] + [x] + s[i..]
  }

  /** The element at position `i` dropped; the elements after it move one place left. */
  function RemoveAt<E>(s: seq<E>, i: nat): (r: seq<E>)
    requires i < |s|
    ensures |r| + 1 == |s|
    ensures forall k :: 0 <= k < i ==> r[k] == s[k]
    ensures forall k :: i <= k < |r| ==> r[k] == s[k + 1]
  {
    s[..i] + s[i + 1..]
  }

  /** Removing an element and inserting it back where it was restores the sequence. */
  lemma RemoveThenInsert<E>(s: seq<E>, i: nat)
    requires i < |s|
    ensures InsertAt(RemoveAt(s, i), i, s[i]) == s
  {
  }

  /** Inserting an element and removing it again restores the sequence. */
  lemma InsertThenRemove<E>(s: seq<E>, i: nat, x: E)
    requires i <= |s|
    ensures RemoveAt(InsertAt(s, i, x), i) == s
  {
  }

  /** Removal takes exactly one copy of the removed element out of the multiset of elements. */
  lemma RemoveAtMultiset<E>(s: seq<E>, i: nat)
    requires i < |s|
    ensures multiset(RemoveAt(s, i)) == multiset(s) - multiset{s[i]}
    ensures multiset(RemoveAt(s, i)) + multiset{s[i]} == multiset(s)
  {
    var front, back := s[..i], s[i + 1..];
    assert s == front + ([s[i]] + back);
    assert RemoveAt(s, i) == front + back;
  }

  /** The lowest position holding `x`, or `None` when no position does. */
  function FirstIndexOf<E(==)>(s: seq<E>, x: E): (r: Option<nat>)
    ensures r.None? <==> x !in s
    ensures r.Some? ==> r.value < |s| && s[r.value] == x && x !in s[..r.value]
    decreases |s|
  {
    if s == [] then None
    else if s[0] == x then Some(0)
    else
      match FirstIndexOf(s[1..], x)
      case None => None
      case Some(j) => Some(j + 1)
  }

  /**
   * Removing the first occurrence of `x` removes exactly one copy of it:
   * every later duplicate stays, in order, right after the removed slot.
   */
  lemma RemoveFirstKeepsLaterDuplicates<E>(s: seq<E>, x: E)
    requires x in s
    ensures FirstIndexOf(s, x).Some?
    ensures multiset(RemoveAt(s, FirstIndexOf(s, x).value))[x] + 1 == multiset(s)[x]
    ensures RemoveAt(s, FirstIndexOf(s, x).value)[FirstIndexOf(s, x).value..]
         == s[FirstIndexOf(s, x).value + 1..]
  {
    var i := FirstIndexOf(s, x).value;
    RemoveAtMultiset(s, i);
  }
}
