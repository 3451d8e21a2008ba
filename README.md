# ArrayList: a verified model of a growable array

`core.basesyntax.ArrayList<T>` is a generic list backed by an `Object[]
elementData` and a logical `size`. The first `size` slots hold the elements
in order. When an insertion finds the array full, the array is replaced by a
copy 1.5 times larger, truncated to an integer. A bulk append computes the
capacity it needs once, grows by 1.5 repeatedly until that fits, and
reallocates once. Indexed access accepts `[0, size)`, insertion accepts
`[0, size]`, and removal by value takes the first match.

The model has four modules:

- `Outcomes` (`outcomes.dfy`): `Result`, `Outcome` and `Option`. The list's
  two exceptions are returned through these instead of being thrown.
- `Growth` (`growth.dfy`): the capacity policy. `DEFAULT_CAPACITY = 10`.
  One growth step is `Grow(c) = c * 3 / 2`, which is `(int) (c * 1.5)` for a
  non-negative `c`. `GrowTo(c, n)` is the capacity that repeated growth
  reaches from `c` before it holds `n` elements.
- `ListSpec` (`list_spec.dfy`): what the operations mean on the sequence of
  elements. `InsertAt`, `RemoveAt` and `FirstIndexOf` are defined here, with
  their round trips and the multiset effect of a removal.
- `BaseSyntax` (`array_list.dfy`): the class `ArrayList<T>`. It has the
  source's fields `size` and `elementData`, the latter an
  `array<Nullable<T>>` in which `Null` is Java's null. A ghost field
  `Contents` is the abstract list. `Valid()` is the representation invariant:
  - `10 <= elementData.Length`;
  - `size == |Contents| <= elementData.Length`;
  - slot `i < size` holds `Contents[i]`;
  - every slot from `size` on is `Null`.

  Each method mutates the array in place, as the source does, and states the
  new `Contents` as a function of the old one. Two array helpers stand for
  library calls: `CopyOf` for `Arrays.copyOf` (a fresh array and a copy loop)
  and `ShiftRight` for the overlapping `System.arraycopy` (a downward copy
  loop). Three client methods, `ScenarioBuild`, `ScenarioRemove` and
  `ScenarioErrors`, make the sequence of calls `[1,2,3]` → insert 9 at 1 →
  remove at 0 → remove 2 → remove 99 → get 5, and the verifier proves every
  result from the method contracts.

Three facts about the source shape the model:

- The single-element `ensureCapacity()` (lines 17-22) grows exactly once.
  One step is always enough, because the capacity is at least 10
  (`Growth.OneStepSuffices`).
- The exceptions `ArrayListIndexOutOfBoundsException` and
  `NoSuchElementException` become `Error.IndexOutOfBounds(index, size)` and
  `Error.NotFound`.
- A capacity of 0 or 1 would never grow (`Growth.Grow`). `Valid()` keeps the
  capacity at least 10, since construction starts there and no operation
  shrinks the array.

## Model

| member | source | states |
|---|---|---|
| `Growth.Grow` | src/main/java/core/basesyntax/ArrayList.java:19 | a growth step never shrinks the capacity, and it strictly increases it exactly when the capacity is at least 2 |
| `Growth.GrowMonotone` | src/main/java/core/basesyntax/ArrayList.java:26-29 | a larger capacity never grows into a smaller one |
| `Growth.GrowTo` | src/main/java/core/basesyntax/ArrayList.java:24-32 | the capacity reached by repeated 1.5x growth holds the required number of elements and is never below the starting capacity; it is unchanged when already sufficient, and otherwise at most one growth step past the requirement |
| `Growth.GrowToIsFirstSufficient` | src/main/java/core/basesyntax/ArrayList.java:26-29 | the growth loop's result is the first iterate of the 1.5x step that reaches the requirement, and every earlier iterate is too small, so a single reallocation at the smallest sufficient policy capacity |
| `Growth.OneStepSuffices` | src/main/java/core/basesyntax/ArrayList.java:17-22 | for one more element, one 1.5x step of a full array of capacity at least 2 gives what the growth loop would: the single-element and bulk policies agree |
| `ListSpec.InsertAt` | src/main/java/core/basesyntax/ArrayList.java:53-61 | insertion at `i` gives one more element, the new value at `i`, the elements before `i` kept and those from `i` on moved one place right |
| `ListSpec.RemoveAt` | src/main/java/core/basesyntax/ArrayList.java:88-97 | removal at `i` gives one element fewer, the elements before `i` kept and those after `i` moved one place left |
| `ListSpec.RemoveThenInsert` | src/main/java/core/basesyntax/ArrayList.java:88-97 | removing the element at `i` and inserting it back at `i` restores the list |
| `ListSpec.InsertThenRemove` | src/main/java/core/basesyntax/ArrayList.java:53-61 | inserting a value at `i` and removing at `i` restores the list |
| `ListSpec.RemoveAtMultiset` | src/main/java/core/basesyntax/ArrayList.java:88-97 | removal takes exactly one copy of the removed element out of the multiset of elements: nothing lost, nothing duplicated |
| `ListSpec.FirstIndexOf` | src/main/java/core/basesyntax/ArrayList.java:100-115 | no position is found exactly when the value does not occur; a found position holds the value and no earlier position does |
| `ListSpec.RemoveFirstKeepsLaterDuplicates` | src/main/java/core/basesyntax/ArrayList.java:100-115 | removing the first occurrence lowers the value's count by exactly one and keeps every later element, later duplicates included, in order |
| `BaseSyntax.CopyOf` | src/main/java/core/basesyntax/ArrayList.java:20 | the copy is a fresh array of the requested length, holding the original's elements in order and `Null` past them |
| `BaseSyntax.ShiftRight` | src/main/java/core/basesyntax/ArrayList.java:57 | the overlapping copy moves the range one slot right without losing an element, and leaves everything outside the range untouched |
| `BaseSyntax.ArrayList.constructor` | src/main/java/core/basesyntax/ArrayList.java:12-15 | a new list is empty, with a fresh array of capacity 10 whose slots are all `Null` |
| `BaseSyntax.ArrayList.EnsureCapacity` | src/main/java/core/basesyntax/ArrayList.java:17-22 | afterwards there is room for one more element; the contents are unchanged; the capacity is the old one, with the same array kept, or one 1.5x step of it when the array was full |
| `BaseSyntax.ArrayList.EnsureCapacityFor` | src/main/java/core/basesyntax/ArrayList.java:24-32 | the contents are unchanged; the capacity becomes `GrowTo(old capacity, required)`, reached by the growth loop and a single reallocation; the same array is kept when it already holds `required` elements |
| `BaseSyntax.ArrayList.CheckIndex` | src/main/java/core/basesyntax/ArrayList.java:34-38 | passes exactly for `0 <= index < size`, and otherwise reports the index and the size |
| `BaseSyntax.ArrayList.CheckIndexForAdd` | src/main/java/core/basesyntax/ArrayList.java:40-44 | passes exactly for `0 <= index <= size` (the end included), and otherwise reports the index and the size |
| `BaseSyntax.ArrayList.Add` | src/main/java/core/basesyntax/ArrayList.java:47-50 | the contents become the old contents followed by the value; the invariant holds and the capacity grows only by the policy |
| `BaseSyntax.ArrayList.AddAt` | src/main/java/core/basesyntax/ArrayList.java:53-61 | fails exactly when `index < 0` or `index > size`, and then nothing changes; otherwise the contents become `InsertAt(old contents, index, value)` and the capacity grows only by the policy |
| `BaseSyntax.ArrayList.AddAll` | src/main/java/core/basesyntax/ArrayList.java:64-73 | the contents become the old contents followed by the argument; the capacity becomes `GrowTo(old capacity, size + list size)`, so at most one reallocation, and the same array is kept when the elements already fit |
| `BaseSyntax.ArrayList.Get` | src/main/java/core/basesyntax/ArrayList.java:76-79 | succeeds exactly for `0 <= index < size` and returns the element at `index`, otherwise reports the index and the size; nothing changes |
| `BaseSyntax.ArrayList.Set` | src/main/java/core/basesyntax/ArrayList.java:82-85 | fails exactly outside `[0, size)`, and then nothing changes; otherwise only position `index` is replaced, with size and array kept |
| `BaseSyntax.ArrayList.RemoveAt` | src/main/java/core/basesyntax/ArrayList.java:88-97 | fails exactly outside `[0, size)`, and then nothing changes; otherwise it returns the element at `index`, the contents become `RemoveAt(old contents, index)`, the capacity is unchanged and the vacated slot is `Null` |
| `BaseSyntax.ArrayList.Remove` | src/main/java/core/basesyntax/ArrayList.java:100-115 | fails with not-found exactly when the value does not occur, and then nothing changes; otherwise it removes the element at the value's first position and returns it |
| `BaseSyntax.ArrayList.Size` | src/main/java/core/basesyntax/ArrayList.java:118-120 | returns the number of elements |
| `BaseSyntax.ArrayList.IsEmpty` | src/main/java/core/basesyntax/ArrayList.java:123-125 | true exactly when there are no elements |

## Left out

- Floating point: `GROWTH_FACTOR` is the double 1.5. A growth step is modelled as the integer `c * 3 / 2`. This equals the truncated double product whenever the grown capacity fits in an `int`.
- Java `int` overflow: sizes and capacities are unbounded. In the source, `size + list.size()` at line 65 can wrap to a negative value; growth is then skipped and the copy at line 70 throws `ArrayIndexOutOfBoundsException`. The growth product itself is a double and does not wrap: the `(int)` cast saturates at `Integer.MAX_VALUE`, so growth stalls there. The model captures neither.
- Allocation failure (`OutOfMemoryError`) while growing is not modelled.
- Exception messages and classes: only the error kind is kept, with the index and size for index errors.
- `equals`: element comparison is Dafny's equality on `Nullable<T>`. This covers both of the source's search loops in `remove(T)`: null matched by identity, non-null by `equals`. The model therefore assumes an `equals` that is an equality, and the two loops become one.
- The `List<T>` interface, and the implementation of the list passed to `addAll`, are not part of this model. The argument is a `seq`, so aliasing such as `addAll(this)` is not modelled.
- Unchecked casts from `Object` to `T` have no counterpart: the array is typed.
- Concurrency: the source has none.
