# SortedLinkedList in Dafny

A verified model of `SortedLinkedList`. It is a PHP singly-linked list that keeps its values in non-decreasing order as they are added. One list holds either integers or strings, never both. The first value the list sees fixes the kind, and `clear()` resets it.

The model keeps the source's shape:

- `LinkedList.Node` is a heap node with `value` and `next`.
- `LinkedList.SortedLinkedList` is a class with `head` and a `kind` field, which is PHP's `$type`.
- Its methods walk a `current` pointer and splice `next` links in place, as the PHP does.
- Ghost fields hold the public view: `Contents` (the values head to tail), `Nodes` (the chain that holds them) and `Repr`.

Every method is proved against pure functions on sequences:

- `add` is proved against `SortedSeqs.Insert`, which splices `v` in at `InsertionPoint`.
- `remove` is proved against `SortedSeqs.RemoveFirst`, which drops the element at `IndexOf`.
- `toString` is proved against `Render.Implode`.

The properties are then proved about those functions. They include sortedness, the multiset change, stability for equal values, the add/remove round trips, and the `implode`/`explode` round trip.

The thrown `InvalidArgumentException` becomes an error value: `Outcome.Fail(TypeMismatch(k))` for `add`, and `Result.Failure(TypeMismatch(k))` for `remove` and `contains`. Here `k` is the kind the list is locked to. Each of these contracts also states that a refused call changes neither the values nor the type.

Files:

| file | module | contents |
|---|---|---|
| `wrappers.dfy` | `Wrappers` | `Option`, `Outcome`, `Result` |
| `values.dfy` | `Values` | values (integer or byte string), kinds, `<=>`, `strcmp`, `compare` |
| `sorted_seq.dfy` | `SortedSeqs` | what `add` and `remove` do to the contents, and their laws |
| `render.dfy` | `Render` | `implode` with PHP's integer-to-decimal conversion, and `explode` as its inverse for a one-byte glue on a non-empty list of pieces that do not contain the glue |
| `sorted_linked_list.dfy` | `LinkedList` | the node and list classes |
| `scenarios.dfy` | `Scenarios` | the repository's unit tests replayed against the class, with their assertions as postconditions |

The list's invariant (`KindInvariant`) follows the code, not the doc comment of `getType` (src/SortedLinkedList.php:157-164). The comment says the type is `null` exactly when the list is empty. In the code, `remove`, `contains` and `add` all call `enforceType` first, which sets the type even on an empty list, and removing the last value leaves the type as it was. So the model keeps only "unset type ⇒ empty list", plus "every value has the set kind and the values are sorted". `Scenarios.TypeOutlivesLastValue` and `Scenarios.ContainsLocksType` exhibit the difference.

## Model

| member | source | states |
|---|---|---|
| Values.KindOf | src/SortedLinkedList.php:192 | A definition: the kind `enforceType` reads off a value, `int` for an integer and `string` otherwise. The contracts of `EnforceType`, `Add`, `Remove` and `Contains` are stated in its terms. |
| Values.Admits | src/SortedLinkedList.php:193-196 | A definition: the guard of `enforceType`, which accepts any value while the type is unset and only values of the set kind afterwards. `EnforceType`'s contract says a call passes exactly when this holds. |
| Values.IntCmp | src/SortedLinkedList.php:209-210 | `$a <=> $b` is -1, 0 or 1. It is negative exactly when `a < b` and zero exactly when `a == b`. |
| Values.StrCmp | src/SortedLinkedList.php:211-212 | `strcmp`'s sign is -1, 0 or 1, and it is zero exactly when the two byte strings are equal. |
| Values.Compare | src/SortedLinkedList.php:207-214 | `compare` dispatches on the locked kind. The result is a sign, zero exactly on equal values, and for integers negative exactly when the first is smaller. |
| Values.StrCmpAntisymmetric | src/SortedLinkedList.php:212 | Swapping the operands of `strcmp` negates the result. |
| Values.StrCmpTransitive | src/SortedLinkedList.php:212 | `strcmp` is transitive. |
| Values.StrCmpPrefix | src/SortedLinkedList.php:212 | A proper prefix sorts strictly first. |
| Values.StrCmpFirstDifference | src/SortedLinkedList.php:212 | The first differing byte decides the order. |
| Values.CompareAntisymmetric | src/SortedLinkedList.php:207-214 | `compare(a, b) == -compare(b, a)` for both kinds. |
| Values.CompareTransitive | src/SortedLinkedList.php:207-214 | `compare` is transitive for both kinds. |
| Values.CompareStrictTransitive | src/SortedLinkedList.php:207-214 | Strictly below, then at most, gives strictly below. |
| SortedSeqs.InsertionPoint | src/SortedLinkedList.php:35-45 | Where `add` puts `v`. Every earlier element compares at most `v`, and the element there (if any) compares above `v`. |
| SortedSeqs.InsertionPointUnique | src/SortedLinkedList.php:35-45 | Any position with those two properties is the insertion point. |
| SortedSeqs.IndexOf | src/SortedLinkedList.php:67-79 | The first position holding a value identical to `v`, or the length when none does. |
| SortedSeqs.IndexOfUnique | src/SortedLinkedList.php:67-79 | Any position with those properties is the index. |
| SortedSeqs.Insert | src/SortedLinkedList.php:23-49 | The contents after `add(v)`: `v` spliced in at `InsertionPoint`. Its result keeps the list's kind. Its properties are proved in `InsertSorted`, `InsertMultiset` and `InsertStable`. |
| SortedSeqs.RemoveFirst | src/SortedLinkedList.php:57-89 | A definition: the contents after `remove(v)`, that is, the element at `IndexOf` dropped, or nothing changed when `v` is absent. Its properties are proved in `RemoveFirstMultiset` and `RemoveFirstSorted`. |
| SortedSeqs.InsertAtFront | src/SortedLinkedList.php:35-38 | When the list is empty or `v` is below the head, `v` goes in front. |
| SortedSeqs.RemoveFirstAtFront | src/SortedLinkedList.php:67-72 | When the head holds `v`, `remove` drops the head. |
| SortedSeqs.InsertSorted | src/SortedLinkedList.php:23-49 | `add` keeps the list sorted. |
| SortedSeqs.InsertMultiset | src/SortedLinkedList.php:23-49 | `add` grows the length by one and the multiset by exactly `{v}`. |
| SortedSeqs.InsertStable | src/SortedLinkedList.php:35-45 | `v` goes after every element that compares at most `v` (so after equal ones) and before every element above it. It becomes the head exactly when the list is empty or `v` is below the head. |
| SortedSeqs.RemoveFirstMultiset | src/SortedLinkedList.php:57-89 | An absent value changes nothing. A present one shortens the list by one, and the multiset loses exactly one `v`. |
| SortedSeqs.RemoveFirstSorted | src/SortedLinkedList.php:57-89 | `remove` keeps the kind and the order. |
| SortedSeqs.EqualRun | src/SortedLinkedList.php:43-79 | In a sorted list, the copies of `v` run from its first occurrence up to its insertion point. |
| SortedSeqs.RemoveAfterInsert | src/SortedLinkedList.php:23-89 | `add(v)` then `remove(v)` restores the contents. |
| SortedSeqs.InsertAfterRemove | src/SortedLinkedList.php:23-89 | `remove(v)` of a present `v`, then `add(v)`, restores the contents. |
| Render.Digits | src/SortedLinkedList.php:180 | An integer's decimal digits are never empty, and lead with `0` only for zero. |
| Render.DigitsRoundTrip | src/SortedLinkedList.php:180 | The digits of `n` read back as `n`. |
| Render.IntString | src/SortedLinkedList.php:180 | PHP's integer-to-string conversion starts with `-` exactly for negative numbers, followed by digits. |
| Render.IntStringRoundTrip | src/SortedLinkedList.php:180 | An integer's decimal form parses back to the integer. |
| Render.IntStringInjective | src/SortedLinkedList.php:180 | Distinct integers have distinct decimal forms. |
| Render.Implode | src/SortedLinkedList.php:180 | A definition: the values written out in order and joined by the glue, as `implode` does. Its properties are proved in `JoinLength`, `SplitJoin` and `ImplodeIntsInjective`. |
| Render.JoinLength | src/SortedLinkedList.php:180 | The output holds every piece plus one glue per gap. |
| Render.SplitJoin | src/SortedLinkedList.php:180 | Splitting an `implode` with a one-byte glue on that glue recovers the pieces, when the pieces are free of the glue byte and the list is not empty. |
| Render.ImplodeIntsInjective | src/SortedLinkedList.php:178-181 | With a one-byte glue that is neither a digit nor `-`, `toString` of an integer list determines the list. |
| LinkedList.Node.constructor | src/SortedLinkedList.php:222-238 | A new node holds its value and has no successor. |
| LinkedList.SortedLinkedList.constructor | src/SortedLinkedList.php:9-15 | A new list is empty and its type is unset. |
| LinkedList.SortedLinkedList.EnforceType | src/SortedLinkedList.php:190-198 | It succeeds exactly when the type is unset or matches the value's kind, and then the type is that kind. Otherwise it fails with the locked kind and leaves the type unchanged. |
| LinkedList.SortedLinkedList.LinkAfter | src/SortedLinkedList.php:47-48 | Splicing a fresh node after node `i` yields the chain with that node and its value inserted at `i + 1`. |
| LinkedList.SortedLinkedList.UnlinkAfter | src/SortedLinkedList.php:87 | Bypassing node `i + 1` yields the chain without it and its value. |
| LinkedList.SortedLinkedList.FindInsertAfter | src/SortedLinkedList.php:42-45 | The walk of `add` stops at node `i`, and `v`'s insertion point is `i + 1`. |
| LinkedList.SortedLinkedList.Add | src/SortedLinkedList.php:23-49 | `add` succeeds exactly when the value's kind is admitted; then the type is that kind and the contents are `Insert(old contents, v)`. On failure it reports the locked kind, and the contents and type are unchanged. |
| LinkedList.SortedLinkedList.AddAtHead | src/SortedLinkedList.php:35-38 | The new node becomes the head, and the contents are the insertion of `v`. |
| LinkedList.SortedLinkedList.AddAfterHead | src/SortedLinkedList.php:42-48 | The new node goes in after the node the walk stops at, and the contents are the insertion of `v`. |
| LinkedList.SortedLinkedList.FindRemoveBefore | src/SortedLinkedList.php:76-79 | The walk of `remove` stops at node `i`. Either `v` first occurs at `i + 1`, or `v` does not occur and node `i` is the last. |
| LinkedList.SortedLinkedList.Remove | src/SortedLinkedList.php:57-89 | `remove` succeeds exactly when the kind is admitted. It then reports whether `v` was present, and the contents lose exactly the first copy of `v`. On failure nothing changes. |
| LinkedList.SortedLinkedList.RemoveHead | src/SortedLinkedList.php:67-73 | When the head holds `v`, its successor becomes the head and the result is `true`. |
| LinkedList.SortedLinkedList.RemoveAfterHead | src/SortedLinkedList.php:75-88 | Otherwise the first later copy of `v` is unlinked and the result is `true`, or nothing changes and the result is `false`. |
| LinkedList.SortedLinkedList.ToArray | src/SortedLinkedList.php:96-107 | The walk returns the values head to tail. |
| LinkedList.SortedLinkedList.ToString | src/SortedLinkedList.php:178-181 | The result is `implode(glue, values)`. The glue defaults to `DefaultGlue`, `", "`. |
| LinkedList.SortedLinkedList.Contains | src/SortedLinkedList.php:117-130 | It locks the type like `add`. When the kind is admitted, the result is `true` exactly when some value is identical to `v`. It never changes the contents. |
| LinkedList.SortedLinkedList.IsEmpty | src/SortedLinkedList.php:139-142 | The result is `true` exactly when there are no values. |
| LinkedList.SortedLinkedList.Clear | src/SortedLinkedList.php:151-155 | Afterwards there are no values and the type is unset. |
| LinkedList.SortedLinkedList.GetType | src/SortedLinkedList.php:165-168 | An unset type means no values. A set one names the kind of every value. |
| Scenarios.AddAndOrderWithInts | tests/SortedLinkedListTest.php:11-18 | Adding 5, 1, 3 gives `[1, 3, 5]`. |
| Scenarios.AddAndOrderWithStrings | tests/SortedLinkedListTest.php:20-27 | Adding banana, apple, cherry gives them in `strcmp` order. |
| Scenarios.RemoveExistingValue | tests/SortedLinkedListTest.php:29-37 | Removing 2 from `[1, 2, 3]` reports `true` and leaves `[1, 3]`. |
| Scenarios.RemoveMissingValue | tests/SortedLinkedListTest.php:39-44 | Removing 999 from `[1]` reports `false` and leaves `[1]`. |
| Scenarios.MixedTypesRefused | tests/SortedLinkedListTest.php:46-52 | A string is refused by an integer list, which is left as it was. |
| Scenarios.IsEmptyAndClear | tests/SortedLinkedListTest.php:54-62 | `isEmpty` is true, then false after `add`, then true after `clear`. |
| Scenarios.ContainsAddedValue | tests/SortedLinkedListTest.php:64-70 | `contains('a')` is true and `contains('b')` is false. |
| Scenarios.ToStringDefaultGlue | tests/SortedLinkedListTest.php:72-80 | `toString()` with no argument gives `apple, banana, cherry`. |
| Scenarios.ToStringCustomGlue | tests/SortedLinkedListTest.php:82-83 | A custom one-byte glue, the bar, gives the three strings in order joined by the bar. |
| Scenarios.NodeConstruction | tests/NodeTest.php:10-19 | A node built from `123` or `'abc'` holds that value and has a null `next`. |
| Scenarios.NodeLinking | tests/NodeTest.php:21-29 | After `first->next = second`, `first`'s successor is `second` and `second` has none. |
| Scenarios.TypeFollowsFirstValue | tests/SortedLinkedListTest.php:86-104 | The type reads unset, then `int`, then unset after `clear`, then `string`. |
| Scenarios.ToArrayOfInts | tests/SortedLinkedListTest.php:106-117 | An empty list gives `[]`; adding 3, 1, 2 gives `[1, 2, 3]`. |
| Scenarios.ToArrayOfStringsAfterClear | tests/SortedLinkedListTest.php:119-124 | After `clear`, adding z, x, y gives `[x, y, z]`. |
| Scenarios.TypeOutlivesLastValue | src/SortedLinkedList.php:57-73 | Removing the only value empties the list but keeps the type `int`, so a string is still refused. |
| Scenarios.ContainsLocksType | src/SortedLinkedList.php:117-119 | `contains(1)` on a fresh list reports `false` and locks the type to `int`. |
| Scenarios.EnforceTypeSetsType | tests/SortedLinkedListTest.php:127-143 | `enforceType(42)` makes the type `int`; after `clear`, `enforceType('hello')` makes it `string`. |
| Scenarios.EnforceTypeRefusesMixed | tests/SortedLinkedListTest.php:145-159 | After `enforceType(1)`, `enforceType('not-int')` is refused with the `int` lock. |
| Scenarios.CompareInts | tests/SortedLinkedListTest.php:161-178 | On an integer list, `compare(1, 2)` is negative, `compare(2, 2)` is zero and `compare(3, 2)` is positive. |
| Scenarios.CompareStrings | tests/SortedLinkedListTest.php:180-195 | On a string list, `compare('a', 'b')` is negative, `compare('c', 'c')` is zero and `compare('z', 'y')` is positive. |

## Left out

- The exception class and its message text are not modelled. A refused value is an error result carrying the locked kind.
- PHP's 64-bit integer range is not modelled. Integers are unbounded. The type lock means `<=>` never compares mixed types, so PHP's mixed-type comparison rules are not modelled either.
- Values.StrCmp: only the sign of `strcmp` is modelled, not its magnitude. Every caller only compares the result with zero.
- src/Node.php is not part of this model. It is a verbatim second copy of the node class at src/SortedLinkedList.php:222-238, and that copy is the one modelled.
- tests/NodeTest.php exercises the copy of the node class in src/Node.php. Its assertions are what `LinkedList.Node.constructor`'s contract states, and `Scenarios.NodeConstruction` and `Scenarios.NodeLinking` replay them on the node class modelled here.
- Render.SplitJoin: the `explode` round trip is proved only for a one-byte glue. The default glue `", "` is two bytes.
- Strings are byte sequences. No encoding is modelled.
- Aliasing between two lists is not modelled. Each list owns the nodes in its `Repr`.
