# simplex::Array — a verified Dafny model

This project models `simplex::Array<T>`, the generic sequence container of the
simplex toolkit (`include/Array.hpp`). The container is a value-semantic
wrapper over `std::vector<T>` that adds:

- bounds-checked element access (`at`, `operator[]`) that throws `IndexOutOfBoundsException`;
- positional and bulk insertion (`add`, `push`) and removal (`pop`, `remove`, `removeAll`, `removeAt`, `clear`);
- slicing with negative-index normalisation (`getPartialArray`);
- membership and search queries (`contains`, `containsCount`, `indexOf`, `lastIndexOf`);
- reversal and sorting by the elements' text (`reverse`, `sort`, `reverseSort`).

Every member function works on an immutable `Array<T>` datatype that wraps a
`seq<T>`. Most become pure Dafny functions. `remove` and the `char*[]`
constructor are methods whose loops follow the C++ loops. The one exception
class becomes a `Failure` result:

- `IndexOutOfBounds(index)` for element access and positional insertion, whose messages name the index;
- `StartingBeyondSize` for the two slicing throws, whose fixed message carries no index.

Behaviour the C++ leaves undefined becomes a `requires`, with two exceptions
(see "## Left out"): the missing `return` of `pop(false)` is given its evident
intent instead, and signed `int` overflow in the slicing arithmetic is replaced
by evaluation on unbounded integers. The one `std::out_of_range` the class lets escape also becomes
a `requires`.

Files and modules:

- `cpp_int.dfy` (`CppInt`): the `int`/`size_t` conversions that the bounds checks and `lastIndexOf` go through.
- `lex_order.dfy` (`LexOrder`): the order `std::string::operator<` puts on text, defined explicitly. Dafny's own `<` on sequences means "proper prefix". The module proves that this order is a total order and equals the "first difference, or proper prefix" description.
- `array.dfy` (`SimplexArray`): the datatype and every operation of the class except sorting.
- `array_sort.dfy` (`ArraySort`): `sorter`, `sort` and `reverseSort`. The text conversion is an abstract `key: T -> string`.
- `array_laws.dfy` (`ArrayLaws`): laws that relate operations to each other, and worked examples: sorting `[3, 1, 2]`, slicing `["a", "b", "c"]` and `[1, 2, 3]`, and `removeAll` on `[1, 2, 3]`.

Two behaviours of the code that are easy to miss:

- `add(value, index)` rejects negative indices as well as indices above the size. Its guard `index < size() + 1` compares an `int` with a `size_t`, so a negative index turns into a huge unsigned value.
- `lastIndexOf` of an absent value returns -1. The expression `size - size - 1` wraps in `size_t` and converts back to the `int` -1. It does not return a value that overlaps valid indices.

## Model

| member | source | states |
|---|---|---|
| `SimplexArray.Empty` | include/Array.hpp:118-119 | the default constructor holds no elements |
| `SimplexArray.FromList` | include/Array.hpp:121-126 | adding each listed value in turn yields exactly the list, in order |
| `SimplexArray.FromCharArray` | include/Array.hpp:127-132 | the `char*[]` constructor yields one text element per entry for the first `arraySize` entries, in order; a non-positive size yields nothing |
| `SimplexArray.FromVector` | include/Array.hpp:188-193 | wrapping a vector keeps its length and every element in its place |
| `SimplexArray.ToVector` | include/Array.hpp:194-198 | the returned vector has the container's length and elements |
| `ArrayLaws.VectorRoundTrip` | include/Array.hpp:188-198 | `FromVector(toVector(x)) == x` and `toVector(FromVector(v)) == v` |
| `SimplexArray.At` | include/Array.hpp:200-224 | `at(i)` succeeds exactly when `0 <= i < size`, yielding the element at `i`; otherwise it fails with `IndexOutOfBounds(i)`, with no wrap-around for negatives |
| `SimplexArray.Subscript` | include/Array.hpp:138-147 | `operator[]` gives exactly what `at` gives, with the same bounds and error |
| `SimplexArray.AssignAt` | include/Array.hpp:200-211 | writing through the mutable `at` reference replaces only element `i` and keeps the length; an out-of-range `i` throws `IndexOutOfBounds(i)` |
| `ArrayLaws.AssignThenAt` | include/Array.hpp:200-211 | reading `at(i)` after writing `v` through it gives `v`; every other index reads as before |
| `ArrayLaws.AtMatchesVectorAt` | include/Array.hpp:200-211 | the `size_t` comparison inside `std::vector::at` accepts exactly the indices `At` accepts, for sizes that fit in `int`; negative indices fail |
| `ArrayLaws.AtMinusOneFails` | include/Array.hpp:212-224 | `at(-1)` and `[-1]` throw `IndexOutOfBounds(-1)` on every container |
| `CppInt.ToSizeT` | include/Array.hpp:159 | an `int` converted to `size_t` is the residue congruent to it modulo 2^64 |
| `CppInt.ToInt` | include/Array.hpp:283-284 | a `size_t` converted to `int` is the residue congruent to it modulo 2^32 within the `int` range |
| `CppInt.SizeTComparisonRejectsNegatives` | include/Array.hpp:159 | for sizes up to `INT_MAX`, `index < size` and `index < size + 1` after conversion to `size_t` hold exactly for `0 <= index < size` and `0 <= index <= size` |
| `CppInt.ToIntOfMaxSizeT` | include/Array.hpp:284 | `0 - 1` computed in `size_t` and converted to `int` is -1 |
| `CppInt.ToIntOfSmall` | include/Array.hpp:284 | a non-negative `int` value survives conversion to `size_t` and back unchanged |
| `SimplexArray.Size` | include/Array.hpp:359-363 | `size()` is the number of live elements, duplicates included |
| `SimplexArray.Add` | include/Array.hpp:150-155 | `add(v)` grows the container by one, keeps the old elements in place and puts `v` last |
| `SimplexArray.Push` | include/Array.hpp:298-303 | `push(v)` is `add(v)` |
| `SimplexArray.AddAt` | include/Array.hpp:156-167 | `add(v, i)` succeeds exactly when `0 <= i <= size`, giving the old prefix before `i`, then `v`, then the old suffix from `i`; otherwise it fails with `IndexOutOfBounds(i)` |
| `ArrayLaws.AddAtMatchesSizeTGuard` | include/Array.hpp:159 | the guard `index < size() + 1`, an `int`/`size_t` comparison, accepts exactly the positions `AddAt` accepts, so negative positions throw |
| `ArrayLaws.AddAtEndIsAdd` | include/Array.hpp:156-167 | inserting at position `size` is the same as appending |
| `SimplexArray.AddList` | include/Array.hpp:168-174 | adding the items of a list one at a time appends the whole list, in order |
| `SimplexArray.AddArray` | include/Array.hpp:175-180 | adding an Array keeps the old elements as a prefix and appends the other container's elements as the suffix |
| `SimplexArray.AddVector` | include/Array.hpp:181-186 | adding a vector keeps the old elements as a prefix and appends the vector as the suffix |
| `ArrayLaws.AddOverloadsAgree` | include/Array.hpp:168-186 | the list, Array and vector overloads of `add` give the same container for the same items |
| `ArrayLaws.FromListIsFromVector` | include/Array.hpp:121-135 | the initializer-list and vector constructors agree on the same items |
| `SimplexArray.Clear` | include/Array.hpp:226-231 | `clear()` leaves no elements |
| `SimplexArray.RemoveAll` | include/Array.hpp:318-323 | `removeAll(x)` is `clear()` and leaves no elements |
| `ArrayLaws.RemoveAllIgnoresArgument` | include/Array.hpp:318-323 | `removeAll` gives the same (empty) result whatever its argument |
| `ArrayLaws.RemoveAllExample` | include/Array.hpp:318-323 | `[1, 2, 3].removeAll(x)` is empty for every `x` |
| `SimplexArray.RemoveAt` | include/Array.hpp:324-329 | `removeAt(i)` on a valid `i` shortens the container by one, keeps the elements before `i`, shifts the later ones left, and removes exactly one copy of the element at `i` |
| `ArrayLaws.RemoveAtUndoesAddAt` | include/Array.hpp:324-329 | `removeAt(i)` after `add(v, i)` restores the container |
| `ArrayLaws.AddAtUndoesRemoveAt` | include/Array.hpp:156-167 | re-inserting the removed element at its old position restores the container |
| `SimplexArray.Remove` | include/Array.hpp:305-317 | `remove(v)` is a no-op when `v` is absent; otherwise it removes the element at `v`'s first position only, leaving one copy of `v` fewer |
| `SimplexArray.Pop` | include/Array.hpp:286-297 | `pop` on a non-empty container drops only the last element; it hands that element back exactly when `returnValue` is true |
| `ArrayLaws.PushThenPop` | include/Array.hpp:286-303 | `push(v); pop(true)` returns `v` and restores the container |
| `ArrayLaws.PopThenPush` | include/Array.hpp:286-303 | pushing back the popped last element restores the container |
| `ArrayLaws.PopIgnoresReturnValueForContents` | include/Array.hpp:286-297 | both forms of `pop` leave the same contents, and `pop(false)` hands back nothing |
| `SimplexArray.ReserveSpace` | include/Array.hpp:331-336 | `reserveSpace(n)` leaves the contents unchanged |
| `SimplexArray.GetPartialArray` | include/Array.hpp:233-244 | after normalising a negative start to `size + start`, the call fails exactly when the start exceeds the size; otherwise the result holds the elements from the start to the end, in order |
| `SimplexArray.GetPartialArrayCount` | include/Array.hpp:245-263 | after normalising the start, and then a negative count to `size - start + count`, the call fails exactly when the start exceeds the size or the range runs past the end; otherwise the result holds the `count` elements from the start |
| `ArrayLaws.PartialFromZeroIsCopy` | include/Array.hpp:233-244 | `getPartialArray(0)` is an exact copy |
| `ArrayLaws.PartialFromMinusOneIsLast` | include/Array.hpp:233-244 | `getPartialArray(-1)` holds only the last element |
| `ArrayLaws.PartialFromEndIsEmpty` | include/Array.hpp:240-243 | a start equal to the size is accepted and gives an empty container |
| `ArrayLaws.PartialBeyondEndFails` | include/Array.hpp:240-241 | a start beyond the size makes both slicing forms throw |
| `ArrayLaws.PartialOverrunFails` | include/Array.hpp:245-257 | a range running past the end throws even when the normalised start is still negative, because the overrun check comes before any iterator is built |
| `ArrayLaws.PartialNegativeStartOverrunExample` | include/Array.hpp:245-257 | `[1, 2, 3].getPartialArray(-5, 10)` throws: the start becomes -2 and `-2 + 10 > 3` |
| `ArrayLaws.PartialCountToEndMatchesPartial` | include/Array.hpp:259-262 | the counted form whose range ends at the size equals the one-argument form, so both return branches agree |
| `ArrayLaws.NegativeCountCountsFromEnd` | include/Array.hpp:251-252 | a count of `-m` selects the same elements as the count that stops `m` elements before the end |
| `ArrayLaws.PartialCountExample` | include/Array.hpp:245-263 | `["a", "b", "c"].getPartialArray(1, -1)` is `["b"]` |
| `SimplexArray.Find` | include/Array.hpp:275-279 | `std::find` returns the first position holding the value, or the end position when there is none |
| `SimplexArray.CountOf` | include/Array.hpp:270-274 | `std::count` equals the value's multiplicity in the elements |
| `SimplexArray.Contains` | include/Array.hpp:265-269 | `contains(v)` holds exactly when some position holds `v` |
| `SimplexArray.ContainsCount` | include/Array.hpp:270-274 | `containsCount(v)` is the number of occurrences of `v` |
| `ArrayLaws.ContainsIffPositiveCount` | include/Array.hpp:265-274 | `contains(v)` holds exactly when `containsCount(v) > 0` |
| `SimplexArray.IndexOf` | include/Array.hpp:275-279 | `indexOf(v)` is the smallest position holding `v`; it is `size` exactly when `v` is absent |
| `SimplexArray.LastIndexOf` | include/Array.hpp:280-285 | `lastIndexOf(v)` is the largest position holding `v`; it is -1 exactly when `v` is absent |
| `SimplexArray.FindReversed` | include/Array.hpp:283 | searching the reversed elements finds the last occurrence, at distance `size - 1 - position` from the back |
| `ArrayLaws.AbsentValueSentinels` | include/Array.hpp:275-285 | for an absent value, `indexOf` gives `size`, `lastIndexOf` gives -1 and `containsCount` gives 0 |
| `ArrayLaws.FirstNotAfterLast` | include/Array.hpp:275-285 | for a present value, `0 <= indexOf(v) <= lastIndexOf(v)` |
| `ArrayLaws.SingleOccurrenceFoundFromBothEnds` | include/Array.hpp:275-285 | a value that occurs exactly once has `indexOf(v) == lastIndexOf(v)` |
| `SimplexArray.Reversed` | include/Array.hpp:341 | `std::reverse` puts the element at `k` into position `size - 1 - k` |
| `SimplexArray.Reverse` | include/Array.hpp:338-343 | `reverse()` mirrors the positions and keeps every element with its multiplicity |
| `SimplexArray.ReversedSameMultiset` | include/Array.hpp:338-343 | reversal is a permutation |
| `ArrayLaws.ReverseInvolution` | include/Array.hpp:338-343 | reversing twice is the identity |
| `ArraySort.Sorter` | include/Array.hpp:89-95 | `sorter` holds exactly when the first element's text first differs from the second's at a smaller character, or is a proper prefix of it; it never holds in both directions |
| `LexOrder.LessIffDiffersFirstBelow` | include/Array.hpp:93 | the text order holds exactly when the texts first differ at a smaller character of the left text, or the left text is a proper prefix of the right |
| `LexOrder.LessIrreflexive` | include/Array.hpp:93 | no text comes before itself |
| `LexOrder.LessAsymmetric` | include/Array.hpp:93 | two texts are never each before the other |
| `LexOrder.LessTransitive` | include/Array.hpp:93 | the text order is transitive |
| `LexOrder.LessTrichotomy` | include/Array.hpp:93 | any two texts are equal or one comes before the other |
| `LexOrder.LessEqIffNotLess` | include/Array.hpp:89-95 | "not after" is the negation of the reversed strict order, which is what sorting with `sorter` arranges |
| `LexOrder.LessEqTotalOrder` | include/Array.hpp:89-95 | the non-strict text order is total, transitive and antisymmetric |
| `ArraySort.InsertSorted` | include/Array.hpp:352-357 | inserting into a text-sorted sequence keeps it sorted and adds exactly that element |
| `ArraySort.SortSeq` | include/Array.hpp:352-357 | the sorting routine returns a permutation whose texts never decrease |
| `ArraySort.Sort` | include/Array.hpp:352-357 | `sort()` yields the same elements with the same multiplicities, with texts in non-decreasing order |
| `ArraySort.ReverseSort` | include/Array.hpp:344-350 | `reverseSort()` yields the same elements with texts in non-increasing order |
| `ArraySort.ReversedSortedIsReverseSorted` | include/Array.hpp:344-350 | reversing a text-ascending sequence makes it text-descending |
| `ArraySort.SortedKeysUnique` | include/Array.hpp:352-357 | two text-sorted arrangements of the same elements list the same texts in the same order |
| `ArrayLaws.SortDeterminesKeys` | include/Array.hpp:352-357 | any text-sorted permutation of the elements lists exactly the texts `sort()` lists |
| `ArrayLaws.ReverseSortIsSortReversed` | include/Array.hpp:344-350 | `reverseSort()` lists the texts of `sort()` back to front |
| `ArrayLaws.SortExample` | include/Array.hpp:352-357 | `[3, 1, 2]` with texts "3", "1", "2" sorts to `[1, 2, 3]` |
| `ArrayLaws.ReverseSortExample` | include/Array.hpp:344-350 | the same container reverse-sorts to `[3, 2, 1]` |

## Left out

- `Array(int, ArrayMemberType[])`: declared at include/Array.hpp:49 but never defined, so there is nothing to model.
- `begin()`/`end()`: they expose iterators into the vector. The model has no storage to alias.
- Element types implicitly constructible from `std::vector<T>` (such as `std::any`) are excluded. For them the brace-initialisations at include/Array.hpp:134 and :191 pick the `initializer_list` constructor and wrap the whole vector as one element. This affects the vector constructor, `toVector`'s round trip and the results of `getPartialArray`. The model copies the vector element by element for every `T`.
- Capacity: `reserveSpace` only changes capacity, which the model does not track, so it is the identity on contents.
- SimplexArray.ReserveSpace: `std::vector::reserve` throws `std::length_error` when the request exceeds `max_size()`. That limit is not modelled, so the model never fails there.
- Aliasing through the reference the mutable `at` returns: modelled only as one assignment through it (`AssignAt`). Reference lifetime and invalidation are not modelled.
- Exception messages and `__ExceptionParams__` metadata (file, line, class, method): only the kind of error and the offending index are modelled. `string::FromNumber` and `Exception.hpp` are not part of this model.
- The `(std::string)` cast inside `sorter`: it is a conversion defined elsewhere, so it is the parameter `key`.
- ArraySort.Sort: promises a key-sorted permutation and nothing about elements with equal texts, because `std::sort` is not stable. The model's insertion sort picks one such order, and no contract depends on which one.
- The `char*[]` constructor: each entry is taken as already-decoded text. Reading a C string up to its terminating zero is not modelled.
- Undefined behaviour becomes a `requires`, except the missing `return` of `pop(false)` and signed overflow in `getPartialArray` (both below):
  - `pop(false)` on an empty container, where `pop_back` is undefined;
  - `removeAt` outside `0 .. size - 1`;
  - the one-argument `getPartialArray` whose normalised start is still negative;
  - the two-argument `getPartialArray` when neither throw fires and the normalised start or the normalised count is still negative;
  - the `char*[]` constructor with fewer entries than `arraySize`.
- SimplexArray.Pop: `pop(true)` on an empty container is defined: `at(size() - 1)` is `at` of the largest `size_t` and throws `std::out_of_range`. The class does not translate that exception into its own, and the model excludes the empty container by a `requires` instead of giving it an error value.
- SimplexArray.Pop: with `returnValue` false, the C++ function reaches the end of a non-void function without a `return`. Flowing off the end is undefined behaviour on every `pop(false)` call, not only on an empty container. The model gives the call its evident intent: it removes the last element and hands back nothing (`None`).
- Integer widths: indices and counts are unbounded integers, and sizes are assumed to fit in an `int`. Overflow of the size itself is not modelled.
- SimplexArray.GetPartialArrayCount: `arraySize - start + count` (include/Array.hpp:252) and `start + count` (include/Array.hpp:256, 259) are signed `int` sums, and their overflow is undefined behaviour, e.g. `[1, 2, 3].getPartialArray(1, INT_MAX)`. The model evaluates them on unbounded integers and gives such calls the result the arithmetic evidently intends: here the range runs past the end, so the call fails with `StartingBeyondSize`. The conversions that decide behaviour are modelled explicitly in `CppInt`: the bounds checks of `at` and of `add(value, index)`, and the wrap in `lastIndexOf`.
- SimplexArray.LastIndexOf: requires the size to fit in an `int`. Above that, the conversion of the `size_t` result truncates and the C++ result no longer names a position.
- `include/Database.hpp` and `include/FileReader.hpp`: abstract database interfaces and a file reader with no algorithmic content. They are not part of this model.
