/**
 Laws that relate the operations of `simplex::Array<T>` to one another:
 inverses and round trips, agreement between overloads, the consequences of
 the slicing normalisation, and worked examples.
 */
module ArrayLaws {
  import CppInt
  import opened LexOrder
  import opened SimplexArray
  import opened ArraySort

  // ---------------------------------------------------------------------------
  // Bounds checks as the C++ performs them

  /**
   `at` hands its `int` index to `std::vector::at`, which compares it, as a
   `size_t`, with the size. For every array whose size fits in an `int` that
   comparison accepts exactly the indices `At` accepts: a negative index is
   rejected, never wrapped around from the end.
   */
  lemma AtMatchesVectorAt<T>(a: Array<T>, index: int)
    requires |a.items| <= CppInt.INT_MAX
    requires CppInt.IsInt(index)
    ensures At(a, index).Success? <==> CppInt.ToSizeT(index) < |a.items|
    ensures index < 0 ==> At(a, index) == Failure(IndexOutOfBounds(index))
  {
    CppInt.SizeTComparisonRejectsNegatives(|a.items|, index);
  }

  /**
   `add(value, index)` guards the insertion with `index < size() + 1`, an
   `int`/`size_t` comparison; it accepts exactly the positions `AddAt` accepts,
   so a negative index throws as well.
   */
  lemma AddAtMatchesSizeTGuard<T>(a: Array<T>, value: T, index: int)
    requires |a.items| <= CppInt.INT_MAX
    requires CppInt.IsInt(index)
    ensures AddAt(a, value, index).Success? <==> CppInt.ToSizeT(index) < |a.items| + 1
    ensures index < 0 ==> AddAt(a, value, index) == Failure(IndexOutOfBounds(index))
  {
    CppInt.SizeTComparisonRejectsNegatives(|a.items|, index);
  }

  /** `at(-1)` throws on every container: no "last element" shortcut. */
  lemma AtMinusOneFails<T>(a: Array<T>)
    ensures At(a, -1) == Failure(IndexOutOfBounds(-1))
    ensures Subscript(a, -1) == Failure(IndexOutOfBounds(-1))
  {
  }

  // ---------------------------------------------------------------------------
  // Element access and assignment

  /** Writing through `at(index)` and reading `at(index)` back gives the written value. */
  lemma AssignThenAt<T>(a: Array<T>, index: int, value: T, other: int)
    requires 0 <= index < |a.items|
    ensures AssignAt(a, index, value).Success?
    ensures At(AssignAt(a, index, value).value, index) == Success(value)
    ensures other != index ==> At(AssignAt(a, index, value).value, other) == At(a, other)
  {
    var b := AssignAt(a, index, value).value;
    if other != index && 0 <= other < |a.items| {
      assert b.items[other] == a.items[other];
    }
  }

  // ---------------------------------------------------------------------------
  // Insertion, removal, push and pop

  /** Inserting at position `size` is the same as appending. */
  lemma AddAtEndIsAdd<T>(a: Array<T>, value: T)
    ensures AddAt(a, value, |a.items|) == Success(Add(a, value))
  {
    var n := |a.items|;
    assert a.items[..n] + [value] + a.items[n..] == a.items + [value];
    assert AddAt(a, value, n).value.items == Add(a, value).items;
  }

  /** `removeAt(index)` undoes `add(value, index)`. */
  lemma RemoveAtUndoesAddAt<T>(a: Array<T>, value: T, index: int)
    requires 0 <= index <= |a.items|
    ensures AddAt(a, value, index).Success?
    ensures RemoveAt(AddAt(a, value, index).value, index) == a
  {
    var b := AddAt(a, value, index).value;
    assert b.items == a.items[..index] + [value] + a.items[index..];
    assert b.items[..index] + b.items[index + 1..] == a.items[..index] + a.items[index..];
    assert a.items[..index] + a.items[index..] == a.items;
  }

  /** Putting the removed element back where it was restores the container. */
  lemma AddAtUndoesRemoveAt<T>(a: Array<T>, index: int)
    requires 0 <= index < |a.items|
    ensures AddAt(RemoveAt(a, index), a.items[index], index) == Success(a)
  {
    var b := RemoveAt(a, index);
    assert b.items == a.items[..index] + a.items[index + 1..];
    assert b.items[..index] == a.items[..index];
    assert b.items[index..] == a.items[index + 1..];
    assert a.items[..index] + [a.items[index]] + a.items[index + 1..] == a.items;
  }

  /** `push(v)` then `pop(true)` hands back `v` and restores the container. */
  lemma PushThenPop<T>(a: Array<T>, value: T)
    ensures Pop(Push(a, value), true) == Popped(a, Some(value))
  {
    var b := Push(a, value);
    assert b.items[..|b.items| - 1] == a.items;
  }

  /** `pop` then `push` of the popped element restores a non-empty container. */
  lemma PopThenPush<T>(a: Array<T>)
    requires |a.items| > 0
    ensures Push(Pop(a, false).rest, a.items[|a.items| - 1]) == a
  {
    var rest := Pop(a, false).rest;
    assert rest.items + [a.items[|a.items| - 1]] == a.items;
  }

  /** `pop` removes the same element whether or not it is asked to hand it back. */
  lemma PopIgnoresReturnValueForContents<T>(a: Array<T>)
    requires |a.items| > 0
    ensures Pop(a, true).rest == Pop(a, false).rest
    ensures Pop(a, false).value == None
  {
  }

  // ---------------------------------------------------------------------------
  // Conversion and bulk appends

  /** `FromVector(toVector(x))` is `x`, and the other way round. */
  lemma VectorRoundTrip<T>(a: Array<T>, v: seq<T>)
    ensures FromVector(ToVector(a)) == a
    ensures ToVector(FromVector(v)) == v
  {
  }

  /**
   The three bulk `add` overloads agree: adding a list item by item, adding a
   vector, and adding an Array built from the same items all give one result.
   */
  lemma AddOverloadsAgree<T>(a: Array<T>, items: seq<T>)
    ensures AddList(a, items) == AddVector(a, items)
    ensures AddArray(a, FromList(items)) == AddVector(a, items)
    ensures AddArray(a, FromVector(items)) == AddVector(a, items)
  {
  }

  /** The initializer-list constructor is the vector constructor on the same items. */
  lemma FromListIsFromVector<T>(items: seq<T>)
    ensures FromList(items) == FromVector(items)
  {
  }

  // ---------------------------------------------------------------------------
  // Clearing

  /**
   `removeAll(x)` clears everything whatever `x` is, so it does not depend on
   its argument at all.
   */
  lemma RemoveAllIgnoresArgument<T>(a: Array<T>, x: T, y: T)
    ensures RemoveAll(a, x) == RemoveAll(a, y)
    ensures RemoveAll(a, x) == Clear(a) == Empty()
  {
  }

  /** `[1, 2, 3].removeAll(x)` is empty for every `x`, present or not. */
  lemma RemoveAllExample(x: int)
    ensures RemoveAll(FromList([1, 2, 3]), x).items == []
  {
  }

  // ---------------------------------------------------------------------------
  // Slicing

  /** `getPartialArray(0)` is an exact copy. */
  lemma PartialFromZeroIsCopy<T>(a: Array<T>)
    ensures GetPartialArray(a, 0) == Success(a)
  {
    assert a.items[0..] == a.items;
  }

  /** `getPartialArray(-1)` is the last element alone. */
  lemma PartialFromMinusOneIsLast<T>(a: Array<T>)
    requires |a.items| > 0
    ensures GetPartialArray(a, -1) == Success(Array([a.items[|a.items| - 1]]))
  {
    assert a.items[|a.items| - 1..] == [a.items[|a.items| - 1]];
  }

  /** Starting exactly at the end is accepted and gives an empty container. */
  lemma PartialFromEndIsEmpty<T>(a: Array<T>)
    ensures GetPartialArray(a, |a.items|) == Success(Empty())
  {
  }

  /** Starting past the end throws, however it is reached. */
  lemma PartialBeyondEndFails<T>(a: Array<T>, start: int, count: int)
    requires start > |a.items|
    ensures GetPartialArray(a, start) == Failure(StartingBeyondSize)
    ensures GetPartialArrayCount(a, start, count) == Failure(StartingBeyondSize)
  {
  }

  /**
   A range running past the end throws even when the normalised start is still
   negative: the overrun check comes before any iterator is built.
   */
  lemma PartialOverrunFails<T>(a: Array<T>, start: int, count: int)
    requires count >= 0
    requires NormalizedStart(|a.items|, start) + count > |a.items|
    ensures PartialRangeDefined(|a.items|, start, count)
    ensures GetPartialArrayCount(a, start, count) == Failure(StartingBeyondSize)
  {
  }

  /** `[1, 2, 3].getPartialArray(-5, 10)`: the start becomes -2, and 8 > 3 throws. */
  lemma PartialNegativeStartOverrunExample()
    ensures PartialRangeDefined(3, -5, 10)
    ensures GetPartialArrayCount(FromList([1, 2, 3]), -5, 10) == Failure(StartingBeyondSize)
  {
  }

  /**
   The counted form with the count that reaches exactly the end agrees with the
   one-argument form, for every start the one-argument form accepts, negative
   starts included.
   */
  lemma PartialCountToEndMatchesPartial<T>(a: Array<T>, start: int)
    requires 0 <= NormalizedStart(|a.items|, start) <= |a.items|
    ensures var count := |a.items| - NormalizedStart(|a.items|, start);
      GetPartialArrayCount(a, start, count) == GetPartialArray(a, start)
  {
  }

  /**
   A negative count stops that many elements before the end: `(start, -m)`
   gives the same elements as `(start, size - start - m)`.
   */
  lemma NegativeCountCountsFromEnd<T>(a: Array<T>, start: int, m: int)
    requires 0 <= start && 0 < m && start + m <= |a.items|
    ensures PartialRangeDefined(|a.items|, start, -m)
    ensures GetPartialArrayCount(a, start, -m) == GetPartialArrayCount(a, start, |a.items| - start - m)
    ensures GetPartialArrayCount(a, start, -m) == Success(Array(a.items[start..|a.items| - m]))
  {
  }

  /** `["a", "b", "c"].getPartialArray(1, -1)` is `["b"]`. */
  lemma PartialCountExample()
    ensures GetPartialArrayCount(FromList(["a", "b", "c"]), 1, -1) == Success(FromList(["b"]))
  {
  }

  // ---------------------------------------------------------------------------
  // Search and membership

  /** `contains` holds exactly when `containsCount` is positive. */
  lemma ContainsIffPositiveCount<T>(a: Array<T>, value: T)
    ensures Contains(a, value) <==> ContainsCount(a, value) > 0
  {
    if Contains(a, value) {
      var k :| 0 <= k < |a.items| && a.items[k] == value;
      assert value in multiset(a.items);
    } else {
      assert value !in multiset(a.items);
    }
  }

  /** An absent value is reported at the end position by `indexOf` and at -1 by `lastIndexOf`. */
  lemma AbsentValueSentinels<T>(a: Array<T>, value: T)
    requires |a.items| <= CppInt.INT_MAX
    requires !Contains(a, value)
    ensures IndexOf(a, value) == Size(a)
    ensures LastIndexOf(a, value) == -1
    ensures ContainsCount(a, value) == 0
  {
    assert value !in a.items;
    assert value !in multiset(a.items);
  }

  /** A present value's first occurrence is no later than its last. */
  lemma FirstNotAfterLast<T>(a: Array<T>, value: T)
    requires |a.items| <= CppInt.INT_MAX
    requires Contains(a, value)
    ensures 0 <= IndexOf(a, value) <= LastIndexOf(a, value)
  {
  }

  /** A value that occurs exactly once is found at the same place from either end. */
  lemma SingleOccurrenceFoundFromBothEnds<T>(a: Array<T>, value: T)
    requires |a.items| <= CppInt.INT_MAX
    requires ContainsCount(a, value) == 1
    ensures IndexOf(a, value) == LastIndexOf(a, value)
  {
    assert value in multiset(a.items);
    var i := IndexOf(a, value);
    var j := LastIndexOf(a, value);
    if i != j {
      TwoPositionsCountTwice(a.items, value, i, j);
    }
  }

  /** A value held at two different positions occurs at least twice. */
  lemma TwoPositionsCountTwice<T>(s: seq<T>, value: T, i: int, j: int)
    requires 0 <= i < j < |s|
    requires s[i] == value && s[j] == value
    ensures multiset(s)[value] >= 2
  {
    assert s == s[..j] + s[j..];
    assert s[..j][i] == value;
    assert value in multiset(s[..j]);
    assert s[j..][0] == value;
    assert value in multiset(s[j..]);
    assert multiset(s) == multiset(s[..j]) + multiset(s[j..]);
  }

  // ---------------------------------------------------------------------------
  // Ordering

  /** Reversing twice gives back the original container. */
  lemma ReverseInvolution<T>(a: Array<T>)
    ensures Reverse(Reverse(a)) == a
  {
    var r := Reverse(Reverse(a));
    assert forall k :: 0 <= k < |a.items| ==> r.items[k] == a.items[k];
  }

  /**
   `sort()` is determined up to elements with equal texts: any rearrangement of
   the same elements whose texts ascend lists exactly the texts `sort()` lists.
   */
  lemma SortDeterminesKeys<T>(a: Array<T>, other: seq<T>, key: T -> string)
    requires multiset(other) == multiset(a.items)
    requires SortedBy(other, key)
    ensures |other| == |Sort(a, key).items|
    ensures forall k :: 0 <= k < |other| ==> key(other[k]) == key(Sort(a, key).items[k])
  {
    SortedKeysUnique(other, Sort(a, key).items, key);
  }

  /** `reverseSort()` lists the texts of `sort()` back to front. */
  lemma ReverseSortIsSortReversed<T>(a: Array<T>, key: T -> string)
    ensures |ReverseSort(a, key).items| == |a.items|
    ensures forall k :: 0 <= k < |a.items| ==>
      key(ReverseSort(a, key).items[k]) == key(Sort(a, key).items[|a.items| - 1 - k])
  {
    DescendingMirrorsAscending(ReverseSort(a, key).items, Sort(a, key).items, key);
  }

  /**
   A descending and an ascending arrangement of the same elements list the
   same texts in opposite orders.
   */
  lemma DescendingMirrorsAscending<T>(desc: seq<T>, asc: seq<T>, key: T -> string)
    requires multiset(desc) == multiset(asc)
    requires ReverseSortedBy(desc, key) && SortedBy(asc, key)
    ensures |desc| == |asc|
    ensures forall k :: 0 <= k < |desc| ==> key(desc[k]) == key(asc[|desc| - 1 - k])
  {
    var back := Reversed(desc);
    ReversedSortedAscends(desc, key);
    ReversedSameMultiset(desc);
    SortedKeysUnique(back, asc, key);
    forall k | 0 <= k < |desc| ensures key(desc[k]) == key(asc[|desc| - 1 - k]) {
      assert back[|desc| - 1 - k] == desc[k];
    }
  }

  /** Reversing a descending arrangement makes it ascend. */
  lemma ReversedSortedAscends<T>(s: seq<T>, key: T -> string)
    requires ReverseSortedBy(s, key)
    ensures SortedBy(Reversed(s), key)
  {
    var r := Reversed(s);
    var n := |s|;
    forall i, j | 0 <= i < j < n ensures LessEq(key(r[i]), key(r[j])) {
      assert r[i] == s[n - 1 - i] && r[j] == s[n - 1 - j];
    }
  }

  /**
   The scenario `[3, 1, 2].sort()`, with elements whose texts are "3", "1" and
   "2", gives `[1, 2, 3]`.
   */
  lemma SortExample(a: Array<int>, key: int -> string)
    requires a.items == [3, 1, 2]
    requires key(1) == "1" && key(2) == "2" && key(3) == "3"
    ensures Sort(a, key).items == [1, 2, 3]
  {
    AscendingArrangementOf312(Sort(a, key).items, key);
  }

  /** The same scenario with `reverseSort()` gives `[3, 2, 1]`. */
  lemma ReverseSortExample(a: Array<int>, key: int -> string)
    requires a.items == [3, 1, 2]
    requires key(1) == "1" && key(2) == "2" && key(3) == "3"
    ensures ReverseSort(a, key).items == [3, 2, 1]
  {
    DescendingArrangementOf312(ReverseSort(a, key).items, key);
  }

  /** The texts "1", "2", "3" ascend. */
  lemma OneTwoThreeAscend(key: int -> string)
    requires key(1) == "1" && key(2) == "2" && key(3) == "3"
    ensures SortedBy([1, 2, 3], key)
  {
    var e := [1, 2, 3];
    assert Less("1", "2") && Less("2", "3") && Less("1", "3");
    forall i, j | 0 <= i < j < 3 ensures LessEq(key(e[i]), key(e[j])) {
      assert key(e[i]) == ["1", "2", "3"][i] && key(e[j]) == ["1", "2", "3"][j];
    }
  }

  /** Every element of an arrangement of 3, 1 and 2 is one of them. */
  lemma ElementOf312(s: seq<int>, k: int)
    requires multiset(s) == multiset([3, 1, 2])
    requires 0 <= k < |s|
    ensures s[k] == 1 || s[k] == 2 || s[k] == 3
  {
    assert s[k] in multiset(s);
  }

  /** The only arrangement of 3, 1 and 2 whose texts ascend is `[1, 2, 3]`. */
  lemma AscendingArrangementOf312(sorted: seq<int>, key: int -> string)
    requires multiset(sorted) == multiset([3, 1, 2])
    requires SortedBy(sorted, key)
    requires key(1) == "1" && key(2) == "2" && key(3) == "3"
    ensures sorted == [1, 2, 3]
  {
    var expected := [1, 2, 3];
    SameElements123();
    OneTwoThreeAscend(key);
    SortedKeysUnique(sorted, expected, key);
    forall k | 0 <= k < 3 ensures sorted[k] == expected[k] {
      ElementOf312(sorted, k);
      TextIdentifiesElement(sorted[k], expected[k], key);
    }
  }

  lemma SameElements123()
    ensures multiset([1, 2, 3]) == multiset([3, 1, 2])
  {
  }

  /** Among 1, 2 and 3, the text tells the element. */
  lemma TextIdentifiesElement(x: int, y: int, key: int -> string)
    requires key(1) == "1" && key(2) == "2" && key(3) == "3"
    requires x in {1, 2, 3} && y in {1, 2, 3}
    requires key(x) == key(y)
    ensures x == y
  {
    assert "1" != "2" && "1" != "3" && "2" != "3";
  }

  /** The only arrangement of 3, 1 and 2 whose texts descend is `[3, 2, 1]`. */
  lemma DescendingArrangementOf312(desc: seq<int>, key: int -> string)
    requires multiset(desc) == multiset([3, 1, 2])
    requires ReverseSortedBy(desc, key)
    requires key(1) == "1" && key(2) == "2" && key(3) == "3"
    ensures desc == [3, 2, 1]
  {
    var asc := Reversed(desc);
    ReversedSortedAscends(desc, key);
    ReversedSameMultiset(desc);
    AscendingArrangementOf312(asc, key);
    assert |desc| == 3;
    assert desc[0] == asc[2] && desc[1] == asc[1] && desc[2] == asc[0];
  }
}
