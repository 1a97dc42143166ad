/**
 Model of `simplex::Array<T>` (include/Array.hpp): a value-semantic ordered
 container over a contiguous vector. Each member function of the class maps
 the old container (and the call's arguments) to the new container or to the
 value the call returns: most as pure functions, `remove` and the `char*[]`
 constructor as methods whose loops follow the C++ loops. A thrown
 `IndexOutOfBoundsException` becomes a `Failure` result. Behaviour the C++
 leaves undefined becomes a `requires`, with two exceptions: the missing
 `return` of `pop(false)` is given its evident intent (see `Pop`), and signed
 `int` overflow in the slicing arithmetic is replaced by evaluation on
 unbounded integers.
 */
module SimplexArray {
  import CppInt

  /**
   The one exception class the container throws, `IndexOutOfBoundsException`.
   Element access and positional insertion name the offending index in the
   message; the two slicing operations raise it with a fixed message and no index.
   */
  datatype Error =
    | IndexOutOfBounds(index: int)
    | StartingBeyondSize

  datatype Option<+T> = None | Some(value: T)

  /** Either the value an operation produced or the exception it threw. */
  datatype Result<+R> = Success(value: R) | Failure(error: Error)

  /** The container: its live elements, in order, at positions `0 .. |items| - 1`. */
  datatype Array<T> = Array(items: seq<T>)

  /** What `pop` leaves behind, and the element it hands back when asked to. */
  datatype Popped<T> = Popped(rest: Array<T>, value: Option<T>)

  // ---------------------------------------------------------------------------
  // Construction and conversion

  /** The default constructor: an empty container. */
  function Empty<T>(): (r: Array<T>)
    ensures |r.items| == 0
  {
    Array([])
  }

  /** Wraps a vector, keeping every element in its place (`Array(std::vector)` and `FromVector`). */
  function FromVector<T>(vectorObject: seq<T>): (r: Array<T>)
    ensures |r.items| == |vectorObject|
    ensures forall k :: 0 <= k < |vectorObject| ==> r.items[k] == vectorObject[k]
  {
    Array(vectorObject)
  }

  /** The vector the container holds, element for element (`toVector`). */
  function ToVector<T>(a: Array<T>): (r: seq<T>)
    ensures |r| == |a.items|
    ensures forall k :: 0 <= k < |a.items| ==> r[k] == a.items[k]
  {
    a.items
  }

  /** The initializer-list constructor: `add` of each listed value, in order, to an empty container. */
  function FromList<T>(iList: seq<T>): (r: Array<T>)
    ensures r.items == iList
  {
    AddList(Empty(), iList)
  }

  /**
   The `(int arraySize, char* characterArray[])` constructor: one text element
   per entry, for the first `arraySize` entries, in order. Reading past the
   supplied entries is undefined, so the caller must supply at least
   `arraySize` of them; a non-positive `arraySize` gives an empty container.
   */
  method FromCharArray(arraySize: int, characterArray: seq<string>) returns (r: Array<string>)
    requires arraySize <= |characterArray|
    ensures |r.items| == if arraySize < 0 then 0 else arraySize
    ensures forall k :: 0 <= k < |r.items| ==> r.items[k] == characterArray[k]
  {
    r := Empty();
    var i := 0;
    while i < arraySize
      invariant 0 <= i <= if arraySize < 0 then 0 else arraySize
      invariant r.items == characterArray[..i]
    {
      r := Add(r, characterArray[i]);
      i := i + 1;
    }
  }

  // ---------------------------------------------------------------------------
  // Element access

  /**
   `at(index)`: the element at `index`, or `IndexOutOfBounds(index)` when
   `index` is negative or not below the size. Negative indices do not count
   from the end.
   */
  function At<T>(a: Array<T>, index: int): (r: Result<T>)
    ensures r.Success? <==> 0 <= index < |a.items|
    ensures r.Success? ==> r.value == a.items[index]
    ensures r.Failure? ==> r.error == IndexOutOfBounds(index)
  {
    if 0 <= index < |a.items| then Success(a.items[index]) else Failure(IndexOutOfBounds(index))
  }

  /** `operator[]`: delegates to `at`, with the same bounds check and the same error. */
  function Subscript<T>(a: Array<T>, index: int): (r: Result<T>)
    ensures r == At(a, index)
    ensures r.Success? <==> 0 <= index < |a.items|
  {
    At(a, index)
  }

  /**
   Assignment through the reference the mutable `at` (or `operator[]`) returns:
   the element at `index` becomes `value`, or the access throws before anything
   changes.
   */
  function AssignAt<T>(a: Array<T>, index: int, value: T): (r: Result<Array<T>>)
    ensures r.Success? <==> 0 <= index < |a.items|
    ensures r.Failure? ==> r.error == IndexOutOfBounds(index)
    ensures r.Success? ==> |r.value.items| == |a.items| && r.value.items[index] == value
    ensures r.Success? ==> forall k :: 0 <= k < |a.items| && k != index ==> r.value.items[k] == a.items[k]
  {
    if 0 <= index < |a.items| then Success(Array(a.items[index := value]))
    else Failure(IndexOutOfBounds(index))
  }

  /** `size()`: the number of live elements, duplicates included. */
  function Size<T>(a: Array<T>): (r: nat)
    ensures r == |multiset(a.items)|
  {
    |a.items|
  }

  // ---------------------------------------------------------------------------
  // Structural mutation

  /** `add(value)`: appends `value` after the existing elements, which stay in place. */
  function Add<T>(a: Array<T>, value: T): (r: Array<T>)
    ensures |r.items| == |a.items| + 1
    ensures r.items[..|a.items|] == a.items
    ensures r.items[|a.items|] == value
  {
    Array(a.items + [value])
  }

  /** `push(value)`: the same as `add(value)`. */
  function Push<T>(a: Array<T>, value: T): (r: Array<T>)
    ensures r == Add(a, value)
  {
    Add(a, value)
  }

  /**
   `add(value, index)`: inserts `value` so that it becomes the element at
   `index`, shifting the later elements one place right. Valid positions are
   `0 .. size` (inserting at `size` appends); anything else, negative indices
   included, throws `IndexOutOfBounds(index)` and changes nothing.
   */
  function AddAt<T>(a: Array<T>, value: T, index: int): (r: Result<Array<T>>)
    ensures r.Success? <==> 0 <= index <= |a.items|
    ensures r.Failure? ==> r.error == IndexOutOfBounds(index)
    ensures r.Success? ==>
      && |r.value.items| == |a.items| + 1
      && r.value.items[index] == value
      && r.value.items[..index] == a.items[..index]
      && r.value.items[index + 1..] == a.items[index..]
  {
    if 0 <= index <= |a.items| then
      Success(Array(a.items[..index] + [value] + a.items[index..]))
    else
      Failure(IndexOutOfBounds(index))
  }

  /** `add(initializer_list)`: `add(item)` for each item, in order. */
  function AddList<T>(a: Array<T>, iList: seq<T>): (r: Array<T>)
    ensures r.items == a.items + iList
    decreases |iList|
  {
    if |iList| == 0 then a
    else
      var r := AddList(Add(a, iList[0]), iList[1..]);
      assert a.items + iList == (a.items + [iList[0]]) + iList[1..];
      r
  }

  /** `add(Array)`: appends the other container's elements after the existing ones, in order. */
  function AddArray<T>(a: Array<T>, arrayValues: Array<T>): (r: Array<T>)
    ensures |r.items| == |a.items| + |arrayValues.items|
    ensures r.items[..|a.items|] == a.items
    ensures r.items[|a.items|..] == arrayValues.items
  {
    Array(a.items + arrayValues.items)
  }

  /** `add(std::vector)`: appends the vector's elements after the existing ones, in order. */
  function AddVector<T>(a: Array<T>, arrayValues: seq<T>): (r: Array<T>)
    ensures |r.items| == |a.items| + |arrayValues|
    ensures r.items[..|a.items|] == a.items
    ensures r.items[|a.items|..] == arrayValues
  {
    Array(a.items + arrayValues)
  }

  /** `clear()`: no elements remain. */
  function Clear<T>(a: Array<T>): (r: Array<T>)
    ensures |r.items| == 0
  {
    Array([])
  }

  /**
   `removeAll(value)`: despite its name, it clears the whole container and never
   looks at `value`.
   */
  function RemoveAll<T>(a: Array<T>, value: T): (r: Array<T>)
    ensures r == Clear(a)
    ensures |r.items| == 0
  {
    Array([])
  }

  /**
   `removeAt(index)`: the element at `index` is gone and the later ones move one
   place left. There is no bounds check; an index outside the container is
   undefined behaviour, so the caller must supply a valid one.
   */
  function RemoveAt<T>(a: Array<T>, index: int): (r: Array<T>)
    requires 0 <= index < |a.items|
    ensures |r.items| == |a.items| - 1
    ensures forall k :: 0 <= k < index ==> r.items[k] == a.items[k]
    ensures forall k :: index <= k < |r.items| ==> r.items[k] == a.items[k + 1]
    ensures multiset(r.items) + multiset{a.items[index]} == multiset(a.items)
  {
    assert a.items == a.items[..index] + [a.items[index]] + a.items[index + 1..];
    Array(a.items[..index] + a.items[index + 1..])
  }

  /**
   `pop(returnValue)`: the last element is removed; with `returnValue` it is also
   handed back. An empty container is excluded: with `returnValue` the C++
   throws `std::out_of_range` from `at(size() - 1)`, without it `pop_back` is
   undefined behaviour. Without `returnValue` the C++ function flows off the end
   of a non-void function, which is undefined behaviour on every `pop(false)`
   call; the model gives the call its evident intent: remove the last element
   and hand back nothing (`None`). As in the C++ declaration, `returnValue`
   defaults to false, so `pop()` is `pop(false)`.
   */
  function Pop<T>(a: Array<T>, returnValue: bool := false): (r: Popped<T>)
    requires |a.items| > 0
    ensures |r.rest.items| == |a.items| - 1
    ensures r.rest.items == a.items[..|a.items| - 1]
    ensures r.value.Some? <==> returnValue
    ensures r.value.Some? ==> r.value.value == a.items[|a.items| - 1]
  {
    var last := a.items[|a.items| - 1];
    Popped(Array(a.items[..|a.items| - 1]), if returnValue then Some(last) else None)
  }

  /**
   `remove(value)`: scans from the front and erases the first element equal to
   `value`; a container without `value` is returned unchanged.
   */
  method Remove<T(==)>(a: Array<T>, value: T) returns (r: Array<T>)
    ensures value !in a.items ==> r == a
    ensures value in a.items ==> r == RemoveAt(a, IndexOf(a, value))
    ensures multiset(r.items) == multiset(a.items) - multiset{value}
  {
    r := a;
    var arraySize := |a.items|;
    var loop := 0;
    while loop < arraySize
      invariant 0 <= loop <= arraySize
      invariant forall k :: 0 <= k < loop ==> a.items[k] != value
    {
      if a.items[loop] == value {
        r := RemoveAt(a, loop);
        return;
      }
      loop := loop + 1;
    }
  }

  /** `reserveSpace(n)`: a capacity hint; the contents are exactly as before. */
  function ReserveSpace<T>(a: Array<T>, spaceToReserve: nat): (r: Array<T>)
    ensures r == a
  {
    a
  }

  // ---------------------------------------------------------------------------
  // Slicing (`getPartialArray`)

  /** A negative slice start counts back from the end. */
  function NormalizedStart(arraySize: int, start: int): int {
    if start < 0 then arraySize + start else start
  }

  /** A negative count means "stop that many elements before the end", measured from the normalised start. */
  function NormalizedCount(arraySize: int, start: int, count: int): int {
    if count < 0 then arraySize - start + count else count
  }

  /**
   The C++ is defined when one of its two throws fires (a normalised start
   beyond the end, or a range running past the end), or else when both the
   normalised start and the normalised count are not negative; otherwise it
   builds an iterator before `begin()` or a range that ends before it starts.
   */
  predicate PartialRangeDefined(arraySize: int, start: int, count: int) {
    var s := NormalizedStart(arraySize, start);
    var c := NormalizedCount(arraySize, s, count);
    s > arraySize || s + c > arraySize || (s >= 0 && c >= 0)
  }

  /**
   `getPartialArray(start)`: a fresh container holding the elements from the
   normalised start to the end; a start beyond the end throws.
   */
  function GetPartialArray<T>(a: Array<T>, start: int): (r: Result<Array<T>>)
    requires NormalizedStart(|a.items|, start) >= 0
    ensures var s := NormalizedStart(|a.items|, start);
      && (r.Success? <==> s <= |a.items|)
      && (r.Failure? ==> r.error == StartingBeyondSize)
      && (r.Success? ==>
            && |r.value.items| == |a.items| - s
            && forall k :: 0 <= k < |r.value.items| ==> r.value.items[k] == a.items[s + k])
  {
    var arraySize := |a.items|;
    var s := NormalizedStart(arraySize, start);
    if s > arraySize then Failure(StartingBeyondSize)
    else Success(Array(a.items[s..]))
  }

  /**
   `getPartialArray(start, count)`: a fresh container holding `count` elements
   from the normalised start, both normalised first. A start beyond the end, or
   a range running past the end, throws. A range ending exactly at the end is
   copied up to `end()`, any other up to `start + count`.
   */
  function GetPartialArrayCount<T>(a: Array<T>, start: int, count: int): (r: Result<Array<T>>)
    requires PartialRangeDefined(|a.items|, start, count)
    ensures var s := NormalizedStart(|a.items|, start);
            var c := NormalizedCount(|a.items|, s, count);
      && (r.Success? <==> s <= |a.items| && s + c <= |a.items|)
      && (r.Failure? ==> r.error == StartingBeyondSize)
      && (r.Success? ==>
            && |r.value.items| == c
            && forall k :: 0 <= k < c ==> r.value.items[k] == a.items[s + k])
  {
    var arraySize := |a.items|;
    var s := NormalizedStart(arraySize, start);
    var c := NormalizedCount(arraySize, s, count);
    if s > arraySize then Failure(StartingBeyondSize)
    else if s + c > arraySize then Failure(StartingBeyondSize)
    else if s + c == arraySize then Success(Array(a.items[s..]))
    else Success(Array(a.items[s..s + c]))
  }

  // ---------------------------------------------------------------------------
  // Search and membership

  /**
   `std::find` over a sequence: the position of the first element equal to
   `value`, or the end position `|s|` when there is none.
   */
  function Find<T(==)>(s: seq<T>, value: T): (r: nat)
    ensures r <= |s|
    ensures r < |s| ==> s[r] == value
    ensures forall k :: 0 <= k < r ==> s[k] != value
  {
    if |s| == 0 then 0
    else if s[0] == value then 0
    else 1 + Find(s[1..], value)
  }

  /** `std::count` over a sequence: how many elements equal `value`. */
  function CountOf<T(==)>(s: seq<T>, value: T): (r: nat)
    ensures r == multiset(s)[value]
  {
    if |s| == 0 then 0
    else
      assert s == [s[0]] + s[1..];
      (if s[0] == value then 1 else 0) + CountOf(s[1..], value)
  }

  /** `contains(value)`: whether `find` stops before the end. */
  function Contains<T(==)>(a: Array<T>, value: T): (r: bool)
    ensures r <==> exists k :: 0 <= k < |a.items| && a.items[k] == value
  {
    Find(a.items, value) != |a.items|
  }

  /** `containsCount(value)`: the number of elements equal to `value`. */
  function ContainsCount<T(==)>(a: Array<T>, value: T): (r: nat)
    ensures r == multiset(a.items)[value]
  {
    CountOf(a.items, value)
  }

  /**
   `indexOf(value)`: the smallest position holding `value`, or the size of the
   container (the end position, not -1) when `value` is absent.
   */
  function IndexOf<T(==)>(a: Array<T>, value: T): (r: nat)
    ensures r <= |a.items|
    ensures r == |a.items| <==> value !in a.items
    ensures r < |a.items| ==> a.items[r] == value
    ensures forall k :: 0 <= k < r ==> a.items[k] != value
  {
    Find(a.items, value)
  }

  /**
   `lastIndexOf(value)`: searches the reversed vector, then computes
   `size - distance - 1` in `size_t` and converts it to `int`. When `value` is
   absent the distance is the size, the subtraction wraps to the largest
   `size_t`, and the conversion yields -1. The container's size must fit in an
   `int`.
   */
  function LastIndexOf<T(==)>(a: Array<T>, value: T): (r: int)
    requires |a.items| <= CppInt.INT_MAX
    ensures -1 <= r < |a.items|
    ensures r == -1 <==> value !in a.items
    ensures r >= 0 ==> a.items[r] == value
    ensures forall k :: r < k < |a.items| ==> a.items[k] != value
  {
    var n := |a.items|;
    var rev := Reversed(a.items);
    var indexFromEnd := Find(rev, value);
    var r := CppInt.ToInt(CppInt.ToSizeT(n - indexFromEnd - 1));
    FindReversed(a.items, value, rev, indexFromEnd);
    if indexFromEnd == n then
      CppInt.ToIntOfMaxSizeT();
      assert r == -1;
      r
    else
      CppInt.ToIntOfSmall(n - indexFromEnd - 1);
      assert r == n - indexFromEnd - 1;
      r
  }

  /**
   Searching the reversed sequence `rev` from its front finds the last
   occurrence in `s`: the distance `d` it reports is the number of elements
   after that occurrence, or `|s|` when there is none.
   */
  lemma FindReversed<T>(s: seq<T>, value: T, rev: seq<T>, d: nat)
    requires rev == Reversed(s)
    requires d == Find(rev, value)
    ensures d == |s| <==> value !in s
    ensures d < |s| ==> s[|s| - 1 - d] == value
    ensures forall k :: |s| - 1 - d < k < |s| ==> s[k] != value
  {
    FindReversedAfter(s, value, rev, d);
    if d < |s| {
      assert rev[d] == s[|s| - 1 - d];
    }
  }

  lemma FindReversedAfter<T>(s: seq<T>, value: T, rev: seq<T>, d: nat)
    requires rev == Reversed(s)
    requires d == Find(rev, value)
    ensures forall k :: |s| - 1 - d < k < |s| ==> s[k] != value
  {
    forall k | |s| - 1 - d < k < |s| ensures s[k] != value {
      FindReversedAt(s, value, rev, d, k);
    }
  }

  /** One position after the last occurrence: the reversed search passed over it. */
  lemma FindReversedAt<T>(s: seq<T>, value: T, rev: seq<T>, d: nat, k: int)
    requires rev == Reversed(s)
    requires d == Find(rev, value)
    requires |s| - 1 - d < k < |s|
    ensures s[k] != value
  {
    assert rev[|s| - 1 - k] == s[k];
  }

  // ---------------------------------------------------------------------------
  // Ordering

  /** `std::reverse` over a sequence: position `k` receives the element at `|s| - 1 - k`. */
  function Reversed<T>(s: seq<T>): (r: seq<T>)
    ensures |r| == |s|
    ensures forall k :: 0 <= k < |s| ==> r[k] == s[|s| - 1 - k]
  {
    if |s| == 0 then [] else Reversed(s[1..]) + [s[0]]
  }

  /** `reverse()`: the elements in the opposite order, each one kept. */
  function Reverse<T>(a: Array<T>): (r: Array<T>)
    ensures |r.items| == |a.items|
    ensures forall k :: 0 <= k < |a.items| ==> r.items[k] == a.items[|a.items| - 1 - k]
    ensures multiset(r.items) == multiset(a.items)
  {
    ReversedSameMultiset(a.items);
    Array(Reversed(a.items))
  }

  /** Reversing keeps every element and its multiplicity. */
  lemma {:induction false} ReversedSameMultiset<T>(s: seq<T>)
    ensures multiset(Reversed(s)) == multiset(s)
  {
    if |s| > 0 {
      ReversedSameMultiset(s[1..]);
      assert s == [s[0]] + s[1..];
      assert Reversed(s) == Reversed(s[1..]) + [s[0]];
    }
  }
}
