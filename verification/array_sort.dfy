/**
 `sort()` and `reverseSort()` of `simplex::Array<T>`. The C++ hands
 `std::sort` a comparator (`sorter`) that converts both elements to
 `std::string` and compares the texts with `operator<`. The conversion is
 outside this model and appears as the parameter `key`. `std::sort` is not
 stable, so nothing is promised about the relative order of elements whose
 keys are equal: the result is some permutation whose keys are in order.
 */
module ArraySort {
  import opened LexOrder
  import opened SimplexArray

  /** Keys never decrease from left to right. */
  predicate SortedBy<T>(s: seq<T>, key: T -> string) {
    forall i, j :: 0 <= i < j < |s| ==> LessEq(key(s[i]), key(s[j]))
  }

  /** Keys never increase from left to right. */
  predicate ReverseSortedBy<T>(s: seq<T>, key: T -> string) {
    forall i, j :: 0 <= i < j < |s| ==> LessEq(key(s[j]), key(s[i]))
  }

  /**
   `sorter`: whether the first element's text comes strictly before the
   second's, that is, the texts first differ at a smaller character of the
   first text, or the first text is a proper prefix of the second. It never
   holds in both directions, as `std::sort` requires of its comparator.
   */
  function Sorter<T>(key: T -> string, type1: T, type2: T): (r: bool)
    ensures r <==> DiffersFirstBelow(key(type1), key(type2))
    ensures r ==> !Less(key(type2), key(type1))
  {
    LessIffDiffersFirstBelow(key(type1), key(type2));
    LessAsymmetric(key(type1), key(type2));
    Less(key(type1), key(type2))
  }

  /** Every element of `s` has a key no smaller than `lo`. */
  predicate KeysAtLeast<T>(s: seq<T>, key: T -> string, lo: string) {
    forall j :: 0 <= j < |s| ==> LessEq(lo, key(s[j]))
  }

  /** Bounds on the keys carry over to any rearrangement of the same elements. */
  lemma KeysAtLeastPermutation<T>(s: seq<T>, t: seq<T>, key: T -> string, lo: string)
    requires multiset(s) == multiset(t)
    requires KeysAtLeast(s, key, lo)
    ensures KeysAtLeast(t, key, lo)
  {
    forall j | 0 <= j < |t| ensures LessEq(lo, key(t[j])) {
      assert t[j] in multiset(t);
      var i :| 0 <= i < |s| && s[i] == t[j];
    }
  }

  /**
   Places `x` into a key-sorted sequence just before the first element whose key
   is not smaller than its own.
   */
  function InsertSorted<T>(x: T, s: seq<T>, key: T -> string): (r: seq<T>)
    requires SortedBy(s, key)
    ensures SortedBy(r, key)
    ensures multiset(r) == multiset(s) + multiset{x}
  {
    if |s| == 0 then [x]
    else if !Sorter(key, s[0], x) then
      LessEqIffNotLess(key(x), key(s[0]));
      ConsSorted(x, s, key);
      [x] + s
    else
      var tail := InsertSorted(x, s[1..], key);
      assert s == [s[0]] + s[1..];
      LessEqIffNotLess(key(s[0]), key(x));
      ConsAfterInsertSorted(x, s, tail, key);
      [s[0]] + tail
  }

  /** An element whose key is no larger than the head's can go in front. */
  lemma ConsSorted<T>(x: T, s: seq<T>, key: T -> string)
    requires |s| > 0 && SortedBy(s, key)
    requires LessEq(key(x), key(s[0]))
    ensures SortedBy([x] + s, key)
  {
    var r := [x] + s;
    forall i, j | 0 <= i < j < |r| ensures LessEq(key(r[i]), key(r[j])) {
      if i == 0 && j > 1 {
        LessEqTransitive(key(x), key(s[0]), key(s[j - 1]));
      }
    }
  }

  /**
   The head of a sorted sequence stays in front of the sorted insertion of a
   larger element into the rest.
   */
  lemma ConsAfterInsertSorted<T>(x: T, s: seq<T>, tail: seq<T>, key: T -> string)
    requires |s| > 0 && SortedBy(s, key) && SortedBy(tail, key)
    requires LessEq(key(s[0]), key(x))
    requires multiset(tail) == multiset(s[1..]) + multiset{x}
    ensures SortedBy([s[0]] + tail, key)
  {
    assert KeysAtLeast(s[1..] + [x], key, key(s[0]));
    KeysAtLeastPermutation(s[1..] + [x], tail, key, key(s[0]));
    var r := [s[0]] + tail;
    forall i, j | 0 <= i < j < |r| ensures LessEq(key(r[i]), key(r[j])) {
      if i > 0 {
        assert r[i] == tail[i - 1] && r[j] == tail[j - 1];
      }
    }
  }

  /** Insertion sort: a key-sorted permutation of `s`. */
  function SortSeq<T>(s: seq<T>, key: T -> string): (r: seq<T>)
    ensures SortedBy(r, key)
    ensures multiset(r) == multiset(s)
  {
    if |s| == 0 then []
    else
      assert s == [s[0]] + s[1..];
      InsertSorted(s[0], SortSeq(s[1..], key), key)
  }

  /** `sort()`: the same elements, with their texts in ascending order. */
  function Sort<T>(a: Array<T>, key: T -> string): (r: Array<T>)
    ensures multiset(r.items) == multiset(a.items)
    ensures SortedBy(r.items, key)
  {
    Array(SortSeq(a.items, key))
  }

  /** `reverseSort()`: `sort()` followed by `reverse()`, so texts descend. */
  function ReverseSort<T>(a: Array<T>, key: T -> string): (r: Array<T>)
    ensures multiset(r.items) == multiset(a.items)
    ensures ReverseSortedBy(r.items, key)
  {
    var sorted := Sort(a, key);
    ReversedSortedIsReverseSorted(sorted.items, key);
    Reverse(sorted)
  }

  lemma ReversedSortedIsReverseSorted<T>(s: seq<T>, key: T -> string)
    requires SortedBy(s, key)
    ensures ReverseSortedBy(Reversed(s), key)
  {
    var r := Reversed(s);
    var n := |s|;
    forall i, j | 0 <= i < j < n ensures LessEq(key(r[j]), key(r[i])) {
      assert r[j] == s[n - 1 - j];
      assert r[i] == s[n - 1 - i];
    }
  }

  /**
   The keys of a sorted arrangement are determined by the elements alone: two
   key-sorted sequences holding the same elements list the same keys in the same
   order. So `sort()` pins down the order of the texts completely, even though it
   leaves open which of several equal-text elements comes first.
   */
  lemma {:induction false} SortedKeysUnique<T>(p: seq<T>, q: seq<T>, key: T -> string)
    requires multiset(p) == multiset(q)
    requires SortedBy(p, key) && SortedBy(q, key)
    ensures |p| == |q|
    ensures forall k :: 0 <= k < |p| ==> key(p[k]) == key(q[k])
    decreases |p|
  {
    assert |p| == |multiset(p)| == |multiset(q)| == |q|;
    if |p| > 0 {
      assert p[0] in multiset(q);
      var i :| 0 <= i < |q| && q[i] == p[0];
      var q' := q[..i] + q[i + 1..];
      RemoveHeadAndMatch(p, q, i);
      RemovePreservesSorted(q, i, key);
      SortedKeysUnique(p[1..], q', key);
      HeadKeysAgree(p, q, i, key);
      ShiftedKeysAgree(p, q, i, key);
    }
  }

  /** Taking the first element off `p` and its match off `q` leaves equal multisets. */
  lemma RemoveHeadAndMatch<T>(p: seq<T>, q: seq<T>, i: nat)
    requires multiset(p) == multiset(q)
    requires 0 < |p| && i < |q| && q[i] == p[0]
    ensures multiset(p[1..]) == multiset(q[..i] + q[i + 1..])
  {
    assert p == [p[0]] + p[1..];
    assert q == q[..i] + [p[0]] + q[i + 1..];
    assert multiset(p[1..]) == multiset(p) - multiset{p[0]};
    assert multiset(q[..i] + q[i + 1..]) == multiset(q) - multiset{p[0]};
  }

  /**
   If `p` without its head and `q` without `q[i]` list the same keys, and the
   first `i + 1` elements of `q` all carry the key of `p[0]`, then `p` and `q`
   list the same keys.
   */
  lemma ShiftedKeysAgree<T>(p: seq<T>, q: seq<T>, i: nat, key: T -> string)
    requires 0 < |p| == |q| && i < |q|
    requires forall k :: 0 <= k <= i ==> key(q[k]) == key(p[0])
    requires forall k :: 0 <= k < |p| - 1 ==> key(p[1..][k]) == key((q[..i] + q[i + 1..])[k])
    ensures forall k :: 0 <= k < |p| ==> key(p[k]) == key(q[k])
  {
    var q' := q[..i] + q[i + 1..];
    forall k | 0 < k < |p| ensures key(p[k]) == key(q[k]) {
      assert p[k] == p[1..][k - 1];
      if k - 1 < i {
        assert q'[k - 1] == q[k - 1];
      } else {
        assert q'[k - 1] == q[k];
      }
    }
  }

  /** Removing one element from a key-sorted sequence leaves it key-sorted. */
  lemma RemovePreservesSorted<T>(q: seq<T>, i: nat, key: T -> string)
    requires i < |q|
    requires SortedBy(q, key)
    ensures SortedBy(q[..i] + q[i + 1..], key)
  {
    var q' := q[..i] + q[i + 1..];
    forall a, b | 0 <= a < b < |q'| ensures LessEq(key(q'[a]), key(q'[b])) {
      var a' := if a < i then a else a + 1;
      var b' := if b < i then b else b + 1;
      assert q'[a] == q[a'] && q'[b] == q[b'];
    }
  }

  /**
   When `q[i]` is the first element of `p` and both are key-sorted arrangements
   of the same elements, every element of `q` up to position `i` has that key.
   */
  lemma HeadKeysAgree<T>(p: seq<T>, q: seq<T>, i: nat, key: T -> string)
    requires multiset(p) == multiset(q)
    requires SortedBy(p, key) && SortedBy(q, key)
    requires 0 < |p| && i < |q| && q[i] == p[0]
    ensures forall k :: 0 <= k <= i ==> key(q[k]) == key(p[0])
  {
    var x := p[0];
    assert q[0] in multiset(p);
    var j :| 0 <= j < |p| && p[j] == q[0];
    assert LessEq(key(x), key(q[0])) by {
      if j > 0 {
        assert LessEq(key(p[0]), key(p[j]));
      }
    }
    forall k | 0 <= k <= i ensures key(q[k]) == key(x) {
      if k > 0 {
        LessEqTransitive(key(x), key(q[0]), key(q[k]));
      }
      if k < i {
        assert LessEq(key(q[k]), key(q[i]));
      }
      LessEqAntisymmetric(key(q[k]), key(x));
    }
  }
}
