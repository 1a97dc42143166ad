/**
 C++ integer conversions that the container's index arithmetic goes through.

 The container takes its indices as a 32-bit `int` but stores its elements in a
 vector whose sizes and positions are 64-bit unsigned `size_t` values. Mixing
 the two converts modularly: an `int` becomes a `size_t` modulo 2^64, and a
 `size_t` becomes an `int` modulo 2^32 (two's complement, as C++20 defines it and
 as earlier compilers do in practice).
 */
module CppInt {

  const INT_MIN: int := -0x8000_0000
  const INT_MAX: int := 0x7fff_ffff
  const INT_MODULUS: int := 0x1_0000_0000
  const SIZE_T_MODULUS: int := 0x1_0000_0000_0000_0000

  /** A value that a 32-bit `int` can hold. */
  predicate IsInt(i: int) {
    INT_MIN <= i <= INT_MAX
  }

  /** The `size_t` an integer converts to: the unique residue modulo 2^64. */
  function ToSizeT(i: int): (r: nat)
    ensures r < SIZE_T_MODULUS
    ensures (r - i) % SIZE_T_MODULUS == 0
  {
    i % SIZE_T_MODULUS
  }

  /** The `int` a `size_t` converts to: the residue modulo 2^32 in [INT_MIN, INT_MAX]. */
  function ToInt(n: nat): (r: int)
    requires n < SIZE_T_MODULUS
    ensures IsInt(r)
    ensures (r - n) % INT_MODULUS == 0
  {
    var m := n % INT_MODULUS;
    if m > INT_MAX then m - INT_MODULUS else m
  }

  /** A non-negative `int` survives the round trip through `size_t` and back. */
  lemma ToIntOfSmall(n: nat)
    requires n <= INT_MAX
    ensures ToSizeT(n) == n
    ensures ToInt(ToSizeT(n)) == n
  {
  }

  /** The largest `size_t` (what `0 - 1` wraps to) reads back as the `int` -1. */
  lemma ToIntOfMaxSizeT()
    ensures ToInt(ToSizeT(-1)) == -1
  {
  }

  /**
   The comparisons `index < size` (inside `std::vector::at`) and `index < size + 1`
   (inside the positional `add`) are made after `index` is converted to `size_t`.
   For every array whose size fits in an `int`, a negative `index` turns into a
   value beyond every valid position, so both comparisons reject it: there is no
   wrap-around from the end.
   */
  lemma SizeTComparisonRejectsNegatives(size: nat, index: int)
    requires size <= INT_MAX
    requires IsInt(index)
    ensures ToSizeT(index) < size <==> 0 <= index < size
    ensures ToSizeT(index) < size + 1 <==> 0 <= index <= size
  {
    if index < 0 {
      assert ToSizeT(index) == index + SIZE_T_MODULUS;
    } else {
      assert ToSizeT(index) == index;
    }
  }
}
