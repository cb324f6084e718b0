/** Bit access and population count over bytes (the `_popcount` helpers of
    src/dataout.cpp and src/bitdiff.cpp, which call `__builtin_popcount`). */
module ByteBits {

  /** Bit `k` of `x`, counting from the least significant bit, read as
      `((x >> k) & 1) != 0`; positions at or above the byte width read as 0,
      as they do for an unsigned char promoted to int. */
  predicate Bit(x: bv8, k: nat) {
    k < 8 && (x >> k) & 1 == 1
  }

  /** The unsigned value of a byte. */
  function Value(x: bv8): (r: nat)
    ensures r < 256
  {
    x as nat
  }

  /** Bitwise exclusive or: the positions where two bytes differ. */
  function Xor(a: bv8, b: bv8): bv8 {
    a ^ b
  }

  /** The number of set bits of `x` among positions `0 .. k-1`. */
  function PopcountBelow(x: bv8, k: nat): (r: nat)
    ensures r <= k
  {
    if k == 0 then 0 else PopcountBelow(x, k - 1) + (if Bit(x, k - 1) then 1 else 0)
  }

  /** The number of set bits of a byte: at most its eight bits. */
  function Popcount(x: bv8): (r: nat)
    ensures r <= 8
  {
    PopcountBelow(x, 8)
  }

  lemma {:induction false} PopcountBelowZero(x: bv8, k: nat)
    ensures PopcountBelow(x, k) == 0 <==> forall j :: 0 <= j < k ==> !Bit(x, j)
  {
    if k > 0 {
      PopcountBelowZero(x, k - 1);
    }
  }

  /** A byte has no set bit exactly when it is zero. */
  lemma PopcountZero(x: bv8)
    ensures Popcount(x) == 0 <==> x == 0
  {
    PopcountBelowZero(x, 8);
    if forall j :: 0 <= j < 8 ==> !Bit(x, j) {
      assert !Bit(x, 0) && !Bit(x, 1) && !Bit(x, 2) && !Bit(x, 3);
      assert !Bit(x, 4) && !Bit(x, 5) && !Bit(x, 6) && !Bit(x, 7);
    }
  }

  /** Bit `k` of `Xor(a, b)` is set exactly where `a` and `b` disagree. */
  lemma BitXor(a: bv8, b: bv8, k: nat)
    ensures Bit(Xor(a, b), k) <==> Bit(a, k) != Bit(b, k)
  {
    if k == 0 {
      assert ((a ^ b) >> 0) & 1 == ((a >> 0) & 1) ^ ((b >> 0) & 1);
    } else if k == 1 {
      assert ((a ^ b) >> 1) & 1 == ((a >> 1) & 1) ^ ((b >> 1) & 1);
    } else if k == 2 {
      assert ((a ^ b) >> 2) & 1 == ((a >> 2) & 1) ^ ((b >> 2) & 1);
    } else if k == 3 {
      assert ((a ^ b) >> 3) & 1 == ((a >> 3) & 1) ^ ((b >> 3) & 1);
    } else if k == 4 {
      assert ((a ^ b) >> 4) & 1 == ((a >> 4) & 1) ^ ((b >> 4) & 1);
    } else if k == 5 {
      assert ((a ^ b) >> 5) & 1 == ((a >> 5) & 1) ^ ((b >> 5) & 1);
    } else if k == 6 {
      assert ((a ^ b) >> 6) & 1 == ((a >> 6) & 1) ^ ((b >> 6) & 1);
    } else if k == 7 {
      assert ((a ^ b) >> 7) & 1 == ((a >> 7) & 1) ^ ((b >> 7) & 1);
    }
  }

  /** The popcount of the difference of two bytes: at most 8, the same in
      either order, and 0 exactly when the bytes are equal. */
  lemma DiffPopcount(a: bv8, b: bv8)
    ensures Popcount(Xor(a, b)) <= 8
    ensures Popcount(Xor(a, b)) == Popcount(Xor(b, a))
    ensures Popcount(Xor(a, b)) == 0 <==> a == b
  {
    assert Xor(a, b) == Xor(b, a);
    PopcountZero(Xor(a, b));
  }
}
