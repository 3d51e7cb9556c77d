/** Bit operations on unsigned machine words, with words as natural numbers. */
module NatBits {

  function Pow2(n: nat): (p: nat)
    ensures p >= 1
  {
    if n == 0 then 1 else 2 * Pow2(n - 1)
  }

  function And(u: nat, v: nat): nat {
    if u == 0 || v == 0 then 0
    else 2 * And(u / 2, v / 2) + if u % 2 == 1 && v % 2 == 1 then 1 else 0
  }

  function Xor(u: nat, v: nat): nat
    decreases u + v
  {
    if u == 0 && v == 0 then 0
    else 2 * Xor(u / 2, v / 2) + if u % 2 != v % 2 then 1 else 0
  }

  /** The complement of a `width`-bit word. */
  function Not(u: nat, width: nat): nat
    requires u < Pow2(width)
  {
    Pow2(width) - 1 - u
  }

  function ShiftRight(u: nat, n: nat): nat
    decreases n
  {
    if n == 0 then u else ShiftRight(u / 2, n - 1)
  }

  /** The low `n` bits of a word. */
  function Low(u: nat, n: nat): nat
    decreases n
  {
    if n == 0 then 0 else 2 * Low(u / 2, n - 1) + u % 2
  }

  /** `nbits` ones, right justified. */
  function MaskOf(nbits: nat): nat {
    Pow2(nbits) - 1
  }

  /** The bitfield from position `first` down to `last`, right justified. */
  function Bits(val: nat, first: nat, last: nat): nat
    requires last <= first + 1
  {
    And(ShiftRight(val, last), MaskOf(first + 1 - last))
  }

  /** Bit `i` of a word. */
  predicate Bit(u: nat, i: nat) {
    if i == 0 then u % 2 == 1 else Bit(u / 2, i - 1)
  }

  // ---------- powers of two ----------

  lemma {:induction false} Pow2Add(m: nat, n: nat)
    ensures Pow2(m + n) == Pow2(m) * Pow2(n)
  {
    if m == 0 {
    } else {
      Pow2Add(m - 1, n);
      assert Pow2(m + n) == 2 * Pow2(m - 1 + n);
      assert 2 * (Pow2(m - 1) * Pow2(n)) == (2 * Pow2(m - 1)) * Pow2(n);
    }
  }

  lemma {:induction false} Pow2Mono(m: nat, n: nat)
    requires m <= n
    ensures Pow2(m) <= Pow2(n)
    ensures m < n ==> 2 * Pow2(m) <= Pow2(n)
    decreases n
  {
    if m >= n {
    } else {
      Pow2Mono(m, n - 1);
    }
  }

  // ---------- high and low parts ----------

  /** A word is its high part and its low part put together. */
  lemma {:induction false} HighLow(u: nat, n: nat)
    ensures u == ShiftRight(u, n) * Pow2(n) + Low(u, n) && Low(u, n) < Pow2(n)
    decreases n
  {
    if n == 0 {
    } else {
      HighLow(u / 2, n - 1);
      var w := ShiftRight(u, n);
      assert w * Pow2(n) == 2 * (w * Pow2(n - 1));
    }
  }

  lemma {:induction false} Joined(w: nat, r: nat, n: nat)
    requires r < Pow2(n)
    ensures ShiftRight(w * Pow2(n) + r, n) == w && Low(w * Pow2(n) + r, n) == r
    decreases n
  {
    if n == 0 {
    } else {
      var half := w * Pow2(n - 1);
      assert w * Pow2(n) == 2 * half;
      assert (2 * half + r) / 2 == half + r / 2 && (2 * half + r) % 2 == r % 2;
      Joined(w, r / 2, n - 1);
    }
  }

  // ---------- bits ----------

  /** The bits of a word put together from a high and a low part. */
  lemma {:induction false} BitSplit(w: nat, r: nat, lo: nat, j: nat)
    requires r < Pow2(lo)
    ensures Bit(w * Pow2(lo) + r, j) == if j < lo then Bit(r, j) else Bit(w, j - lo)
    decreases lo
  {
    if lo == 0 {
    } else {
      var half := w * Pow2(lo - 1);
      assert w * Pow2(lo) == 2 * half;
      assert (2 * half + r) / 2 == half + r / 2 && (2 * half + r) % 2 == r % 2;
      if j == 0 {
      } else {
        BitSplit(w, r / 2, lo - 1, j - 1);
      }
    }
  }

  lemma BitShift(u: nat, lo: nat, i: nat)
    ensures Bit(ShiftRight(u, lo), i) == Bit(u, lo + i)
  {
    HighLow(u, lo);
    BitSplit(ShiftRight(u, lo), Low(u, lo), lo, lo + i);
  }

  lemma BitLow(u: nat, n: nat, i: nat)
    requires i < n
    ensures Bit(Low(u, n), i) == Bit(u, i)
  {
    HighLow(u, n);
    BitSplit(ShiftRight(u, n), Low(u, n), n, i);
  }

  lemma {:induction false} AndMask(u: nat, n: nat)
    ensures And(u, MaskOf(n)) == Low(u, n)
    decreases n
  {
    if u == 0 {
      LowOfZero(n);
    } else if n != 0 {
      assert MaskOf(n) / 2 == MaskOf(n - 1) && MaskOf(n) % 2 == 1;
      AndMask(u / 2, n - 1);
    }
  }

  lemma {:induction false} LowOfZero(n: nat)
    ensures Low(0, n) == 0
  {
    if n != 0 { LowOfZero(n - 1); }
  }

  lemma BitsIsSlice(val: nat, first: nat, last: nat)
    requires last <= first + 1
    ensures Bits(val, first, last) == Low(ShiftRight(val, last), first + 1 - last) < Pow2(first + 1 - last)
  {
    AndMask(ShiftRight(val, last), first + 1 - last);
    HighLow(ShiftRight(val, last), first + 1 - last);
  }

  lemma BitOfBits(val: nat, first: nat, last: nat, i: nat)
    requires last <= first + 1 && i < first + 1 - last
    ensures Bit(Bits(val, first, last), i) == Bit(val, last + i)
  {
    BitsIsSlice(val, first, last);
    BitLow(ShiftRight(val, last), first + 1 - last, i);
    BitShift(val, last, i);
  }

  lemma {:induction false} BitOfXor(u: nat, v: nat, i: nat)
    ensures Bit(Xor(u, v), i) == (Bit(u, i) != Bit(v, i))
    decreases i
  {
    if u != 0 || v != 0 {
      var x := Xor(u / 2, v / 2);
      assert (2 * x) / 2 == x && (2 * x + 1) / 2 == x;
      if i == 0 {
      } else {
        BitOfXor(u / 2, v / 2, i - 1);
      }
    } else {
      BitOfZero(i);
    }
  }

  lemma {:induction false} BitOfZero(i: nat)
    ensures !Bit(0, i)
  {
    if i != 0 { BitOfZero(i - 1); }
  }

  lemma {:induction false} XorFits(u: nat, v: nat, n: nat)
    requires u < Pow2(n) && v < Pow2(n)
    ensures Xor(u, v) < Pow2(n)
    decreases n
  {
    if n == 0 || (u == 0 && v == 0) {
    } else {
      XorFits(u / 2, v / 2, n - 1);
    }
  }

  lemma {:induction false} XorSelf(u: nat)
    ensures Xor(u, u) == 0
  {
    if u != 0 { XorSelf(u / 2); }
  }

  /** Two different words differ in a highest bit. */
  lemma {:induction false} HighestDifference(u: nat, v: nat, n: nat) returns (i: nat)
    requires u < Pow2(n) && v < Pow2(n) && u != v
    ensures i < n && Bit(u, i) != Bit(v, i)
    ensures forall j :: i < j < n ==> Bit(u, j) == Bit(v, j)
    decreases n
  {
    if u / 2 == v / 2 {
      i := 0;
    } else {
      var k := HighestDifference(u / 2, v / 2, n - 1);
      i := k + 1;
      forall j | i < j < n
        ensures Bit(u, j) == Bit(v, j)
      {
        assert Bit(u / 2, j - 1) == Bit(v / 2, j - 1);
      }
    }
  }

  /** Two different words differ in a lowest bit. */
  lemma {:induction false} LowestDifference(u: nat, v: nat, n: nat) returns (i: nat)
    requires u < Pow2(n) && v < Pow2(n) && u != v
    ensures i < n && Bit(u, i) != Bit(v, i)
    ensures forall j :: 0 <= j < i ==> Bit(u, j) == Bit(v, j)
    decreases n
  {
    if u % 2 != v % 2 {
      i := 0;
    } else {
      var k := LowestDifference(u / 2, v / 2, n - 1);
      i := k + 1;
      forall j | 0 <= j < i
        ensures Bit(u, j) == Bit(v, j)
      {
        if j > 0 { assert Bit(u / 2, j - 1) == Bit(v / 2, j - 1); }
      }
    }
  }
}
