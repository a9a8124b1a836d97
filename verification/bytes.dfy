/** Bytes as integers, with the bit operations the program applies to them. */
module Bytes {

  type Byte = x: int | 0 <= x < 0x100

  function Pow2(n: nat): (r: nat)
    ensures r > 0
  {
    if n == 0 then 1 else 2 * Pow2(n - 1)
  }

  /** What is left of a number when its bit of value p is cleared, if it is the highest one. */
  function Below(x: nat, p: nat): nat
  {
    if x >= p then x - p else x
  }

  /** The bits that are set in both of two n-bit numbers, most significant bit first. */
  function AndBits(x: nat, y: nat, n: nat): (r: nat)
    ensures r <= x && r <= y
    decreases n, x, y
  {
    if n == 0 then 0
    else
      var p := Pow2(n - 1);
      (if x >= p && y >= p then p else 0) + 
      AndBits(if x >= p then x - p else x, if y >= p then y - p else y, n - 1)
  }

  /** The bits that are set in one of two n-bit numbers, most significant bit first. */
  function XorBits(x: nat, y: nat, n: nat): (r: nat)
    ensures r < Pow2(n)
    decreases n, x, y
  {
    if n == 0 then 0
    else
      var p := Pow2(n - 1);
      (if (x >= p) != (y >= p) then p else 0) + XorBits(Below(x, p), Below(y, p), n - 1)
  }

  function And(x: Byte, y: Byte): Byte
  {
    AndBits(x, y, 8)
  }

  function Xor(x: Byte, y: Byte): Byte
  {
    assert Pow2(8) == 0x100;
    XorBits(x, y, 8)
  }

  /** Whether a bit is set, counted from the least significant one. */
  predicate Bit(x: nat, k: nat)
    decreases k
  {
    if k == 0 then x % 2 == 1 else Bit(x / 2, k - 1)
  }

  lemma {:induction false} TopBit(x: nat, n: nat)
    requires x < Pow2(n + 1)
    ensures Bit(x, n) <==> x >= Pow2(n)
  {
    if n > 0 {
      TopBit(x / 2, n - 1);
    }
  }

  lemma {:induction false} LowerBits(x: nat, n: nat, k: nat)
    requires Pow2(n) <= x && k < n
    ensures Bit(x - Pow2(n), k) <==> Bit(x, k)
    decreases k
  {
    if k > 0 {
      assert Pow2(n) == 2 * Pow2(n - 1);
      assert (x - Pow2(n)) / 2 == x / 2 - Pow2(n - 1);
      LowerBits(x / 2, n - 1, k - 1);
    }
  }

  lemma {:induction false} AndBitsExactly(x: nat, y: nat, n: nat, k: nat)
    requires x < Pow2(n) && y < Pow2(n) && k < n
    ensures Bit(AndBits(x, y, n), k) <==> Bit(x, k) && Bit(y, k)
    decreases n
  {
    var p, both := Pow2(n - 1), AndBits(x, y, n);
    if k == n - 1 {
      TopBit(x, k);
      TopBit(y, k);
      TopBit(both, k);
    } else {
      AndBitsExactly(Below(x, p), Below(y, p), n - 1, k);
      if x >= p { LowerBits(x, n - 1, k); }
      if y >= p { LowerBits(y, n - 1, k); }
      if both >= p { LowerBits(both, n - 1, k); }
    }
  }

  /** Bit by bit, And has the bits that are set in both bytes. */
  lemma {:induction false} AndExactly(x: Byte, y: Byte, k: nat)
    requires k < 8
    ensures Bit(And(x, y), k) <==> Bit(x, k) && Bit(y, k)
  {
    assert Pow2(8) == 0x100;
    AndBitsExactly(x, y, 8, k);
  }

  lemma {:induction false} XorBitsExactly(x: nat, y: nat, n: nat, k: nat)
    requires x < Pow2(n) && y < Pow2(n) && k < n
    ensures Bit(XorBits(x, y, n), k) <==> Bit(x, k) != Bit(y, k)
    decreases n
  {
    var p, either := Pow2(n - 1), XorBits(x, y, n);
    if k == n - 1 {
      TopBit(x, k);
      TopBit(y, k);
      TopBit(either, k);
    } else {
      XorBitsExactly(Below(x, p), Below(y, p), n - 1, k);
      if x >= p { LowerBits(x, n - 1, k); }
      if y >= p { LowerBits(y, n - 1, k); }
      if either >= p { LowerBits(either, n - 1, k); }
    }
  }

  /** Bit by bit, Xor has the bits that are set in one of two bytes. */
  lemma {:induction false} XorExactly(x: Byte, y: Byte, k: nat)
    requires k < 8
    ensures Bit(Xor(x, y), k) <==> Bit(x, k) != Bit(y, k)
  {
    assert Pow2(8) == 0x100;
    XorBitsExactly(x, y, 8, k);
  }

  lemma {:induction false} XorZero(x: nat, n: nat)
    requires x < Pow2(n)
    ensures XorBits(x, 0, n) == x
  {
    if n > 0 {
      XorZero(Below(x, Pow2(n - 1)), n - 1);
    }
  }

  lemma {:induction false} XorDoubled(x: nat, y: nat, n: nat)
    requires x < Pow2(n) && y < Pow2(n)
    ensures XorBits(2 * x, 2 * y, n + 1) == 2 * XorBits(x, y, n)
    decreases n
  {
    if n > 0 {
      var p := Pow2(n - 1);
      XorDoubled(Below(x, p), Below(y, p), n - 1);
      assert Below(2 * x, 2 * p) == 2 * Below(x, p) && Below(2 * y, 2 * p) == 2 * Below(y, p);
    }
  }

  lemma {:induction false} XorStep(x: nat, y: nat, n: nat, p: nat)
    requires n > 0 && p == Pow2(n - 1)
    ensures XorBits(x, y, n) >= p <==> (x >= p) != (y >= p)
    ensures Below(XorBits(x, y, n), p) == XorBits(Below(x, p), Below(y, p), n - 1)
  {
  }

  lemma {:induction false} SameHalves(x: nat, y: nat, p: nat)
    requires (x >= p <==> y >= p) && Below(x, p) == Below(y, p)
    ensures x == y
  {
  }

  /** The order in which four numbers are combined does not matter. */
  lemma {:induction false} XorRegrouped(a: nat, b: nat, c: nat, d: nat, n: nat)
    ensures XorBits(XorBits(a, b, n), XorBits(c, d, n), n) == XorBits(XorBits(a, c, n), XorBits(b, d, n), n)
    decreases n
  {
    if n > 0 {
      hide XorBits, Pow2, Below;
      var p := Pow2(n - 1);
      var ab, cd, ac, bd := XorBits(a, b, n), XorBits(c, d, n), XorBits(a, c, n), XorBits(b, d, n);
      XorStep(a, b, n, p);
      XorStep(c, d, n, p);
      XorStep(a, c, n, p);
      XorStep(b, d, n, p);
      XorStep(ab, cd, n, p);
      XorStep(ac, bd, n, p);
      XorRegrouped(Below(a, p), Below(b, p), Below(c, p), Below(d, p), n - 1);
      SameHalves(XorBits(ab, cd, n), XorBits(ac, bd, n), p);
    }
  }

  /** The bits of a number determine it. */
  lemma {:induction false} SameBits(x: nat, y: nat, n: nat)
    requires x < Pow2(n) && y < Pow2(n)
    requires forall k: nat :: k < n ==> (Bit(x, k) <==> Bit(y, k))
    ensures x == y
    decreases n
  {
    if n > 0 {
      assert Bit(x, 0) <==> Bit(y, 0);
      forall k: nat | k < n - 1
        ensures Bit(x / 2, k) <==> Bit(y / 2, k)
      {
        assert Bit(x, k + 1) <==> Bit(y, k + 1);
      }
      SameBits(x / 2, y / 2, n - 1);
    }
  }

  predicate DifferAt(x: Byte, y: Byte, k: nat)
  {
    Bit(x, k) != Bit(y, k)
  }

  /** A byte that has the eight bits of Xor is Xor. */
  lemma {:induction false} XorFromBits(x: Byte, y: Byte, r: Byte)
    requires Bit(r, 0) == DifferAt(x, y, 0) && Bit(r, 1) == DifferAt(x, y, 1)
    requires Bit(r, 2) == DifferAt(x, y, 2) && Bit(r, 3) == DifferAt(x, y, 3)
    requires Bit(r, 4) == DifferAt(x, y, 4) && Bit(r, 5) == DifferAt(x, y, 5)
    requires Bit(r, 6) == DifferAt(x, y, 6) && Bit(r, 7) == DifferAt(x, y, 7)
    ensures Xor(x, y) == r
  {
    assert Pow2(8) == 0x100;
    hide Bit, Xor, Pow2;
    forall k: nat | k < 8
      ensures Bit(Xor(x, y), k) <==> Bit(r, k)
    {
      XorExactly(x, y, k);
    }
    SameBits(Xor(x, y), r, 8);
  }

  /** Clearing no bit at all: programming an erased byte stores exactly the given byte. */
  lemma {:induction false} AndOnes(y: nat, n: nat)
    requires y < Pow2(n)
    ensures AndBits(Pow2(n) - 1, y, n) == y
  {
    if n > 0 {
      var p := Pow2(n - 1);
      AndOnes(Below(y, p), n - 1);
    }
  }

  lemma {:induction false} AndErased(b: Byte)
    ensures And(0xFF, b) == b
  {
    assert Pow2(8) == 0x100;
    AndOnes(b, 8);
  }
}
