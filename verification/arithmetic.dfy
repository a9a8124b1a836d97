/** Division by sizes that are not constants. */
module Arithmetic {

  function Min(x: nat, y: nat): nat
  {
    if x <= y then x else y
  }

  /** The number of parts of size y that cover x: division rounding up. */
  function DivCeil(x: nat, y: nat): nat
    requires y > 0
    decreases x
  {
    if x <= y then (if x == 0 then 0 else 1) else 1 + DivCeil(x - y, y)
  }

  lemma {:induction false} Division(x: nat, size: nat, q: nat, r: nat)
    requires size > 0 && x == q * size + r && r < size
    ensures x / size == q && x % size == r
  {
    var p := x / size;
    assert x == p * size + x % size;
    assert p >= q + 1 ==> p * size >= (q + 1) * size == q * size + size;
    assert q >= p + 1 ==> q * size >= (p + 1) * size == p * size + size;
  }

  lemma {:induction false} MultiplesOf(count: nat, size: nat)
    requires size > 0
    ensures count * size % size == 0
    ensures DivCeil(count * size, size) == count
  {
    Division(count * size, size, count, 0);
    if count > 0 {
      MultiplesOf(count - 1, size);
      assert count * size == (count - 1) * size + size;
    }
  }

  lemma {:induction false} ProductGrows(x: nat, y: nat, size: nat)
    requires x <= y
    ensures x * size <= y * size
  {
  }

  lemma {:induction false} NextMultiple(count: nat, size: nat)
    ensures (count + 1) * size == count * size + size
  {
  }

  lemma {:induction false} EvenSum(x: nat, y: nat)
    requires x % 2 == 0 && y % 2 == 0
    ensures (x + y) % 2 == 0
  {
  }
}
