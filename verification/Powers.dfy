// Powers of two and the number of bits of an index.
module Powers {

  function Pow2(n: nat): (r: nat)
    ensures r > 0
  {
    if n == 0 then 1 else 2 * Pow2(n - 1)
  }

  lemma {:induction false} Pow2Plus(a: nat, b: nat)
    ensures Pow2(a + b) == Pow2(a) * Pow2(b)
  {
    if a > 0 {
      Pow2Plus(a - 1, b);
      assert Pow2(a + b) == 2 * Pow2(a - 1 + b);
      assert 2 * (Pow2(a - 1) * Pow2(b)) == (2 * Pow2(a - 1)) * Pow2(b);
    }
  }

  lemma {:induction false} Pow2Grows(a: nat, b: nat)
    requires a <= b
    ensures Pow2(a) <= Pow2(b)
  {
    if a < b { Pow2Grows(a, b - 1); }
  }

  // log2_up (pbbslib/utilities.h, lines 286-291): how often i - 1 can be halved before it is zero.
  function Log2Up(i: nat): (r: nat)
    requires i > 0
  {
    Halvings(i - 1)
  }

  function Halvings(b: nat): nat { if b == 0 then 0 else Halvings(b / 2) + 1 }

  lemma {:induction false} HalvingsBound(b: nat)
    ensures b < Pow2(Halvings(b)) && (b > 0 ==> Pow2(Halvings(b)) <= 2 * b)
  {
    if b > 0 { HalvingsBound(b / 2); }
  }

  lemma {:induction false} HalvingsGrows(a: nat, b: nat)
    requires a <= b
    ensures Halvings(a) <= Halvings(b)
  {
    if a > 0 { HalvingsGrows(a / 2, b / 2); }
  }
}
