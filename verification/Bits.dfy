/** The bits of unsigned words, and the bitwise operations on them. */
module Bits {
  import opened HeapMath

  predicate Bit(x: nat, k: nat) {
    if k == 0 then x % 2 == 1 else Bit(x / 2, k - 1)
  }

  function Or(x: nat, y: nat): nat {
    if x == 0 && y == 0 then 0 else (if x % 2 == 1 || y % 2 == 1 then 1 else 0) + 2 * Or(x / 2, y / 2)
  }

  /** Complement of a `w`-bit word. */
  function Not(x: nat, w: nat): nat
    requires x < Pow2(w)
  {
    Pow2(w) - 1 - x
  }

  lemma {:induction false} NoBits(k: nat)
    ensures !Bit(0, k)
  {
    if k > 0 {
      NoBits(k - 1);
    }
  }

  lemma {:induction false} BitOfAnd(x: nat, y: nat, k: nat)
    ensures Bit(And(x, y), k) <==> Bit(x, k) && Bit(y, k)
  {
    if x == 0 || y == 0 {
      NoBits(k);
    } else {
      var rest := And(x / 2, y / 2);
      assert And(x, y) / 2 == rest && And(x, y) % 2 == (x % 2) * (y % 2);
      if k > 0 {
        BitOfAnd(x / 2, y / 2, k - 1);
      }
    }
  }

  lemma {:induction false} BitOfOr(x: nat, y: nat, k: nat)
    ensures Bit(Or(x, y), k) <==> Bit(x, k) || Bit(y, k)
  {
    if x == 0 && y == 0 {
      NoBits(k);
    } else if k > 0 {
      assert Or(x, y) / 2 == Or(x / 2, y / 2);
      BitOfOr(x / 2, y / 2, k - 1);
    }
  }

  lemma {:induction false} BitOfNot(x: nat, w: nat, k: nat)
    requires x < Pow2(w) && k < w
    ensures Bit(Not(x, w), k) <==> !Bit(x, k)
  {
    assert Pow2(w) == 2 * Pow2(w - 1);
    assert Not(x, w) / 2 == Not(x / 2, w - 1) && Not(x, w) % 2 == 1 - x % 2;
    if k > 0 {
      BitOfNot(x / 2, w - 1, k - 1);
    }
  }

  lemma {:induction false} BitOfPow2(j: nat, k: nat)
    ensures Bit(Pow2(j), k) <==> j == k
  {
    if j == 0 {
      if k > 0 {
        NoBits(k - 1);
      }
    } else if k > 0 {
      assert Pow2(j) / 2 == Pow2(j - 1);
      BitOfPow2(j - 1, k - 1);
    }
  }

  lemma {:induction false} BitOfOnes(r: nat, k: nat)
    ensures Bit(Pow2(r) - 1, k) <==> k < r
  {
    if r == 0 {
      NoBits(k);
    } else {
      assert (Pow2(r) - 1) / 2 == Pow2(r - 1) - 1 && (Pow2(r) - 1) % 2 == 1;
      if k > 0 {
        BitOfOnes(r - 1, k - 1);
      }
    }
  }

  lemma {:induction false} AndBelow(x: nat, y: nat)
    ensures And(x, y) <= x
  {
    if x > 0 && y > 0 {
      AndBelow(x / 2, y / 2);
    }
  }

  lemma {:induction false} OrBelow(x: nat, y: nat, w: nat)
    requires x < Pow2(w) && y < Pow2(w)
    ensures Or(x, y) < Pow2(w)
    decreases w
  {
    if w > 0 {
      OrBelow(x / 2, y / 2, w - 1);
    }
  }

  /** Masking one bit out of a word. */
  lemma {:induction false} AndOneBit(x: nat, k: nat)
    ensures And(x, Pow2(k)) == if Bit(x, k) then Pow2(k) else 0
  {
    if x == 0 {
      NoBits(k);
    } else if k > 0 {
      assert Pow2(k) / 2 == Pow2(k - 1) && Pow2(k) % 2 == 0;
      AndOneBit(x / 2, k - 1);
    } else {
      assert And(x / 2, 0) == 0;
    }
  }

  /** A word with bit `j` cleared, or set, is the word with that one bit changed. */
  lemma ClearedBit(x: nat, w: nat, j: nat, k: nat)
    requires x < Pow2(w) && j < w && k < w
    ensures Pow2(j) < Pow2(w) && And(x, Not(Pow2(j), w)) < Pow2(w)
    ensures Bit(And(x, Not(Pow2(j), w)), k) <==> Bit(x, k) && k != j
  {
    Pow2Mono(j + 1, w);
    BitOfNot(Pow2(j), w, k);
    BitOfPow2(j, k);
    BitOfAnd(x, Not(Pow2(j), w), k);
    AndBelow(x, Not(Pow2(j), w));
  }

  lemma SetBit(x: nat, w: nat, j: nat, k: nat)
    requires x < Pow2(w) && j < w && k < w
    ensures Pow2(j) < Pow2(w) && Or(x, Pow2(j)) < Pow2(w)
    ensures Bit(Or(x, Pow2(j)), k) <==> Bit(x, k) || k == j
  {
    Pow2Mono(j + 1, w);
    BitOfPow2(j, k);
    BitOfOr(x, Pow2(j), k);
    OrBelow(x, Pow2(j), w);
  }
}
