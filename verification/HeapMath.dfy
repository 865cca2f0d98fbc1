/** Powers of two, masks on 64-bit words, and rounding addresses up. */
module HeapMath {

  const WORD_LIMIT: nat := 0x1_0000_0000_0000_0000

  function Pow2(k: nat): (p: nat)
    ensures p > 0
  {
    if k == 0 then 1 else 2 * Pow2(k - 1)
  }

  predicate IsPow2(n: nat) {
    n == 1 || (n > 1 && n % 2 == 0 && IsPow2(n / 2))
  }

  lemma {:induction false} Log2(n: nat) returns (k: nat)
    requires IsPow2(n)
    ensures n == Pow2(k)
  {
    if n == 1 {
      k := 0;
    } else {
      var j := Log2(n / 2);
      k := j + 1;
    }
  }

  lemma {:induction false} Pow2Adds(j: nat, k: nat)
    ensures Pow2(j + k) == Pow2(j) * Pow2(k)
  {
    if j > 0 {
      Pow2Adds(j - 1, k);
      MulAssoc(2, Pow2(j - 1), Pow2(k));
    }
  }

  lemma MulAssoc(a: nat, b: nat, c: nat)
    ensures (a * b) * c == a * (b * c)
  {
  }

  lemma {:induction false} Pow2Mono(j: nat, k: nat)
    requires j <= k
    ensures Pow2(j) <= Pow2(k)
  {
    if j < k {
      Pow2Mono(j, k - 1);
    }
  }

  /** A multiple of one power of two is a multiple of every smaller one. */
  lemma Pow2Divides(x: nat, big: nat, small: nat)
    requires IsPow2(big) && IsPow2(small) && small <= big && x % big == 0
    ensures x % small == 0
  {
    hide IsPow2, Pow2;
    var j := Log2(small);
    var k := Log2(big);
    Pow2Order(j, k);
    Pow2Adds(k - j, j);
    var q, m := x / big, Pow2(k - j);
    assert x == (q * m) * small by {
      assert big * q == x;
      MulAssoc(q, m, small);
    }
    MultipleMod(q * m, small);
  }

  lemma Pow2Order(j: nat, k: nat)
    requires Pow2(j) <= Pow2(k)
    ensures j <= k
  {
    if j > k {
      Pow2Mono(k + 1, j);
    }
  }

  lemma MultipleMod(q: int, n: nat)
    requires n > 0
    ensures (q * n) % n == 0
  {
    ModPlus(0, q, n);
  }

  lemma MultiplesAdd(a: nat, b: nat, n: nat)
    requires n > 0 && a % n == 0 && b % n == 0
    ensures (a + b) % n == 0
  {
    var p, q := a / n, b / n;
    assert a == n * p && b == n * q;
    assert a + b == (p + q) * n;
    MultipleMod(p + q, n);
  }

  lemma MultiplesSubtract(a: nat, b: nat, n: nat)
    requires n > 0 && a % n == 0 && b % n == 0 && b < a
    ensures (a - b) % n == 0 && a - b >= n
  {
    var p, q := a / n, b / n;
    assert a == n * p && b == n * q;
    assert a - b == (p - q) * n;
    MultipleMod(p - q, n);
    if p <= q {
      MulMono(n, p, q);
    } else {
      MulMono(n, q + 1, p);
      MulMono(n, q, q);
    }
  }

  lemma {:induction false} ModPlus(r: int, q: int, n: nat)
    requires 0 <= r < n
    ensures (q * n + r) % n == r && (q * n + r) / n == q
  {
    var x := q * n + r;
    assert x == n * (x / n) + x % n;
    DivUnique(n, x / n, x % n, q, r);
  }

  lemma DivUnique(n: nat, a: int, r: int, b: int, s: int)
    requires n > 0 && 0 <= r < n && 0 <= s < n && n * a + r == b * n + s
    ensures a == b && r == s
  {
    if a > b {
      MulMono(n, b + 1, a);
    } else if a < b {
      MulMono(n, a + 1, b);
    }
  }

  lemma MulMono(n: nat, x: int, y: int)
    requires x <= y
    ensures n * x <= n * y && n * (x + 1) == n * x + n && n * (x - 1) == n * x - n
  {
    assert n * y - n * x == n * (y - x);
  }

  // ---- Bitwise and, bit by bit ----

  function And(x: nat, y: nat): nat {
    if x == 0 || y == 0 then 0 else (x % 2) * (y % 2) + 2 * And(x / 2, y / 2)
  }

  lemma {:induction false} AndOnes(x: nat, w: nat)
    requires x < Pow2(w)
    ensures And(x, Pow2(w) - 1) == x
  {
    if w > 0 && x > 0 {
      assert (Pow2(w) - 1) % 2 == 1 && (Pow2(w) - 1) / 2 == Pow2(w - 1) - 1;
      AndOnes(x / 2, w - 1);
      if Pow2(w) - 1 == 0 {
        assert false;
      }
    }
  }

  /** Clearing the low `k` bits of a `w`-bit word rounds it down to a multiple of 2^k. */
  lemma {:induction false} AndMask(x: nat, w: nat, k: nat)
    requires x < Pow2(w) && k <= w
    ensures Pow2(k) <= Pow2(w) && And(x, Pow2(w) - Pow2(k)) == x - x % Pow2(k)
    decreases k
  {
    Pow2Mono(k, w);
    if k == 0 {
      AndOnes(x, w);
    } else {
      var half := Pow2(w - 1) - Pow2(k - 1);
      AndMask(x / 2, w - 1, k - 1);
      assert Pow2(w) - Pow2(k) == 2 * half;
      HalfMod(x, Pow2(k - 1));
      assert And(x, 2 * half) == 2 * And(x / 2, half);
    }
  }

  lemma HalfMod(x: nat, n: nat)
    requires n > 0
    ensures x % (2 * n) == 2 * ((x / 2) % n) + x % 2
  {
    var q, r := (x / 2) / n, (x / 2) % n;
    assert x / 2 == n * q + r;
    assert x == q * (2 * n) + (2 * r + x % 2);
    ModPlus(2 * r + x % 2, q, 2 * n);
  }

  // ---- align_up ----

  /** `(addr + align - 1) & !(align - 1)` on 64-bit words, wrapping on overflow. */
  function AlignUpWord(addr: nat, align: nat): nat
    requires addr < WORD_LIMIT && 0 < align < WORD_LIMIT
  {
    And((addr + align - 1) % WORD_LIMIT, WORD_LIMIT - 1 - (align - 1))
  }

  function AlignUp(addr: nat, align: nat): nat
    requires align > 0
  {
    var x := addr + align - 1; x - x % align
  }

  ghost predicate LeastMultiple(r: int, addr: nat, align: nat)
    requires align > 0
  {
    r % align == 0 && addr <= r && forall m :: addr <= m && m % align == 0 ==> r <= m
  }

  lemma AlignUpIsLeast(addr: nat, align: nat)
    requires align > 0
    ensures LeastMultiple(AlignUp(addr, align), addr, align)
    ensures addr <= AlignUp(addr, align) < addr + align
    ensures addr % align == 0 ==> AlignUp(addr, align) == addr
  {
    var x := addr + align - 1;
    var q := x / align;
    assert x == align * q + x % align;
    MultipleMod(q, align);
    assert AlignUp(addr, align) == q * align;
    forall m | addr <= m && m % align == 0 ensures q * align <= m {
      var p := m / align;
      assert m == align * p;
      if p < q {
        MulMono(align, p, q - 1);
        MulMono(align, q, q);
      }
    }
  }

  lemma Pow2Of64()
    ensures Pow2(64) == WORD_LIMIT
  {
    hide Pow2;
    Pow2Of8();
    Pow2Adds(8, 8);
    Pow2Adds(16, 16);
    Pow2Adds(32, 32);
  }

  lemma Pow2Of8()
    ensures Pow2(8) == 256
  {
    assert Pow2(4) == 16;
  }

  /** Masking is rounding down. */
  lemma AlignUpMasks(addr: nat, align: nat)
    requires addr < WORD_LIMIT && IsPow2(align) && align < WORD_LIMIT
    ensures var x := (addr + align - 1) % WORD_LIMIT; AlignUpWord(addr, align) == x - x % align
  {
    var k := Log2(align);
    var w := 64;
    Pow2Of64();
    if k > w {
      Pow2Mono(w, k);
    }
    AndMask((addr + align - 1) % WORD_LIMIT, w, k);
  }

  lemma AlignUpInRange(addr: nat, align: nat)
    requires IsPow2(align) && align < WORD_LIMIT && addr < WORD_LIMIT && addr + align - 1 < WORD_LIMIT
    ensures AlignUpWord(addr, align) == AlignUp(addr, align)
  {
    AlignUpMasks(addr, align);
    ModPlus(addr + align - 1, 0, WORD_LIMIT);
  }

  lemma AlignUpOverflows(addr: nat, align: nat)
    requires addr < WORD_LIMIT && IsPow2(align) && align < WORD_LIMIT && addr + align - 1 >= WORD_LIMIT
    ensures AlignUpWord(addr, align) == 0 < addr
  {
    var sum, limit := addr + align - 1, WORD_LIMIT;
    AlignUpMasks(addr, align);
    ModPlus(sum - limit, 1, limit);
    ModPlus(sum - limit, 0, align);
  }

  /** On machine words and for every power-of-two alignment, `align_up` is the least multiple not
      below the address exactly when the addition does not overflow; when it does, it is 0. */
  lemma AlignUpOnWords(addr: nat, align: nat)
    requires addr < WORD_LIMIT && IsPow2(align) && align < WORD_LIMIT
    ensures LeastMultiple(AlignUpWord(addr, align), addr, align) <==> addr + align - 1 < WORD_LIMIT
    ensures AlignUpWord(addr, align) == if addr + align - 1 < WORD_LIMIT then AlignUp(addr, align) else 0
  {
    if addr + align - 1 < WORD_LIMIT {
      AlignUpInRange(addr, align);
      AlignUpIsLeast(addr, align);
    } else {
      AlignUpOverflows(addr, align);
    }
  }
}
