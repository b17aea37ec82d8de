/**
 Machine words as natural numbers: powers of two and the bitwise operators that
 the compressor applies to them.  Widths and truncation are written out where
 they are used.
 */
module Words {

  function Pow2(n: nat): (p: nat)
    ensures 1 <= p
    ensures n < p
  {
    if n == 0 then 1 else 2 * Pow2(n - 1)
  }

  /** Exclusive or of two non-negative words. */
  function Xor(a: nat, b: nat): nat
    decreases a + b
  {
    if a == 0 then b
    else if b == 0 then a
    else 2 * Xor(a / 2, b / 2) + (if a % 2 == b % 2 then 0 else 1)
  }

  /** Inclusive or of two non-negative words. */
  function Or(a: nat, b: nat): nat
    decreases a + b
  {
    if a == 0 then b
    else if b == 0 then a
    else 2 * Or(a / 2, b / 2) + (if a % 2 == 1 || b % 2 == 1 then 1 else 0)
  }

  lemma MulAssoc(a: int, b: int, c: int)
    ensures a * (b * c) == (a * b) * c
  {
  }

  lemma Distribute(a: int, b: int, c: int)
    ensures (a + b) * c == a * c + b * c
  {
  }

  lemma {:induction false} Pow2Add(m: nat, n: nat)
    ensures Pow2(m + n) == Pow2(m) * Pow2(n)
  {
    if m > 0 {
      Pow2Add(m - 1, n);
      MulAssoc(2, Pow2(m - 1), Pow2(n));
    }
  }

  lemma {:induction false} Pow2Monotone(m: nat, n: nat)
    requires m <= n
    ensures Pow2(m) <= Pow2(n)
  {
    if m < n {
      Pow2Monotone(m, n - 1);
    }
  }

  /** The low bit and the rest of an exclusive or. */
  lemma XorStep(a: nat, b: nat)
    ensures Xor(a, b) / 2 == Xor(a / 2, b / 2)
    ensures Xor(a, b) % 2 == (if a % 2 == b % 2 then 0 else 1)
  {
  }

  lemma XorJoin(x: nat, y: nat, p: nat, q: nat)
    requires p < 2 && q < 2
    ensures Xor(2 * x + p, 2 * y + q) == 2 * Xor(x, y) + (if p == q then 0 else 1)
  {
    XorStep(2 * x + p, 2 * y + q);
  }

  /** Exclusive or with a fixed word is injective. */
  lemma {:induction false} XorCancel(a: nat, b: nat, c: nat)
    requires Xor(a, b) == Xor(a, c)
    ensures b == c
    decreases a + b + c
  {
    XorStep(a, b);
    XorStep(a, c);
    if a + b + c > 0 {
      XorCancel(a / 2, b / 2, c / 2);
    }
  }

  lemma ShiftStep(a: nat, k: nat)
    requires 0 < k
    ensures a * Pow2(k) == 2 * (a * Pow2(k - 1))
  {
    MulAssoc(a, 2, Pow2(k - 1));
    MulAssoc(2, a, Pow2(k - 1));
  }

  /** x modulo 2n, taken apart at the low bit. */
  lemma ModHalves(x: nat, n: nat)
    requires 0 < n
    ensures x % (2 * n) == 2 * ((x / 2) % n) + x % 2
  {
    var q := (x / 2) / n;
    assert x == 2 * (x / 2) + x % 2;
    assert x / 2 == q * n + (x / 2) % n;
    assert x == q * (2 * n) + (2 * ((x / 2) % n) + x % 2);
    ModUnique(x, 2 * n, q, 2 * ((x / 2) % n) + x % 2);
  }

  /** Different multiples of n differ by at least n. */
  lemma {:induction false} MulSpread(p: int, q: int, n: int)
    requires 0 < n && p < q
    ensures p * n + n <= q * n
    decreases q - p
  {
    if p + 1 < q {
      MulSpread(p, q - 1, n);
    }
    assert q * n == (q - 1) * n + n;
  }

  lemma ModUnique(x: int, n: int, q: int, r: int)
    requires 0 < n && 0 <= r < n && x == q * n + r
    ensures x % n == r && x / n == q
  {
    var q', r' := x / n, x % n;
    if q < q' {
      MulSpread(q, q', n);
    } else if q' < q {
      MulSpread(q', q, n);
    }
  }

  lemma XorModStep(a: nat, b: nat, n: nat)
    requires 0 < n
    requires Xor(a / 2, b / 2) % n == Xor((a / 2) % n, (b / 2) % n)
    ensures Xor(a, b) % (2 * n) == Xor(a % (2 * n), b % (2 * n))
  {
    hide Xor;
    XorStep(a, b);
    ModHalves(Xor(a, b), n);
    ModHalves(a, n);
    ModHalves(b, n);
    XorJoin((a / 2) % n, (b / 2) % n, a % 2, b % 2);
  }

  /** Truncation distributes over exclusive or. */
  lemma {:induction false} XorMod(a: nat, b: nat, k: nat)
    ensures Xor(a, b) % Pow2(k) == Xor(a % Pow2(k), b % Pow2(k))
  {
    if k > 0 {
      hide Xor;
      var n := Pow2(k - 1);
      XorMod(a / 2, b / 2, k - 1);
      XorModStep(a, b, n);
    }
  }

  /** Exclusive or modulo a power of two depends on its operands modulo that power. */
  lemma XorModCongruent(x: nat, x': nat, c: nat, k: nat, m: nat)
    requires m == Pow2(k) && x % m == x' % m
    ensures Xor(x, c) % m == Xor(x', c) % m
  {
    hide Xor;
    XorMod(x, c, k);
    XorMod(x', c, k);
  }

  /** Exclusive or modulo a power of two tells its second operand apart. */
  lemma XorModCancel(x: nat, c: nat, c': nat, k: nat, m: nat)
    requires m == Pow2(k) && c < m && c' < m
    requires Xor(x, c) % m == Xor(x, c') % m
    ensures c == c'
  {
    hide Xor;
    XorMod(x, c, k);
    XorMod(x, c', k);
    ModUnique(c, m, 0, c);
    ModUnique(c', m, 0, c');
    XorCancel(x % m, c, c');
  }

  lemma OrJoin(a: nat, c: nat)
    ensures Or(a, 2 * c) == 2 * Or(a / 2, c) + a % 2
  {
  }

  /** Words with no bit in common: inclusive or is addition. */
  lemma {:induction false} OrDisjoint(a: nat, b: nat, k: nat)
    requires a < Pow2(k)
    ensures Or(a, b * Pow2(k)) == a + b * Pow2(k)
  {
    if k > 0 {
      hide Or;
      var c := b * Pow2(k - 1);
      ShiftStep(b, k);
      OrDisjoint(a / 2, b, k - 1);
      OrJoin(a, c);
      assert Or(a / 2, c) == a / 2 + c;
    }
  }
}
