/**
 Bit strings as deflate streams hold them: integers are packed from the least significant bit,
 Huffman codes from the most significant one (section 3.1.1 of RFC 1951).
 */
module Bits {
  import opened Words

  /** The n low bits of v, least significant first. */
  function Low(v: nat, n: nat): (r: seq<bool>)
    ensures |r| == n
  {
    if n == 0 then [] else [v % 2 == 1] + Low(v / 2, n - 1)
  }

  /** The n low bits of v, most significant first. */
  function Msb(v: nat, n: nat): (r: seq<bool>)
    ensures |r| == n
  {
    if n == 0 then [] else Msb(v / 2, n - 1) + [v % 2 == 1]
  }

  /** The n low bits of v in the opposite order. */
  function Rev(v: nat, n: nat): nat {
    if n == 0 then 0 else (v % 2) * Pow2(n - 1) + Rev(v / 2, n - 1)
  }

  function Value(bits: seq<bool>): (r: nat)
    ensures r < Pow2(|bits|)
  {
    if bits == [] then 0 else (if bits[0] then 1 else 0) + 2 * Value(bits[1..])
  }

  lemma {:induction false} ValueOfLow(v: nat, n: nat)
    requires v < Pow2(n)
    ensures Value(Low(v, n)) == v
  {
    if n > 0 {
      ValueOfLow(v / 2, n - 1);
      assert Low(v, n)[1..] == Low(v / 2, n - 1);
    }
  }

  lemma {:induction false} RevBelow(v: nat, n: nat)
    ensures Rev(v, n) < Pow2(n)
  {
    if n > 0 {
      RevBelow(v / 2, n - 1);
      if v % 2 == 1 {
        assert (v % 2) * Pow2(n - 1) == Pow2(n - 1);
      } else {
        assert (v % 2) * Pow2(n - 1) == 0;
      }
    }
  }

  /** Adding a multiple of 2^n does not change the low n bits; the next bit comes on top. */
  lemma {:induction false} LowJoin(a: nat, n: nat, b: nat, k: nat)
    requires a < Pow2(n)
    ensures Low(a + b * Pow2(n), n + k) == Low(a, n) + Low(b, k)
  {
    if n == 0 {
      assert a + b * Pow2(0) == b;
      assert Low(a, 0) + Low(b, k) == Low(b, k);
    } else {
      ShiftStep(b, n);
      var x := b * Pow2(n - 1);
      assert a + b * Pow2(n) == a + 2 * x;
      assert (a + 2 * x) % 2 == a % 2 && (a + 2 * x) / 2 == a / 2 + x;
      LowJoin(a / 2, n - 1, b, k);
      assert Low(a, n) + Low(b, k) == [a % 2 == 1] + (Low(a / 2, n - 1) + Low(b, k));
    }
  }

  /** Sending the reversed value least significant bit first sends the value the other way round. */
  lemma {:induction false} LowOfRev(v: nat, n: nat)
    ensures Low(Rev(v, n), n) == Msb(v, n)
  {
    if n > 0 {
      LowOfRev(v / 2, n - 1);
      RevBelow(v / 2, n - 1);
      LowJoin(Rev(v / 2, n - 1), n - 1, v % 2, 1);
      assert Low(v % 2, 1) == [v % 2 == 1] + Low((v % 2) / 2, 0);
    }
  }

  /** v without its k low bits. */
  function Shift(v: nat, k: nat): nat {
    if k == 0 then v else Shift(v / 2, k - 1)
  }

  /** The first k of n bits are the k bits of the value shifted down. */
  lemma {:induction false} MsbPrefix(v: nat, n: nat, k: nat)
    requires k <= n
    ensures Msb(v, n)[..k] == Msb(Shift(v, n - k), k)
  {
    if k < n {
      MsbPrefix(v / 2, n - 1, k);
      assert Msb(v, n)[..k] == Msb(v / 2, n - 1)[..k];
    }
  }

  lemma {:induction false} ShiftAtLeast(v: nat, k: nat, w: nat)
    requires v >= w * Pow2(k)
    ensures Shift(v, k) >= w
  {
    if k > 0 {
      ShiftStep(w, k);
      ShiftAtLeast(v / 2, k - 1, w);
    }
  }

  lemma {:induction false} ShiftBelow(v: nat, k: nat, n: nat)
    requires v < Pow2(k + n)
    ensures Shift(v, k) < Pow2(n)
  {
    if k > 0 {
      ShiftBelow(v / 2, k - 1, n);
    }
  }

  lemma {:induction false} ShiftNext(v: nat, k: nat)
    ensures Shift(v, k + 1) == Shift(v, k) / 2
  {
    if k > 0 {
      ShiftNext(v / 2, k - 1);
    }
  }

  lemma {:induction false} MsbInjective(v: nat, w: nat, n: nat)
    requires v < Pow2(n) && w < Pow2(n) && Msb(v, n) == Msb(w, n)
    ensures v == w
  {
    if n > 0 {
      assert Msb(v, n)[n - 1] == Msb(w, n)[n - 1];
      assert Msb(v, n)[..n - 1] == Msb(v / 2, n - 1) && Msb(w, n)[..n - 1] == Msb(w / 2, n - 1);
      MsbInjective(v / 2, w / 2, n - 1);
    }
  }

  lemma OrEven(res: nat, b: nat)
    requires b < 2
    ensures Or(2 * res, b) == 2 * res + b
  {
  }

  /** Reversing one bit more puts it in front of the others. */
  lemma {:induction false} RevNext(v: nat, n: nat)
    ensures Rev(v, n + 1) == 2 * Rev(v, n) + Shift(v, n) % 2
  {
    if n == 0 {
      assert Rev(v, 1) == v % 2 * Pow2(0) + Rev(v / 2, 0);
    } else {
      RevNext(v / 2, n - 1);
      ShiftStep(v % 2, n);
    }
  }

  /** bi_reverse. */
  method BiReverse(value: nat, length: nat) returns (r: nat)
    requires 1 <= length
    ensures r == Rev(value, length)
  {
    var code, len, res := value, length, 0;
    while true
      invariant 1 <= len <= length && res == 2 * Rev(value, length - len) && code == Shift(value, length - len)
      decreases len
    {
      RevNext(value, length - len);
      ShiftNext(value, length - len);
      OrEven(Rev(value, length - len), code % 2);
      res := Or(res, code % 2);
      code, res := code / 2, res * 2;
      len := len - 1;
      if len <= 0 {
        break;
      }
    }
    r := res / 2;
  }
}
