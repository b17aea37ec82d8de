/** Merging numbers of six bits into bytes (coreutils/uudecode.c, in both formats). */
module Merging {
  import opened Words
  import opened Uuencode

  datatype Result = Result(ok: bool, out: seq<Byte>)

  /** The bitwise or of two numbers. */
  function Or(a: nat, b: nat): nat {
    if a == 0 && b == 0 then 0 else (if a % 2 == 1 || b % 2 == 1 then 1 else 0) + 2 * Or(a / 2, b / 2)
  }

  lemma {:induction false} OrZero(a: nat)
    ensures Or(a, 0) == a
  {
    if a > 0 {
      OrZero(a / 2);
    }
  }

  lemma OrDouble(a: nat, b: nat)
    ensures Or(2 * a, b) == b % 2 + 2 * Or(a, b / 2)
  {
  }

  /** Bits that do not overlap add up. */
  lemma {:induction false} OrShift(a: nat, b: nat, k: nat)
    requires b < Pow2(k)
    ensures Or(a * Pow2(k), b) == a * Pow2(k) + b
  {
    hide Or;
    if k == 0 {
      OrZero(a);
    } else {
      OrShift(a, b / 2, k - 1);
      var half := a * Pow2(k - 1);
      assert a * Pow2(k) == 2 * half by { assert Pow2(k) == 2 * Pow2(k - 1); }
      OrDouble(half, b);
    }
  }

  function Merge0(x: nat, y: nat): Byte {
    Or(x * 4, y / 16) % 256
  }

  function Merge1(x: nat, y: nat): Byte {
    Or(x * 16, y / 4) % 256
  }

  function Merge2(x: nat, y: nat): Byte {
    Or(x * 64, y) % 256
  }

  lemma SmallPowers()
    ensures Pow2(2) == 4 && Pow2(4) == 16 && Pow2(6) == 64
  {
    assert Pow2(1) == 2 && Pow2(3) == 8 && Pow2(5) == 32;
  }

  lemma Merge0Adds(x: nat, y: nat)
    requires x < 64 && y < 64
    ensures Merge0(x, y) == x * 4 + y / 16
  {
    hide Or, Pow2;
    SmallPowers();
    OrShift(x, y / 16, 2);
  }

  lemma Merge1Adds(x: nat, y: nat)
    requires x < 64 && y < 64
    ensures Merge1(x, y) == x % 16 * 16 + y / 4
  {
    hide Or, Pow2;
    SmallPowers();
    OrShift(x, y / 4, 4);
    assert x * 16 + y / 4 == 256 * (x / 16) + (x % 16 * 16 + y / 4);
  }

  lemma Merge2Adds(x: nat, y: nat)
    requires x < 64 && y < 64
    ensures Merge2(x, y) == x % 4 * 64 + y
  {
    hide Or, Pow2;
    SmallPowers();
    OrShift(x, y, 6);
    assert x * 64 + y == 256 * (x / 4) + (x % 4 * 64 + y);
  }

  /** Merging undoes the split into four. */
  lemma MergeFour(a: Byte, b: Byte, c: Byte)
    ensures var v := Four(a, b, c); Merge0(v[0], v[1]) == a && Merge1(v[1], v[2]) == b && Merge2(v[2], v[3]) == c
  {
    var v := Four(a, b, c);
    hide Merge0, Merge1, Merge2;
    Merge0Adds(v[0], v[1]);
    Merge1Adds(v[1], v[2]);
    Merge2Adds(v[2], v[3]);
  }

  /** The bytes of 24 bits. */
  lemma BytesOf24(a: nat, b: nat, c: nat, d: nat)
    requires a < 64 && b < 64 && c < 64 && d < 64
    ensures var v := a * 0x40000 + b * 0x1000 + c * 0x40 + d;
            && v / 0x10000 % 0x100 == a * 4 + b / 16 && v / 0x100 % 0x100 == b % 16 * 16 + c / 4
            && v % 0x100 == c % 4 * 64 + d
  {
    var v := a * 0x40000 + b * 0x1000 + c * 0x40 + d;
    assert v / 0x10000 == a * 4 + b / 16;
    assert v / 0x100 == (a * 4 + b / 16) * 0x100 + (b % 16 * 16 + c / 4);
  }

  /** The characters of the string come one after another from a given one. */
  predicate Ascending(s: string, from: char) {
    forall k :: 0 <= k < |s| ==> s[k] as int == from as int + k
  }

  lemma Alphabet()
    ensures |UPPER| == 26 && Ascending(UPPER, 'A') && |LOWER| == 26 && Ascending(LOWER, 'a')
    ensures |DIGITS| == 10 && Ascending(DIGITS, '0') && |SIGNS| == 15 && Ascending(SIGNS, '!')
    ensures Ascending(":;<=>?@", ':') && Ascending("[\\]^_", '[')
  {
  }

  lemma EncodedFirst(s: seq<Byte>, tbl: string, v: seq<int>, k: nat)
    requires |tbl| == 65 && s != [] && k < 4 && k <= |s|
    requires v == Four(s[0], if |s| > 1 then s[1] else 0, if |s| > 2 then s[2] else 0)
    ensures |Encoded(s, tbl)| >= 4 && Encoded(s, tbl)[k] == tbl[v[k]]
  {
    hide Four;
  }
}
