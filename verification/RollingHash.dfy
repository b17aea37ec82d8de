/**
 The rolling hash of the string matcher (archival/gzip.c, UPDATE_HASH).
 HASH_BITS is 13 in the SMALL_MEM configuration, so H_SHIFT is 5 and the key of a
 position is determined by exactly the MIN_MATCH bytes that start there.
 */
module RollingHash {
  import opened Words

  newtype byte = b: int | 0 <= b < 256

  const HASH_BITS := 13
  const HASH_SIZE := 8192
  const H_SHIFT := 5

  function UpdateHash(h: nat, c: byte): (r: nat)
    ensures r < HASH_SIZE
  {
    Xor(h * 32, c as nat) % HASH_SIZE
  }

  /** The key of three consecutive bytes. */
  function Hash3(a: byte, b: byte, c: byte): (r: nat)
    ensures r < HASH_SIZE
  {
    UpdateHash(UpdateHash(UpdateHash(0, a), b), c)
  }

  lemma Constants()
    ensures Pow2(HASH_BITS) == HASH_SIZE
    ensures Pow2(H_SHIFT) == 32 && Pow2(3) == 8 && Pow2(8) == 256
    ensures H_SHIFT * 3 >= HASH_BITS
  {
    assert Pow2(5) == 32;
    assert Pow2(8) == 8 * Pow2(5);
    assert Pow2(11) == 8 * Pow2(8);
    assert Pow2(13) == 4 * Pow2(11);
  }

  lemma ModOfMod(x: nat)
    ensures (x % HASH_SIZE) % 8 == x % 8 && (x % HASH_SIZE) % 256 == x % 256
  {
  }

  lemma ShiftedMod(h: nat)
    ensures (h * 32) % 8 == 0
    ensures (h * 32) % 256 == (h % 8) * 32
    ensures (h * 32) % HASH_SIZE == (h % 256) * 32
  {
    ModUnique(h * 32, 8, h * 4, 0);
    ModUnique(h * 32, 256, h / 8, (h % 8) * 32);
    ModUnique(h * 32, HASH_SIZE, h / 256, (h % 256) * 32);
  }

  /** Keys agree modulo 8 whatever they were before. */
  lemma ForgetOldest(h: nat, h': nat, c: byte)
    ensures UpdateHash(h, c) % 8 == UpdateHash(h', c) % 8
  {
    hide Xor, Pow2;
    Constants();
    ShiftedMod(h);
    ShiftedMod(h');
    XorModCongruent(h * 32, h' * 32, c as nat, 3, 8);
    ModOfMod(Xor(h * 32, c as nat));
    ModOfMod(Xor(h' * 32, c as nat));
  }

  lemma ForgetMiddle(h: nat, h': nat, c: byte)
    requires h % 8 == h' % 8
    ensures UpdateHash(h, c) % 256 == UpdateHash(h', c) % 256
  {
    hide Xor, Pow2;
    Constants();
    ShiftedMod(h);
    ShiftedMod(h');
    XorModCongruent(h * 32, h' * 32, c as nat, 8, 256);
    ModOfMod(Xor(h * 32, c as nat));
    ModOfMod(Xor(h' * 32, c as nat));
  }

  lemma ForgetNewest(h: nat, h': nat, c: byte)
    requires h % 256 == h' % 256
    ensures UpdateHash(h, c) == UpdateHash(h', c)
  {
    hide Xor, Pow2;
    Constants();
    ShiftedMod(h);
    ShiftedMod(h');
    XorModCongruent(h * 32, h' * 32, c as nat, HASH_BITS, HASH_SIZE);
  }

  /** After MIN_MATCH updates nothing older than those bytes is left in the key. */
  lemma RollingIsHash3(h: nat, a: byte, b: byte, c: byte)
    ensures UpdateHash(UpdateHash(UpdateHash(h, a), b), c) == Hash3(a, b, c)
  {
    hide UpdateHash;
    ForgetOldest(h, 0, a);
    ForgetMiddle(UpdateHash(h, a), UpdateHash(0, a), b);
    ForgetNewest(UpdateHash(UpdateHash(h, a), b), UpdateHash(UpdateHash(0, a), b), c);
  }

  /** Equal keys and equal first two bytes force the third byte to be equal. */
  lemma ThirdByteForced(a: byte, b: byte, c: byte, c': byte)
    requires Hash3(a, b, c) == Hash3(a, b, c')
    ensures c == c'
  {
    hide Xor, Pow2;
    var g := UpdateHash(UpdateHash(0, a), b);
    Constants();
    XorModCancel(g * 32, c as nat, c' as nat, HASH_BITS, HASH_SIZE);
  }
}
