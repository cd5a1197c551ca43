/** The operations on 32-bit words of section 3.4 of RFC 1321, and what each of them means. */
module Md5Words {
  type Word = bv32

  function F(x: Word, y: Word, z: Word): Word { (x & y) | (!x & z) }
  function G(x: Word, y: Word, z: Word): Word { (x & z) | (y & !z) }
  function H(x: Word, y: Word, z: Word): Word { x ^ y ^ z }
  function I(x: Word, y: Word, z: Word): Word { y ^ (x | !z) }

  function RotateLeft(x: Word, n: Word): Word
    requires n <= 32
  {
    (x << n) | (x >> (32 - n))
  }

  /** Bit by bit, F is y where x has a one and z elsewhere. */
  lemma FSelects(x: Word, y: Word, z: Word)
    ensures F(x, y, z) & x == y & x && F(x, y, z) & !x == z & !x
  {
  }

  /** G is x where z has a one and y elsewhere. */
  lemma GSelects(x: Word, y: Word, z: Word)
    ensures G(x, y, z) & z == x & z && G(x, y, z) & !z == y & !z
  {
  }

  /** H is the parity: where z has a zero, a one if exactly one of x and y has, and the opposite elsewhere. */
  lemma HParity(x: Word, y: Word, z: Word)
    ensures H(x, y, z) & !z == ((x & !y) | (!x & y)) & !z && H(x, y, z) & z == ((x & y) | (!x & !y)) & z
  {
  }

  /** I is the opposite of y where z has a zero, and the parity of x and y elsewhere. */
  lemma IFlips(x: Word, y: Word, z: Word)
    ensures I(x, y, z) & !z == !y & !z && I(x, y, z) & z == (x ^ y) & z
  {
  }

  // Each rotation in use: the n upper bits of x have become the lower ones.

  lemma Rotates4(x: Word)
    ensures RotateLeft(x, 4) % 0x10 == x / 0x10000000 && RotateLeft(x, 4) / 0x10 == x % 0x10000000
  {
  }

  lemma Rotates5(x: Word)
    ensures RotateLeft(x, 5) % 0x20 == x / 0x8000000 && RotateLeft(x, 5) / 0x20 == x % 0x8000000
  {
  }

  lemma Rotates6(x: Word)
    ensures RotateLeft(x, 6) % 0x40 == x / 0x4000000 && RotateLeft(x, 6) / 0x40 == x % 0x4000000
  {
  }

  lemma Rotates7(x: Word)
    ensures RotateLeft(x, 7) % 0x80 == x / 0x2000000 && RotateLeft(x, 7) / 0x80 == x % 0x2000000
  {
  }

  lemma Rotates9(x: Word)
    ensures RotateLeft(x, 9) % 0x200 == x / 0x800000 && RotateLeft(x, 9) / 0x200 == x % 0x800000
  {
  }

  lemma Rotates10(x: Word)
    ensures RotateLeft(x, 10) % 0x400 == x / 0x400000 && RotateLeft(x, 10) / 0x400 == x % 0x400000
  {
  }

  lemma Rotates11(x: Word)
    ensures RotateLeft(x, 11) % 0x800 == x / 0x200000 && RotateLeft(x, 11) / 0x800 == x % 0x200000
  {
  }

  lemma Rotates12(x: Word)
    ensures RotateLeft(x, 12) % 0x1000 == x / 0x100000 && RotateLeft(x, 12) / 0x1000 == x % 0x100000
  {
  }

  lemma Rotates14(x: Word)
    ensures RotateLeft(x, 14) % 0x4000 == x / 0x40000 && RotateLeft(x, 14) / 0x4000 == x % 0x40000
  {
  }

  lemma Rotates15(x: Word)
    ensures RotateLeft(x, 15) % 0x8000 == x / 0x20000 && RotateLeft(x, 15) / 0x8000 == x % 0x20000
  {
  }

  lemma Rotates16(x: Word)
    ensures RotateLeft(x, 16) % 0x10000 == x / 0x10000 && RotateLeft(x, 16) / 0x10000 == x % 0x10000
  {
  }

  lemma Rotates17(x: Word)
    ensures RotateLeft(x, 17) % 0x20000 == x / 0x8000 && RotateLeft(x, 17) / 0x20000 == x % 0x8000
  {
  }

  lemma Rotates20(x: Word)
    ensures RotateLeft(x, 20) % 0x100000 == x / 0x1000 && RotateLeft(x, 20) / 0x100000 == x % 0x1000
  {
  }

  lemma Rotates21(x: Word)
    ensures RotateLeft(x, 21) % 0x200000 == x / 0x800 && RotateLeft(x, 21) / 0x200000 == x % 0x800
  {
  }

  lemma Rotates22(x: Word)
    ensures RotateLeft(x, 22) % 0x400000 == x / 0x400 && RotateLeft(x, 22) / 0x400000 == x % 0x400
  {
  }

  lemma Rotates23(x: Word)
    ensures RotateLeft(x, 23) % 0x800000 == x / 0x200 && RotateLeft(x, 23) / 0x800000 == x % 0x200
  {
  }

  /** With p * q == 2^32: the upper part of x, from q on, has become the lower part of r, below p. */
  predicate Turned(x: Word, r: Word, p: Word, q: Word)
    requires p != 0 && q != 0
  {
    r % p == x / q && r / p == x % q
  }

  lemma RotateLeftIs(x: Word)
    ensures Turned(x, RotateLeft(x, 7), 0x80, 0x2000000)
    ensures Turned(x, RotateLeft(x, 12), 0x1000, 0x100000)
    ensures Turned(x, RotateLeft(x, 17), 0x20000, 0x8000)
    ensures Turned(x, RotateLeft(x, 22), 0x400000, 0x400)
    ensures Turned(x, RotateLeft(x, 5), 0x20, 0x8000000)
    ensures Turned(x, RotateLeft(x, 9), 0x200, 0x800000)
    ensures Turned(x, RotateLeft(x, 14), 0x4000, 0x40000)
    ensures Turned(x, RotateLeft(x, 20), 0x100000, 0x1000)
    ensures Turned(x, RotateLeft(x, 4), 0x10, 0x10000000)
    ensures Turned(x, RotateLeft(x, 11), 0x800, 0x200000)
    ensures Turned(x, RotateLeft(x, 16), 0x10000, 0x10000)
    ensures Turned(x, RotateLeft(x, 23), 0x800000, 0x200)
    ensures Turned(x, RotateLeft(x, 6), 0x40, 0x4000000)
    ensures Turned(x, RotateLeft(x, 10), 0x400, 0x400000)
    ensures Turned(x, RotateLeft(x, 15), 0x8000, 0x20000)
    ensures Turned(x, RotateLeft(x, 21), 0x200000, 0x800)
  {
    hide RotateLeft;
    Rotates7(x); Rotates12(x); Rotates17(x); Rotates22(x);
    Rotates5(x); Rotates9(x); Rotates14(x); Rotates20(x);
    Rotates4(x); Rotates11(x); Rotates16(x); Rotates23(x);
    Rotates6(x); Rotates10(x); Rotates15(x); Rotates21(x);
  }

  /** Addition of 32-bit words wraps round. */
  function Plus(x: Word, y: Word): Word {
    x + y
  }

  /** ((a + (f + x + t)) <<< s) + b, the new value of the word in the role of `a`. */
  function Mix(a: Word, b: Word, f: Word, x: Word, t: Word, s: Word): Word
    requires s <= 32
  {
    Plus(RotateLeft(Plus(a, Plus(Plus(f, x), t)), s), b)
  }
}
