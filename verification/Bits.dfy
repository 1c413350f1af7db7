/** Machine-word operations of the decoder on non-negative integers (shifts and masks, bit by
    bit) and the little-endian reading of a byte string as one number. */
module Bits {

  type byte = x: int | 0 <= x < 256

  /** A C# `int` that is never negative; assigning to a variable of this type proves that 32 bits
      were enough. */
  type nat32 = x: int | 0 <= x < 0x8000_0000

  function Pow2(n: nat): (r: nat)
    ensures r >= 1
  {
    if n == 0 then 1 else 2 * Pow2(n - 1)
  }

  /** `x & y` */
  function BitAnd(x: nat, y: nat): nat {
    if x == 0 || y == 0 then 0
    else (if x % 2 == 1 && y % 2 == 1 then 1 else 0) + 2 * BitAnd(x / 2, y / 2)
  }

  /** `x >> k` */
  function Shr(x: nat, k: nat): nat
    decreases k
  {
    if k == 0 then x else Shr(x / 2, k - 1)
  }

  /** `x << k` */
  function Shl(x: nat, k: nat): nat {
    if k == 0 then x else 2 * Shl(x, k - 1)
  }

  /** The k low bits of x. */
  function Low(x: nat, k: nat): nat
    decreases k
  {
    if k == 0 then 0 else x % 2 + 2 * Low(x / 2, k - 1)
  }

  lemma {:induction false} ShlOne(k: nat)
    ensures Shl(1, k) == Pow2(k)
  {
    if k > 0 {
      ShlOne(k - 1);
    }
  }

  lemma {:induction false} ShlTwo(k: nat)
    ensures Shl(2, k) == Pow2(k + 1)
  {
    if k > 0 {
      ShlTwo(k - 1);
    }
  }

  /** The number of binary digits of n. */
  function BitLength(n: nat): nat {
    if n == 0 then 0 else 1 + BitLength(n / 2)
  }

  /** The number whose base-256 digits, least significant first, are `s`. */
  function LittleEndian(s: seq<byte>): nat {
    if s == [] then 0 else s[0] + 256 * LittleEndian(s[1..])
  }

  /** Bits [p, p + w) of the little-endian number `s`. */
  function Slice(s: seq<byte>, p: nat, w: nat): nat {
    Low(Shr(LittleEndian(s), p), w)
  }

  lemma {:induction false} Pow2Less(a: nat, b: nat)
    ensures a < b ==> 2 * Pow2(a) <= Pow2(b)
    decreases b
  {
    if a < b - 1 {
      Pow2Less(a, b - 1);
    }
  }

  lemma Pow2Values()
    ensures Pow2(0) == 1 && Pow2(1) == 2 && Pow2(2) == 4 && Pow2(3) == 8 && Pow2(4) == 16 && Pow2(5) == 32
    ensures Pow2(6) == 64 && Pow2(7) == 128 && Pow2(8) == 256 && Pow2(9) == 512 && Pow2(10) == 1024
    ensures Pow2(11) == 2048 && Pow2(12) == 4096 && Pow2(19) == 0x8_0000 && Pow2(20) == 0x10_0000
  {
    assert Pow2(4) == 16;
    assert Pow2(8) == 256;
    assert Pow2(12) == 4096;
    assert Pow2(16) == 65536;
  }

  lemma {:induction false} Pow2Range(m: nat)
    requires 2 <= m <= 11
    ensures 4 <= Pow2(m) <= 2048
  {
    Pow2Values();
    Pow2Less(2, m);
    Pow2Less(m, 11);
  }

  /** Masking with 2^k - 1 keeps the k low bits. */
  lemma {:induction false} BitAndMask(x: nat, k: nat)
    ensures BitAnd(x, Pow2(k) - 1) == Low(x, k)
    decreases k
  {
    if x == 0 {
      LowSmall(0, k);
    } else if k > 0 {
      BitAndMask(x / 2, k - 1);
    }
  }

  /** A mask that begins with a zero bit. */
  lemma BitAndHalf(x: nat, y: nat)
    ensures BitAnd(x, 2 * y) == 2 * BitAnd(x / 2, y)
  {
    if x == 0 || y == 0 {
      assert BitAnd(x, 2 * y) == 0;
      assert BitAnd(x / 2, y) == 0;
    }
  }

  /** A shifted mask. */
  lemma {:induction false} BitAndShl(x: nat, y: nat, k: nat)
    ensures BitAnd(x, Shl(y, k)) == Shl(BitAnd(Shr(x, k), y), k)
    decreases k
  {
    if k > 0 {
      BitAndHalf(x, Shl(y, k - 1));
      BitAndShl(x / 2, y, k - 1);
      hide BitAnd;
    }
  }

  /** One bit. */
  lemma BitAndOne(x: nat)
    ensures BitAnd(x, 1) == x % 2
  {
    assert x > 0 ==> BitAnd(x / 2, 0) == 0;
  }

  lemma {:induction false} LowSmall(x: nat, k: nat)
    requires x < Pow2(k)
    ensures Low(x, k) == x
    decreases k
  {
    if k > 0 {
      LowSmall(x / 2, k - 1);
    }
  }

  lemma {:induction false} LowBound(x: nat, k: nat)
    ensures Low(x, k) < Pow2(k)
    decreases k
  {
    if k > 0 {
      LowBound(x / 2, k - 1);
    }
  }

  /** The bit length is the only w with 2^(w-1) <= n < 2^w. */
  lemma {:induction false} BitLengthUnique(n: nat, w: nat)
    requires w >= 1 && Pow2(w - 1) <= n < Pow2(w)
    ensures BitLength(n) == w
    decreases w
  {
    if w > 1 {
      BitLengthUnique(n / 2, w - 1);
    }
  }

  lemma {:induction false} BitLengthBounds(n: nat)
    requires n >= 1
    ensures BitLength(n) >= 1 && Pow2(BitLength(n) - 1) <= n < Pow2(BitLength(n))
  {
    if n > 1 {
      BitLengthBounds(n / 2);
    }
  }

  lemma BitLengthWithin(n: nat, lo: nat, hi: nat)
    requires Pow2(lo) <= n < Pow2(hi)
    ensures lo < BitLength(n) <= hi
  {
    var w := BitLength(n);
    BitLengthBounds(n);
    Pow2Less(w, lo);
    Pow2Less(hi, w - 1);
  }

  /** Shifting out bits below those of an added, shifted number. */
  lemma {:induction false} ShrOfSum(x: nat, y: nat, p: nat, n: nat)
    requires p <= n
    ensures Shr(x + Shl(y, n), p) == Shr(x, p) + Shl(y, n - p)
    decreases p
  {
    if p > 0 {
      assert (x + Shl(y, n)) / 2 == x / 2 + Shl(y, n - 1);
      ShrOfSum(x / 2, y, p - 1, n - 1);
    }
  }

  lemma {:induction false} LowOfSum(x: nat, y: nat, w: nat, n: nat)
    requires w <= n
    ensures Low(x + Shl(y, n), w) == Low(x, w)
    decreases w
  {
    if w > 0 {
      assert (x + Shl(y, n)) / 2 == x / 2 + Shl(y, n - 1);
      LowOfSum(x / 2, y, w - 1, n - 1);
    }
  }

  lemma {:induction false} ShrTwice(x: nat, p: nat, w: nat)
    ensures Shr(Shr(x, p), w) == Shr(x, p + w)
    decreases p
  {
    if p > 0 {
      ShrTwice(x / 2, p - 1, w);
    }
  }

  lemma {:induction false} ShrShrinks(x: nat, k: nat)
    ensures Shr(x, k) <= x
    decreases k
  {
    if k > 0 {
      ShrShrinks(x / 2, k - 1);
    }
  }

  lemma {:induction false} ShrBound(x: nat, p: nat, b: nat)
    requires x < Pow2(p + b)
    ensures Shr(x, p) < Pow2(b)
    decreases p
  {
    if p > 0 {
      ShrBound(x / 2, p - 1, b);
    }
  }

  lemma {:induction false} LittleEndianConcat(s: seq<byte>, t: seq<byte>)
    ensures LittleEndian(s + t) == LittleEndian(s) + Shl(LittleEndian(t), 8 * |s|)
  {
    if s == [] {
      assert s + t == t;
    } else {
      assert (s + t)[1..] == s[1..] + t;
      LittleEndianConcat(s[1..], t);
      ShlByte(LittleEndian(t), |s[1..]|);
    }
  }

  lemma ShlByte(x: nat, n: nat)
    ensures Shl(x, 8 * (n + 1)) == 256 * Shl(x, 8 * n)
  {
    var k := 8 * n;
    assert Shl(x, k + 2) == 4 * Shl(x, k);
    assert Shl(x, k + 4) == 4 * Shl(x, k + 2);
    assert Shl(x, k + 6) == 4 * Shl(x, k + 4);
    assert Shl(x, k + 8) == 4 * Shl(x, k + 6);
  }

  lemma {:induction false} LittleEndianBound(s: seq<byte>)
    ensures LittleEndian(s) < Pow2(8 * |s|)
  {
    if s != [] {
      LittleEndianBound(s[1..]);
      Pow2Byte(8 * |s[1..]|);
    }
  }

  lemma Pow2Byte(n: nat)
    ensures Pow2(n + 8) == 256 * Pow2(n)
  {
    assert Pow2(n + 2) == 4 * Pow2(n);
    assert Pow2(n + 4) == 4 * Pow2(n + 2);
    assert Pow2(n + 6) == 4 * Pow2(n + 4);
    assert Pow2(n + 8) == 4 * Pow2(n + 6);
  }

  /** A slice inside the first k bytes does not depend on the bytes after them. */
  lemma SliceOfPrefix(s: seq<byte>, k: nat, p: nat, w: nat)
    requires k <= |s| && p + w <= 8 * k
    ensures Slice(s, p, w) == Slice(s[..k], p, w)
  {
    var t, u := s[..k], s[k..];
    assert s == t + u;
    LittleEndianConcat(t, u);
    ShrOfSum(LittleEndian(t), LittleEndian(u), p, 8 * k);
    LowOfSum(Shr(LittleEndian(t), p), LittleEndian(u), w, 8 * k - p);
  }
}
