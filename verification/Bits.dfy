/** Natural numbers as bit strings: the shifts, masks and ors of bitwise.c. */
module Bits {
  import opened Bytes

  predicate Bit(x: nat, i: nat) {
    if i == 0 then x % 2 == 1 else Bit(x / 2, i - 1)
  }

  function Shr(x: nat, k: nat): nat {
    if k == 0 then x else Shr(x / 2, k - 1)
  }

  function Shl(x: nat, k: nat): nat {
    if k == 0 then x else 2 * Shl(x, k - 1)
  }

  /** The low `k` bits: `x & mask[k]`. */
  function Low(x: nat, k: nat): nat {
    if k == 0 then 0 else x % 2 + 2 * Low(x / 2, k - 1)
  }

  function Or(x: nat, y: nat): nat {
    if x == 0 then y else (if x % 2 == 1 || y % 2 == 1 then 1 else 0) + 2 * Or(x / 2, y / 2)
  }

  function Pow2(k: nat): (p: nat)
    ensures p > 0
  {
    if k == 0 then 1 else 2 * Pow2(k - 1)
  }

  /** An octet shifted left in a 32-bit `int` and converted to a 64-bit `unsigned long`: the sign is extended. */
  function IntShl(x: byte, k: nat): nat {
    var y := Low(Shl(x, k), 32);
    if y >= TWO31 then y + (TWO64 - TWO32) else y
  }

  // ----- Bits of the results -----

  lemma ShrBit(x: nat, k: nat, i: nat)
    ensures Bit(Shr(x, k), i) == Bit(x, i + k)
  {
    if k > 0 {
      ShrBit(x / 2, k - 1, i);
    }
  }

  lemma {:induction false} ShlBit(x: nat, k: nat, i: nat)
    ensures Bit(Shl(x, k), i) == (i >= k && Bit(x, i - k))
  {
    if k > 0 && i > 0 {
      ShlBit(x, k - 1, i - 1);
    }
  }

  lemma {:induction false} LowBit(x: nat, k: nat, i: nat)
    ensures Bit(Low(x, k), i) == (i < k && Bit(x, i))
  {
    if k == 0 {
      ZeroBit(i);
    } else if i > 0 {
      LowBit(x / 2, k - 1, i - 1);
    }
  }

  lemma {:induction false} ZeroBit(i: nat)
    ensures !Bit(0, i)
  {
    if i > 0 {
      ZeroBit(i - 1);
    }
  }

  lemma {:induction false} OrBit(x: nat, y: nat, i: nat)
    ensures Bit(Or(x, y), i) == (Bit(x, i) || Bit(y, i))
  {
    if x == 0 {
      ZeroBit(i);
    } else if i > 0 {
      OrBit(x / 2, y / 2, i - 1);
    }
  }

  lemma {:induction false} LowIsMod(x: nat, k: nat)
    ensures Low(x, k) == x % Pow2(k)
  {
    if k > 0 {
      LowIsMod(x / 2, k - 1);
      ModDouble(x, Pow2(k - 1));
    }
  }

  lemma ModDouble(x: nat, p: nat)
    requires p > 0
    ensures x % (2 * p) == x % 2 + 2 * (x / 2 % p)
  {
    var q, r := x / 2 / p, x / 2 % p;
    DivMod(x / 2, p);
    assert p * q * 2 == (2 * p) * q;
    ModUnique(x, 2 * p, q, 2 * r + x % 2);
  }

  lemma DivMod(x: nat, p: nat)
    requires p > 0
    ensures x == p * (x / p) + x % p && x % p < p
  {
  }

  lemma ModUnique(x: nat, p: nat, q: nat, r: nat)
    requires p > 0 && r < p && x == p * q + r
    ensures x % p == r
  {
    var d := x / p - q;
    assert x == p * (x / p) + x % p;
    assert p * d == r - x % p by { assert p * (x / p) - p * q == p * d; }
    MulBound(p, d);
  }

  lemma MulBound(p: nat, d: int)
    ensures d >= 1 ==> p * d >= p
    ensures d <= -1 ==> p * d <= -(p as int)
  {
  }

  lemma Pow2Values()
    ensures Pow2(8) == 256 && Pow2(32) == TWO32
  {
    assert Pow2(4) == 16;
    assert Pow2(8) == 256;
    assert Pow2(12) == 0x1000;
    assert Pow2(16) == 0x1_0000;
    assert Pow2(20) == 0x10_0000;
    assert Pow2(24) == 0x100_0000;
    assert Pow2(28) == 0x1000_0000;
    assert Pow2(32) == TWO32;
  }

  /** A number below 2^k has no bits from `k` on. */
  lemma {:induction false} SmallBit(x: nat, k: nat, i: nat)
    requires x < Pow2(k) && i >= k
    ensures !Bit(x, i)
  {
    LowIsMod(x, k);
    ModUnique(x, Pow2(k), 0, x);
    LowBit(x, k, i);
  }

  lemma ByteBit(b: byte, i: nat)
    ensures i >= 8 ==> !Bit(b, i)
  {
    if i >= 8 {
      Pow2Values();
      SmallBit(b, 8, i);
    }
  }

  /** Truncation to `unsigned char`. */
  lemma TruncBit(x: nat, i: nat)
    ensures Bit(x % 256, i) == (i < 8 && Bit(x, i))
  {
    Pow2Values();
    LowIsMod(x, 8);
    LowBit(x, 8, i);
  }

  lemma {:induction false} AddHigh(x: nat, y: nat, k: nat, i: nat)
    requires i < k && y % Pow2(k) == 0
    ensures Bit(x + y, i) == Bit(x, i)
    decreases k
  {
    var p := Pow2(k - 1);
    assert y == 2 * p * (y / (2 * p));
    assert y % 2 == 0 by { assert y == 2 * (p * (y / (2 * p))); }
    if i > 0 {
      assert (x + y) / 2 == x / 2 + y / 2;
      assert y / 2 == p * (y / (2 * p)) by { assert y == 2 * (p * (y / (2 * p))); }
      ModUnique(y / 2, p, y / (2 * p), 0);
      AddHigh(x / 2, y / 2, k - 1, i - 1);
    }
  }

  /** Of a shifted `int`, the low 32 bits are as expected. */
  lemma IntShlBit(x: byte, k: nat, i: nat)
    requires i < 32
    ensures Bit(IntShl(x, k), i) == (i >= k && Bit(x, i - k))
  {
    var y := Low(Shl(x, k), 32);
    Pow2Values();
    ShlBit(x, k, i);
    LowBit(Shl(x, k), 32, i);
    ModUnique(TWO64 - TWO32, TWO32, 0xFFFF_FFFF, 0);
    AddHigh(y, TWO64 - TWO32, 32, i);
  }

  /** The low bits are all there is to a masked number. */
  lemma {:induction false} LowUnique(x: nat, y: nat, k: nat)
    requires forall i :: 0 <= i < k ==> Bit(x, i) == Bit(y, i)
    ensures Low(x, k) == Low(y, k)
  {
    if k > 0 {
      assert Bit(x, 0) == Bit(y, 0);
      forall i | 0 <= i < k - 1
        ensures Bit(x / 2, i) == Bit(y / 2, i)
      {
        assert Bit(x, i + 1) == Bit(y, i + 1);
      }
      LowUnique(x / 2, y / 2, k - 1);
    }
  }

  lemma {:induction false} ShrLow(x: nat, k: nat, m: nat)
    requires m <= k
    ensures Shr(Low(x, k), m) == Low(Shr(x, m), k - m)
  {
    if m > 0 {
      ShrLow(x / 2, k - 1, m - 1);
    }
  }

  lemma {:induction false} ShrShr(x: nat, i: nat, j: nat)
    ensures Shr(Shr(x, i), j) == Shr(x, i + j)
  {
    if i > 0 {
      ShrShr(x / 2, i - 1, j);
    }
  }

  // ----- Bit strings -----

  /** The `n` low bits of a value, in the order in which they are packed. */
  function ToBits(msb: bool, value: nat, n: nat): (s: seq<bool>)
    ensures |s| == n
  {
    seq(n, i requires 0 <= i < n => Bit(value, if msb then n - 1 - i else i))
  }

  /** The number that a bit string denotes. */
  function Value(msb: bool, bits: seq<bool>): nat {
    if |bits| == 0 then 0
    else if msb then (if bits[|bits| - 1] then 1 else 0) + 2 * Value(msb, bits[..|bits| - 1])
    else (if bits[0] then 1 else 0) + 2 * Value(msb, bits[1..])
  }

  lemma BitHalf(value: nat, i: nat)
    ensures Bit(value, 0) == (value % 2 == 1) && Bit(value, i + 1) == Bit(value / 2, i)
  {
  }

  lemma {:induction false} ToBitsStep(msb: bool, value: nat, n: nat)
    requires n > 0
    ensures var s, t := ToBits(msb, value, n), ToBits(msb, value / 2, n - 1);
            if msb then s[n - 1] == (value % 2 == 1) && s[..n - 1] == t else s[0] == (value % 2 == 1) && s[1..] == t
  {
    hide Bit;
    var s, t := ToBits(msb, value, n), ToBits(msb, value / 2, n - 1);
    BitHalf(value, 0);
    forall i | 0 <= i < n - 1
      ensures t[i] == s[if msb then i else i + 1]
    {
      BitHalf(value, if msb then n - 2 - i else i);
    }
  }

  /** Packing and unpacking keep a value's low bits. */
  lemma {:induction false} ValueOfBits(msb: bool, value: nat, n: nat)
    ensures Value(msb, ToBits(msb, value, n)) == Low(value, n)
    decreases n
  {
    if n > 0 {
      ToBitsStep(msb, value, n);
      hide ToBits;
      ValueOfBits(msb, value / 2, n - 1);
    }
  }

  /** The bit of a packed buffer at position `i`. */
  predicate StreamBit(msb: bool, buffer: seq<byte>, i: nat)
    requires i < 8 * |buffer|
  {
    Bit(buffer[i / 8], if msb then 7 - i % 8 else i % 8)
  }

  function Stream(msb: bool, buffer: seq<byte>, n: nat): (s: seq<bool>)
    requires n <= 8 * |buffer|
    ensures |s| == n
  {
    seq(n, i requires 0 <= i < n => StreamBit(msb, buffer, i))
  }
}
