/** The octets that bitwise.c stores and the words it assembles, bit by bit. */
module Packing {
  import opened Bytes
  import opened Bits

  // ----- Storing -----

  /** The octet that `oggpack_write` or `oggpackB_write` stores at `ptr[k]`; `v` is the masked value. */
  function StoredByte(msb: bool, old0: byte, v: nat, bits: nat, endbit: nat, k: nat): byte
    requires bits <= 32 && endbit < 8 && k <= 4
  {
    if !msb then
      if k == 0 then Or(old0, Shl(v, endbit)) % 256 else Shr(v, 8 * k - endbit) % 256
    else
      var w := Shl(v, 32 - bits);
      if k == 0 then Or(old0, Shr(w, 24 + endbit)) % 256
      else if k < 4 then Shr(w, 24 - 8 * k + endbit) % 256
      else Shl(w, 8 - endbit) % 256
  }

  /** Where bit `q` (in stream order) of octet `k` comes from. */
  lemma {:induction false} StoredBit(msb: bool, old0: byte, value: nat, bits: nat, endbit: nat, k: nat, q: nat)
    requires bits <= 32 && endbit < 8 && k <= 4 && q < 8
    ensures var b, t := StoredByte(msb, old0, Low(value, bits), bits, endbit, k), 8 * k + q - endbit;
            Bit(b, if msb then 7 - q else q)
            == ((k == 0 && Bit(old0, if msb then 7 - q else q)) || (0 <= t < bits && Bit(value, if msb then bits - 1 - t else t)))
  {
    if msb {
      StoredBitB(old0, value, bits, endbit, k, q);
    } else {
      StoredBitL(old0, value, bits, endbit, k, q);
    }
  }

  lemma {:induction false} StoredBitL(old0: byte, value: nat, bits: nat, endbit: nat, k: nat, q: nat)
    requires bits <= 32 && endbit < 8 && k <= 4 && q < 8
    ensures var b, t := StoredByte(false, old0, Low(value, bits), bits, endbit, k), 8 * k + q - endbit;
            Bit(b, q) == ((k == 0 && Bit(old0, q)) || (0 <= t < bits && Bit(value, t)))
  {
    hide Bit, Low, Shl, Shr, Or;
    var v := Low(value, bits);
    if k == 0 {
      TruncBit(Or(old0, Shl(v, endbit)), q);
      OrBit(old0, Shl(v, endbit), q);
      ShlBit(v, endbit, q);
      if q >= endbit {
        LowBit(value, bits, q - endbit);
      }
    } else {
      TruncBit(Shr(v, 8 * k - endbit), q);
      ShrBit(v, 8 * k - endbit, q);
      LowBit(value, bits, 8 * k + q - endbit);
    }
  }

  lemma {:induction false} StoredBitB(old0: byte, value: nat, bits: nat, endbit: nat, k: nat, q: nat)
    requires bits <= 32 && endbit < 8 && k <= 4 && q < 8
    ensures var b, t := StoredByte(true, old0, Low(value, bits), bits, endbit, k), 8 * k + q - endbit;
            Bit(b, 7 - q) == ((k == 0 && Bit(old0, 7 - q)) || (0 <= t < bits && Bit(value, bits - 1 - t)))
  {
    hide Bit, Low, Shl, Shr, Or;
    var v := Low(value, bits);
    var w, p, t := Shl(v, 32 - bits), 7 - q, 8 * k + q - endbit;
    if k == 0 {
      TruncBit(Or(old0, Shr(w, 24 + endbit)), p);
      OrBit(old0, Shr(w, 24 + endbit), p);
      ShrBit(w, 24 + endbit, p);
      WordBit(value, bits, p + 24 + endbit);
    } else if k < 4 {
      TruncBit(Shr(w, 24 - 8 * k + endbit), p);
      ShrBit(w, 24 - 8 * k + endbit, p);
      WordBit(value, bits, p + 24 - 8 * k + endbit);
    } else {
      TruncBit(Shl(w, 8 - endbit), p);
      ShlBit(w, 8 - endbit, p);
      if p >= 8 - endbit {
        WordBit(value, bits, p - (8 - endbit));
      }
    }
  }

  /** A masked value moved to the top of a 32-bit word. */
  lemma {:induction false} WordBit(value: nat, bits: nat, i: nat)
    requires bits <= 32
    ensures Bit(Shl(Low(value, bits), 32 - bits), i) == (32 - bits <= i < 32 && Bit(value, i - (32 - bits)))
  {
    hide Bit, Low, Shl;
    ShlBit(Low(value, bits), 32 - bits, i);
    if i >= 32 - bits {
      LowBit(value, bits, i - (32 - bits));
    }
  }

  /** `StoredByte` over the octets `ptr[0]` to `ptr[n / 8]`, the rest of the buffer untouched. */
  ghost predicate Stored(msb: bool, b: seq<byte>, b': seq<byte>, endbyte: nat, endbit: nat, value: nat, bits: nat)
    requires bits <= 32 && endbit < 8 && endbyte + (bits + endbit) / 8 < |b| == |b'|
  {
    && b'[..endbyte] == b[..endbyte]
    && forall k :: 0 <= k <= (bits + endbit) / 8 ==>
         b'[endbyte + k] == StoredByte(msb, b[endbyte], Low(value, bits), bits, endbit, k)
  }

  /** The bits after position `n` in the current octet are clear. */
  ghost predicate ZeroTail(msb: bool, b: seq<byte>, n: nat)
    requires n / 8 < |b|
  {
    forall i :: n <= i < 8 * (n / 8) + 8 ==> !StreamBit(msb, b, i)
  }

  /** Where each bit of the buffer comes from after a store. */
  lemma {:induction false} BitAfterStore(msb: bool, b: seq<byte>, b': seq<byte>, endbyte: nat, endbit: nat, value: nat,
                                         bits: nat, i: nat)
    requires bits <= 32 && endbit < 8 && endbyte + (bits + endbit) / 8 < |b| == |b'|
    requires Stored(msb, b, b', endbyte, endbit, value, bits) && ZeroTail(msb, b, 8 * endbyte + endbit)
    requires i < 8 * (endbyte + (bits + endbit) / 8) + 8
    ensures var pos := 8 * endbyte + endbit;
            StreamBit(msb, b', i) == if i < pos then StreamBit(msb, b, i)
                                     else i < pos + bits && Bit(value, if msb then bits - 1 - (i - pos) else i - pos)
  {
    hide Bit, StoredByte, Low;
    var pos, k, q := 8 * endbyte + endbit, i / 8 - endbyte, i % 8;
    if k >= 0 {
      StoredBit(msb, b[endbyte], value, bits, endbit, k, q);
      assert b'[i / 8] == b'[endbyte + k];
      if k == 0 {
        assert StreamBit(msb, b, i) == Bit(b[endbyte], if msb then 7 - q else q);
        if i >= pos {
          TailClear(msb, b, pos, i);
        }
      }
    } else {
      assert b'[i / 8] == b'[..endbyte][i / 8];
    }
  }

  lemma {:induction false} TailClear(msb: bool, b: seq<byte>, n: nat, i: nat)
    requires n / 8 < |b| && ZeroTail(msb, b, n) && n <= i < 8 * (n / 8) + 8
    ensures !StreamBit(msb, b, i)
  {
  }

  /** One store appends the value's bits ... */
  lemma {:induction false} StoreAppends(msb: bool, b: seq<byte>, b': seq<byte>, endbyte: nat, endbit: nat, value: nat, bits: nat)
    requires bits <= 32 && endbit < 8 && endbyte + (bits + endbit) / 8 < |b| == |b'|
    requires Stored(msb, b, b', endbyte, endbit, value, bits) && ZeroTail(msb, b, 8 * endbyte + endbit)
    ensures var pos := 8 * endbyte + endbit; Stream(msb, b', pos + bits) == Stream(msb, b, pos) + ToBits(msb, value, bits)
  {
    hide Bit, StreamBit, Stored, ZeroTail;
    var pos := 8 * endbyte + endbit;
    var x, y := Stream(msb, b, pos), ToBits(msb, value, bits);
    var s := Stream(msb, b', pos + bits);
    forall i | 0 <= i < pos + bits
      ensures s[i] == if i < pos then x[i] else y[i - pos]
    {
      BitAfterStore(msb, b, b', endbyte, endbit, value, bits, i);
    }
    Joined(s, x, y);
  }

  lemma {:induction false} Joined<T>(s: seq<T>, x: seq<T>, y: seq<T>)
    requires |s| == |x| + |y| && forall i :: 0 <= i < |s| ==> s[i] == if i < |x| then x[i] else y[i - |x|]
    ensures s == x + y
  {
  }

  /** ... and leaves the rest of the last octet clear. */
  lemma {:induction false} StoreKeepsTail(msb: bool, b: seq<byte>, b': seq<byte>, endbyte: nat, endbit: nat, value: nat,
                                          bits: nat)
    requires bits <= 32 && endbit < 8 && endbyte + (bits + endbit) / 8 < |b| == |b'|
    requires Stored(msb, b, b', endbyte, endbit, value, bits) && ZeroTail(msb, b, 8 * endbyte + endbit)
    ensures ZeroTail(msb, b', 8 * endbyte + endbit + bits)
  {
    hide Bit, StreamBit, Stored;
    var pos := 8 * endbyte + endbit;
    forall i | pos + bits <= i < 8 * ((pos + bits) / 8) + 8
      ensures !StreamBit(msb, b', i)
    {
      BitAfterStore(msb, b, b', endbyte, endbit, value, bits, i);
    }
  }

  /** The store to `ptr[4]` is a zero when the value ends there. */
  lemma {:induction false} FifthByte(value: nat)
    ensures StoredByte(false, 0, Low(value, 32), 32, 0, 4) == 0 && StoredByte(true, 0, Low(value, 32), 32, 0, 4) == 0
  {
    ShrLow(value, 32, 32);
    var w := Shl(Low(value, 32), 0);
    assert Shl(w, 2) == 4 * w;
    assert Shl(w, 4) == 4 * Shl(w, 2);
    assert Shl(w, 6) == 4 * Shl(w, 4);
    assert Shl(w, 8) == 4 * Shl(w, 6);
  }

  // ----- Assembling -----

  /** The contribution of `ptr[k]` to the word that `look` and `read` assemble. */
  function Part(msb: bool, b: byte, endbit: nat, k: nat): nat
    requires endbit < 8 && k <= 4
  {
    if !msb then
      if k == 0 then Shr(b, endbit) else IntShl(b, 8 * k - endbit)
    else
      if k < 4 then IntShl(b, 24 - 8 * k + endbit) else Shr(b, 8 - endbit)
  }

  /** Or of the contributions of `ptr[0]` to `ptr[n]`. */
  function Assembled(msb: bool, b: seq<byte>, at: nat, endbit: nat, n: nat): nat
    requires endbit < 8 && n <= 4 && at + n < |b|
  {
    if n == 0 then Part(msb, b[at], endbit, 0)
    else Or(Assembled(msb, b, at, endbit, n - 1), Part(msb, b[at + n], endbit, n))
  }

  /** The octet, counted from the current one, with the last of `total` bits. */
  function LastOctet(total: nat): nat {
    if total == 0 then 0 else (total - 1) / 8
  }

  /** The requested bits of an assembled word. */
  function Extract(msb: bool, word: nat, bits: nat): nat
    requires bits <= 32
  {
    var m := 32 - bits;
    if msb then Shr(Shr(Low(word, 32), m / 2), (m + 1) / 2) else Low(word, bits)
  }

  /** Bit `t` in stream order, counted from `endbit`, of the word lies in one octet. */
  lemma {:induction false} PartBit(msb: bool, b: byte, endbit: nat, k: nat, t: nat)
    requires endbit < 8 && k <= 4 && t < 32
    ensures var q := t + endbit - 8 * k;
            Bit(Part(msb, b, endbit, k), if msb then 31 - t else t) == (0 <= q < 8 && Bit(b, if msb then 7 - q else q))
  {
    hide Bit, Shr, IntShl;
    var q := t + endbit - 8 * k;
    if !msb {
      if k == 0 {
        ShrBit(b, endbit, t);
        ByteBit(b, t + endbit);
      } else {
        IntShlBit(b, 8 * k - endbit, t);
        if t >= 8 * k - endbit {
          ByteBit(b, t - (8 * k - endbit));
        }
      }
    } else {
      var s := 31 - t;
      if k < 4 {
        IntShlBit(b, 24 - 8 * k + endbit, s);
        if s >= 24 - 8 * k + endbit {
          ByteBit(b, s - (24 - 8 * k + endbit));
        }
      } else {
        ShrBit(b, 8 - endbit, s);
        ByteBit(b, s + (8 - endbit));
      }
    }
  }

  lemma {:induction false} AssembledBit(msb: bool, b: seq<byte>, at: nat, endbit: nat, n: nat, t: nat)
    requires endbit < 8 && n <= 4 && at + n < |b| && t < 32 && t + endbit < 8 * n + 8
    ensures Bit(Assembled(msb, b, at, endbit, n), if msb then 31 - t else t) == StreamBit(msb, b, 8 * at + endbit + t)
    decreases n
  {
    hide Bit, Part;
    var p := if msb then 31 - t else t;
    PartBit(msb, b[at + n], endbit, n, t);
    if n > 0 {
      OrBit(Assembled(msb, b, at, endbit, n - 1), Part(msb, b[at + n], endbit, n), p);
      if t + endbit < 8 * n {
        AssembledBit(msb, b, at, endbit, n - 1, t);
      } else {
        AssembledHigh(msb, b, at, endbit, n - 1, t);
      }
    }
  }

  lemma {:induction false} AssembledHigh(msb: bool, b: seq<byte>, at: nat, endbit: nat, n: nat, t: nat)
    requires endbit < 8 && n <= 4 && at + n < |b| && t < 32 && t + endbit >= 8 * n + 8
    ensures !Bit(Assembled(msb, b, at, endbit, n), if msb then 31 - t else t)
    decreases n
  {
    hide Bit, Part;
    var p := if msb then 31 - t else t;
    PartBit(msb, b[at + n], endbit, n, t);
    if n > 0 {
      OrBit(Assembled(msb, b, at, endbit, n - 1), Part(msb, b[at + n], endbit, n), p);
      AssembledHigh(msb, b, at, endbit, n - 1, t);
    }
  }

  /** The extracted number is the one the stream denotes at that position. */
  lemma {:induction false} ExtractIsValue(msb: bool, b: seq<byte>, at: nat, endbit: nat, n: nat, bits: nat)
    requires endbit < 8 && n <= 4 && at + n < |b| && bits <= 32 && bits + endbit <= 8 * n + 8
    ensures var pos := 8 * at + endbit;
            Extract(msb, Assembled(msb, b, at, endbit, n), bits) == Value(msb, Stream(msb, b, pos + bits)[pos..])
  {
    hide Bit, Assembled, Low, Shr, Value, StreamBit;
    var pos, word, m := 8 * at + endbit, Assembled(msb, b, at, endbit, n), 32 - bits;
    var x := if msb then Shr(word, m) else word;
    if msb {
      ShrShr(Low(word, 32), m / 2, (m + 1) / 2);
      ShrLow(word, 32, m);
    }
    var s, r := Stream(msb, b, pos + bits)[pos..], ToBits(msb, x, bits);
    forall i | 0 <= i < bits
      ensures r[i] == s[i]
    {
      AssembledBit(msb, b, at, endbit, n, i);
      if msb {
        ShrBit(word, m, bits - 1 - i);
      }
    }
    assert r == s;
    ValueOfBits(msb, x, bits);
  }

  // ----- Reading -----

  /** What a request for `n` bits at position `pos` is worth, given `storage` octets. */
  function ValueAt(msb: bool, b: seq<byte>, storage: nat, pos: nat, n: int): int
    requires storage <= |b|
  {
    if n < 0 || n > 32 || pos + n > 8 * storage then -1 else Value(msb, Stream(msb, b, pos + n)[pos..])
  }

  /** C's division by 8, which drops the fraction. */
  function Truncated(n: int): int {
    if n >= 0 then n / 8 else -((-n) / 8)
  }

  /** Whether moving back by a negative width does not leave the octet, or ends at an octet boundary. Otherwise the
      octet is counted by truncating and the bit by masking, which do not agree. */
  predicate LandsRight(endbit: nat, bits: int) {
    endbit + bits >= 0 || (endbit + bits) % 8 == 0
  }

  /** The position after advancing by `n` bits: past the end, it is stuck there. */
  function Advanced(storage: nat, pos: nat, n: nat): (p: nat)
    ensures pos > 8 * storage ==> p > 8 * storage
  {
    if pos + n > 8 * storage then 8 * storage + 1 else pos + n
  }

  /** The position after a read, which also rejects widths out of range. */
  function AfterRead(storage: nat, pos: nat, n: int): (p: nat)
    ensures pos > 8 * storage ==> p > 8 * storage
  {
    if n < 0 || n > 32 then 8 * storage + 1 else Advanced(storage, pos, n)
  }

  // ----- Other ways to write -----

  /** The `n` first bits of an octet: `& mask[n]` or `& mask8B[n]`. */
  function KeepFirst(msb: bool, b: byte, n: nat): nat
    requires n < 8
  {
    if msb then Shl(Shr(b, 8 - n), 8 - n) else Low(b, n)
  }

  lemma {:induction false} KeepFirstBit(msb: bool, b: byte, n: nat, q: nat)
    requires n < 8 && q < 8
    ensures var p := if msb then 7 - q else q; Bit(KeepFirst(msb, b, n), p) == (q < n && Bit(b, p))
  {
    hide Bit, Low, Shl, Shr;
    if msb {
      ShlBit(Shr(b, 8 - n), 8 - n, 7 - q);
      if q < n {
        ShrBit(b, 8 - n, 7 - q - (8 - n));
      }
    } else {
      LowBit(b, n, q);
    }
  }

  lemma {:induction false} KeepFirstByte(msb: bool, b: byte, n: nat)
    requires n < 8
    ensures KeepFirst(msb, b, n) < 256
  {
    hide Bit, Low, Shl, Shr;
    var x := KeepFirst(msb, b, n);
    if msb {
      ShlShr(b, 8 - n);
    } else {
      LowIsMod(b, n);
      LowAtMost(b, n);
    }
  }

  lemma {:induction false} LowAtMost(x: nat, k: nat)
    ensures Low(x, k) <= x
  {
    if k > 0 {
      LowAtMost(x / 2, k - 1);
    }
  }

  lemma {:induction false} ShlShr(x: nat, k: nat)
    ensures Shl(Shr(x, k), k) <= x
  {
    if k > 0 {
      ShlShr(x / 2, k - 1);
    }
  }

  /** Cutting a buffer at bit `n`. */
  lemma {:induction false} TruncCuts(msb: bool, b: seq<byte>, b': seq<byte>, n: nat)
    requires n / 8 < |b| == |b'| && b'[..n / 8] == b[..n / 8] && b'[n / 8] == KeepFirst(msb, b[n / 8], n % 8)
    ensures Stream(msb, b', n) == Stream(msb, b, n) && ZeroTail(msb, b', n)
  {
    hide Bit, KeepFirst;
    forall i | 0 <= i < 8 * (n / 8) + 8
      ensures StreamBit(msb, b', i) == (i < n && StreamBit(msb, b, i))
    {
      if i / 8 < n / 8 {
        assert b'[i / 8] == b'[..n / 8][i / 8];
      } else {
        KeepFirstBit(msb, b[n / 8], n % 8, i % 8);
      }
    }
  }

  /** Whole octets copied to an octet boundary. */
  lemma {:induction false} CopyAppends(msb: bool, b: seq<byte>, b': seq<byte>, at: nat, source: seq<byte>)
    requires at + |source| < |b| == |b'| && b'[..at + |source|] == b[..at] + source && b'[at + |source|] == 0
    ensures Stream(msb, b', 8 * (at + |source|)) == Stream(msb, b, 8 * at) + Stream(msb, source, 8 * |source|)
    ensures ZeroTail(msb, b', 8 * (at + |source|))
  {
    hide Bit;
    var x, y := Stream(msb, b, 8 * at), Stream(msb, source, 8 * |source|);
    var s, n := Stream(msb, b', 8 * (at + |source|)), at + |source|;
    forall i | 0 <= i < 8 * n
      ensures s[i] == if i < |x| then x[i] else y[i - |x|]
    {
      assert b'[i / 8] == b'[..n][i / 8];
      if i >= 8 * at {
        assert (i - 8 * at) / 8 == i / 8 - at && (i - 8 * at) % 8 == i % 8;
      }
    }
    Joined(s, x, y);
    forall i | 8 * n <= i < 8 * n + 8
      ensures !StreamBit(msb, b', i)
    {
      ZeroBit(if msb then 7 - i % 8 else i % 8);
    }
  }

  /** One source octet written as eight bits, and the last few bits of the source. */
  lemma {:induction false} SourceBits(msb: bool, source: seq<byte>, k: nat, n: nat)
    requires k < |source| && n <= 8
    ensures var v := if msb then Shr(source[k], 8 - n) else source[k];
            Stream(msb, source, 8 * k + n) == Stream(msb, source, 8 * k) + ToBits(msb, v, n)
  {
    hide Bit, Shr;
    var v := if msb then Shr(source[k], 8 - n) else source[k];
    var s, x, y := Stream(msb, source, 8 * k + n), Stream(msb, source, 8 * k), ToBits(msb, v, n);
    forall i | 0 <= i < 8 * k + n
      ensures s[i] == if i < |x| then x[i] else y[i - |x|]
    {
      if i >= 8 * k {
        assert i / 8 == k && i % 8 == i - 8 * k;
        if msb {
          ShrBit(source[k], 8 - n, n - 1 - (i - 8 * k));
        }
      }
    }
    Joined(s, x, y);
  }

  /** A source of `n` bits is its first octets and a remainder. */
  lemma {:induction false} StreamPrefix(msb: bool, b: seq<byte>, b': seq<byte>, n: nat)
    requires n <= 8 * |b| && n <= 8 * |b'| && forall i :: 0 <= i < (n + 7) / 8 ==> b[i] == b'[i]
    ensures Stream(msb, b, n) == Stream(msb, b', n)
  {
    hide Bit;
  }

  lemma {:induction false} ZeroBits(msb: bool, n: nat)
    ensures ToBits(msb, 0, n) == seq(n, _ => false)
  {
    var s := ToBits(msb, 0, n);
    forall i | 0 <= i < n
      ensures !s[i]
    {
      ZeroBit(if msb then n - 1 - i else i);
    }
  }
}
