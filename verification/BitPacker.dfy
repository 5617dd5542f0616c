/** `oggpack_buffer`: packing and unpacking bits, least or most significant first. */
module BitPacker {
  import opened Bytes
  import opened Bits
  import opened Packing
  import opened Lacings

  const BUFFER_INCREMENT := 256

  class OggPackBuffer {
    var buffer: array<byte>
    var storage: nat
    var endbyte: nat
    var endbit: nat
    var live: bool  // `ptr` is not NULL; it then points to `buffer[endbyte]`

    /** A cleared buffer, which ignores what is written to it. */
    predicate Cleared()
      reads this
    {
      !live && storage == 0 && endbyte == 0 && endbit == 0
    }

    /** A buffer open for writing, in bit order `msb`. */
    ghost predicate Writing(msb: bool)
      reads this, buffer
    {
      && live && storage == buffer.Length && endbit < 8 && endbyte < storage
      && ZeroTail(msb, buffer[..], 8 * endbyte + endbit)
    }

    /** The bits written so far. */
    ghost function Written(msb: bool): (s: seq<bool>)
      requires Writing(msb)
      reads this, buffer
      ensures |s| == 8 * endbyte + endbit
    {
      Stream(msb, buffer[..], 8 * endbyte + endbit)
    }

    /** `oggpack_writeinit`, for either order; only the first octet is set. */
    constructor ()
      ensures Writing(false) && Writing(true) && Written(false) == Written(true) == [] && fresh(buffer)
      ensures storage == BUFFER_INCREMENT
    {
      var b := new byte[BUFFER_INCREMENT];
      b[0] := 0;
      buffer, storage, endbyte, endbit, live := b, BUFFER_INCREMENT, 0, 0, true;
      new;
      ClearStart(buffer[..]);
    }

    /** `oggpack_writeclear`. */
    method WriteClear()
      modifies this
      ensures Cleared() && fresh(buffer)
    {
      buffer := new byte[0];
      storage, endbyte, endbit, live := 0, 0, 0, false;
    }

    /** `oggpack_reset`. */
    method Reset(ghost msb: bool)
      requires Writing(msb) || Cleared()
      modifies this`endbyte, this`endbit, buffer
      ensures old(Cleared()) ==> Cleared()
      ensures old(Writing(msb)) ==> Writing(msb) && Written(msb) == []
    {
      if !live {
        return;
      }
      buffer[0] := 0;
      endbyte, endbit := 0, 0;
      ClearStart(buffer[..]);
    }

    /** Makes room for five octets; false when the buffer was cleared before. */
    method Grown(ghost msb: bool) returns (open: bool)
      requires Writing(msb) || Cleared()
      modifies this`buffer, this`storage
      ensures open == live
      ensures !open ==> buffer == old(buffer) && storage == old(storage)
      ensures open ==> Writing(msb) && Written(msb) == old(Written(msb)) && endbyte + 4 < storage
      ensures buffer == old(buffer) || fresh(buffer)
    {
      open := true;
      if endbyte >= storage - 4 {
        if !live {
          return false;
        }
        ghost var b := buffer[..];
        var grown := Grow(buffer, storage + BUFFER_INCREMENT);
        assert grown[..storage] == b;
        GrowKeeps(msb, b, grown[..], 8 * endbyte + endbit);
        buffer := grown;
        storage := storage + BUFFER_INCREMENT;
      }
    }

    /** The stores of `oggpack_write`. */
    method StoreL(v: nat, bits: nat, ghost value: nat)
      requires bits <= 32 && v == Low(value, bits) && endbit < 8 && endbyte + 4 < buffer.Length
      modifies buffer
      ensures Stored(false, old(buffer[..]), buffer[..], endbyte, endbit, value, bits)
    {
      hide Or, Shr, Shl, Low, Stored;
      ghost var b := buffer[..];
      var total := bits + endbit;
      buffer[endbyte] := Or(buffer[endbyte], Shl(v, endbit)) % 256;
      if total >= 8 {
        buffer[endbyte + 1] := Shr(v, 8 - endbit) % 256;
        if total >= 16 {
          buffer[endbyte + 2] := Shr(v, 16 - endbit) % 256;
          if total >= 24 {
            buffer[endbyte + 3] := Shr(v, 24 - endbit) % 256;
            if total >= 32 {
              if endbit != 0 {
                buffer[endbyte + 4] := Shr(v, 32 - endbit) % 256;
              } else {
                buffer[endbyte + 4] := 0;
              }
            }
          }
        }
      }
      StoredL(b, buffer[..], endbyte, endbit, value, bits);
    }

    /** The stores of `oggpackB_write`. */
    method StoreB(w: nat, bits: nat, ghost value: nat)
      requires bits <= 32 && w == Shl(Low(value, bits), 32 - bits) && endbit < 8 && endbyte + 4 < buffer.Length
      modifies buffer
      ensures Stored(true, old(buffer[..]), buffer[..], endbyte, endbit, value, bits)
    {
      hide Or, Shr, Shl, Low, Stored;
      ghost var b := buffer[..];
      var total := bits + endbit;
      buffer[endbyte] := Or(buffer[endbyte], Shr(w, 24 + endbit)) % 256;
      if total >= 8 {
        buffer[endbyte + 1] := Shr(w, 16 + endbit) % 256;
        if total >= 16 {
          buffer[endbyte + 2] := Shr(w, 8 + endbit) % 256;
          if total >= 24 {
            buffer[endbyte + 3] := Shr(w, endbit) % 256;
            if total >= 32 {
              if endbit != 0 {
                buffer[endbyte + 4] := Shl(w, 8 - endbit) % 256;
              } else {
                buffer[endbyte + 4] := 0;
              }
            }
          }
        }
      }
      StoredB(b, buffer[..], endbyte, endbit, value, bits);
    }

    /** Moves the end past the stored bits. */
    method Forward(ghost msb: bool, bits: nat, ghost b: seq<byte>, ghost value: nat)
      requires live && storage == buffer.Length == |b| && bits <= 32 && endbit < 8 && endbyte + (bits + endbit) / 8 < storage
      requires ZeroTail(msb, b, 8 * endbyte + endbit) && Stored(msb, b, buffer[..], endbyte, endbit, value, bits)
      modifies this`endbyte, this`endbit
      ensures Writing(msb) && Written(msb) == old(Stream(msb, b, 8 * endbyte + endbit)) + ToBits(msb, value, bits)
    {
      hide Bit, Low, Stored, ZeroTail, StreamBit, ToBits;
      StoreAppends(msb, b, buffer[..], endbyte, endbit, value, bits);
      StoreKeepsTail(msb, b, buffer[..], endbyte, endbit, value, bits);
      var total := bits + endbit;
      endbyte := endbyte + total / 8;
      endbit := total % 8;
    }

    /** `oggpack_write`. */
    method Write(value: nat, bits: int)
      requires Writing(false) || Cleared()
      modifies this, buffer
      ensures !(0 <= bits <= 32) || old(Cleared()) ==> Cleared()
      ensures 0 <= bits <= 32 && old(Writing(false)) ==>
                Writing(false) && Written(false) == old(Written(false)) + ToBits(false, value, bits)
      ensures buffer == old(buffer) || fresh(buffer)
    {
      hide Bit, Low, Shl, Stored, ZeroTail, ToBits, Stream;
      if bits < 0 || bits > 32 {
        WriteClear();
        return;
      }
      var open := Grown(false);
      if !open {
        return;
      }
      ghost var b := buffer[..];
      StoreL(Low(value, bits), bits, value);
      Forward(false, bits, b, value);
    }

    /** `oggpackB_write`. */
    method WriteB(value: nat, bits: int)
      requires Writing(true) || Cleared()
      modifies this, buffer
      ensures !(0 <= bits <= 32) || old(Cleared()) ==> Cleared()
      ensures 0 <= bits <= 32 && old(Writing(true)) ==>
                Writing(true) && Written(true) == old(Written(true)) + ToBits(true, value, bits)
      ensures buffer == old(buffer) || fresh(buffer)
    {
      hide Bit, Low, Shl, Stored, ZeroTail, ToBits, Stream;
      if bits < 0 || bits > 32 {
        WriteClear();
        return;
      }
      var open := Grown(true);
      if !open {
        return;
      }
      ghost var b := buffer[..];
      StoreB(Shl(Low(value, bits), 32 - bits), bits, value);
      Forward(true, bits, b, value);
    }

    /** `oggpack_writetrunc` and `oggpackB_writetrunc`. */
    method WriteTrunc(msb: bool, bits: nat)
      requires Cleared() || (Writing(msb) && bits / 8 < storage)
      modifies this`endbyte, this`endbit, buffer
      ensures old(Cleared()) ==> Cleared()
      ensures old(Writing(msb)) ==> Writing(msb) && Written(msb) == old(Stream(msb, buffer[..], bits))
      ensures old(Writing(msb)) && bits <= old(8 * endbyte + endbit) ==> Written(msb) == old(Written(msb))[..bits]
    {
      hide Bit, KeepFirst;
      var bytes := bits / 8;
      if live {
        ghost var b := buffer[..];
        endbit := bits - bytes * 8;
        endbyte := bytes;
        KeepFirstByte(msb, buffer[bytes], endbit);
        buffer[bytes] := KeepFirst(msb, buffer[bytes], endbit);
        assert buffer[..bits / 8] == b[..bits / 8];
        TruncCuts(msb, b, buffer[..], bits);
      }
    }

    /** One of the two writers, as a function pointer selects it. */
    method WriteIn(msb: bool, value: nat, bits: int)
      requires Writing(msb) || Cleared()
      modifies this, buffer
      ensures !(0 <= bits <= 32) || old(Cleared()) ==> Cleared()
      ensures 0 <= bits <= 32 && old(Writing(msb)) ==>
                Writing(msb) && Written(msb) == old(Written(msb)) + ToBits(msb, value, bits)
      ensures buffer == old(buffer) || fresh(buffer)
    {
      if msb {
        WriteB(value, bits);
      } else {
        Write(value, bits);
      }
    }

    /** `oggpack_writealign` and `oggpackB_writealign`. */
    method WriteAlign(msb: bool)
      requires Writing(msb) || Cleared()
      modifies this, buffer
      ensures old(Cleared()) ==> Cleared()
      ensures old(Writing(msb)) ==>
                && Writing(msb) && endbit == 0 && old(8 * endbyte + endbit) <= 8 * endbyte < old(8 * endbyte + endbit) + 8
                && Written(msb) == old(Written(msb)) + seq(8 * endbyte - old(8 * endbyte + endbit), _ => false)
      ensures buffer == old(buffer) || fresh(buffer)
    {
      hide Bit, ToBits, Stream, ZeroTail;
      var bits := 8 - endbit;
      if bits < 8 {
        ZeroBits(msb, bits);
        WriteIn(msb, 0, bits);
      }
    }

    /** `oggpack_writecopy_helper`: the first `bits` bits of `source`. At an octet boundary, a copy that
        would need a larger buffer clears the buffer instead. */
    method WriteCopy(msb: bool, source: seq<byte>, bits: nat)
      requires Writing(msb) || Cleared()
      requires bits <= 8 * |source|
      modifies this, buffer
      ensures old(Cleared()) ==> Cleared()
      ensures old(Writing(msb)) ==>
                if old(endbit == 0 && endbyte + bits / 8 + 1 >= storage) then Cleared()
                else Writing(msb) && Written(msb) == old(Written(msb)) + Stream(msb, source, bits)
      ensures buffer == old(buffer) || fresh(buffer)
    {
      hide Bit, ToBits, Stream, ZeroTail, Shr;
      var bytes := bits / 8;
      var rest := bits - bytes * 8;
      if endbit != 0 {
        CopyUnaligned(msb, source, bytes);
      } else {
        if endbyte + bytes + 1 >= storage {
          if !live {
            WriteClear();
            return;
          }
          if endbyte + bytes + BUFFER_INCREMENT > storage {
            WriteClear();
            return;
          }
        }
        CopyAligned(msb, source[..bytes]);
        StreamPrefix(msb, source[..bytes], source, 8 * bytes);
      }
      if rest != 0 {
        SourceBits(msb, source, bytes, rest);
        ghost var s := Written(msb);
        WriteIn(msb, if msb then Shr(source[bytes], 8 - rest) else source[bytes], rest);
      }
    }

    /** The slow path: octet by octet. */
    method CopyUnaligned(msb: bool, source: seq<byte>, bytes: nat)
      requires Writing(msb) && bytes <= |source|
      modifies this, buffer
      ensures Writing(msb) && Written(msb) == old(Written(msb)) + Stream(msb, source, 8 * bytes)
      ensures buffer == old(buffer) || fresh(buffer)
    {
      hide Bit, ToBits, ZeroTail, Shr;
      for i := 0 to bytes
        invariant Writing(msb) && Written(msb) == old(Written(msb)) + Stream(msb, source, 8 * i)
        invariant buffer == old(buffer) || fresh(buffer)
      {
        SourceBits(msb, source, i, 8);
        ShrNone(source[i]);
        WriteIn(msb, source[i], 8);
      }
    }

    /** The block copy. */
    method CopyAligned(msb: bool, source: seq<byte>)
      requires Writing(msb) && endbit == 0 && endbyte + |source| + 1 < storage
      modifies this`endbyte, buffer
      ensures Writing(msb) && Written(msb) == old(Written(msb)) + Stream(msb, source, 8 * |source|)
    {
      hide Bit;
      ghost var b, at := buffer[..], endbyte;
      CopyIn(buffer, endbyte, source);
      endbyte := endbyte + |source|;
      buffer[endbyte] := 0;
      assert buffer[..at + |source|] == b[..at] + source;
      CopyAppends(msb, b, buffer[..], at, source);
    }

    /** `oggpack_bytes`: the octets that hold all the bits. */
    method PackedBytes() returns (n: nat)
      ensures 8 * n >= 8 * endbyte + endbit && (endbit < 8 ==> 8 * n < 8 * endbyte + endbit + 8)
    {
      n := endbyte + (endbit + 7) / 8;
    }

    // ----- Reading -----

    /** A buffer open for reading; `ptr` is not NULL unless the position is past the end. */
    predicate Reading()
      reads this
    {
      endbit < 8 && storage <= buffer.Length && (8 * endbyte + endbit <= 8 * storage ==> live)
    }

    /** `oggpack_readinit`. */
    method ReadInit(data: array<byte>, bytes: nat)
      requires bytes <= data.Length
      modifies this
      ensures Reading() && buffer == data && storage == bytes && endbyte == endbit == 0
    {
      buffer, storage, endbyte, endbit, live := data, bytes, 0, 0, true;
    }

    /** The word at the current position, from `ptr[0]` to the octet with bit `total - 1`, LSb order. */
    method AssembleL(total: nat) returns (ret: nat)
      requires total < 40 && endbit < 8 && endbyte + LastOctet(total) < buffer.Length && (total > 32 ==> endbit > 0)
      ensures ret == Assembled(false, buffer[..], endbyte, endbit, LastOctet(total))
    {
      hide Or, Shr, IntShl;
      ret := Shr(buffer[endbyte], endbit);
      if total > 8 {
        ret := Or(ret, IntShl(buffer[endbyte + 1], 8 - endbit));
        if total > 16 {
          ret := Or(ret, IntShl(buffer[endbyte + 2], 16 - endbit));
          if total > 24 {
            ret := Or(ret, IntShl(buffer[endbyte + 3], 24 - endbit));
            if total > 32 && endbit != 0 {
              ret := Or(ret, IntShl(buffer[endbyte + 4], 32 - endbit));
            }
          }
        }
      }
      AssembledUpTo(false, buffer[..], endbyte, endbit, LastOctet(total));
    }

    /** The same, MSb order. */
    method AssembleB(total: nat) returns (ret: nat)
      requires total < 40 && endbit < 8 && endbyte + LastOctet(total) < buffer.Length && (total > 32 ==> endbit > 0)
      ensures ret == Assembled(true, buffer[..], endbyte, endbit, LastOctet(total))
    {
      hide Or, Shr, IntShl;
      ret := IntShl(buffer[endbyte], 24 + endbit);
      if total > 8 {
        ret := Or(ret, IntShl(buffer[endbyte + 1], 16 + endbit));
        if total > 16 {
          ret := Or(ret, IntShl(buffer[endbyte + 2], 8 + endbit));
          if total > 24 {
            ret := Or(ret, IntShl(buffer[endbyte + 3], endbit));
            if total > 32 && endbit != 0 {
              ret := Or(ret, Shr(buffer[endbyte + 4], 8 - endbit));
            }
          }
        }
      }
      AssembledUpTo(true, buffer[..], endbyte, endbit, LastOctet(total));
    }

    /** `oggpack_look` and `oggpackB_look`: the next `n` bits, or -1. */
    method Look(msb: bool, n: int) returns (ret: int)
      requires Reading()
      ensures ret == ValueAt(msb, buffer[..], storage, 8 * endbyte + endbit, n)
      ensures ret == -1 <==> n < 0 || n > 32 || 8 * endbyte + endbit + n > 8 * storage
    {
      hide Bit, Assembled, Value, Stream, Extract;
      if n < 0 || n > 32 {
        return -1;
      }
      var total := n + endbit;
      if endbyte >= storage - 4 {
        if endbyte > storage - (total + 7) / 8 {
          return -1;
        } else if total == 0 {
          EmptyValue(msb, buffer[..], 8 * endbyte);
          return 0;
        }
      }
      ExtractIsValue(msb, buffer[..], endbyte, endbit, LastOctet(total), n);
      var word: nat;
      if msb {
        word := AssembleB(total);
      } else {
        word := AssembleL(total);
      }
      ret := Extract(msb, word, n);
    }

    /** The end of data was met: nothing more can be read. */
    method Overflow()
      modifies this`live, this`endbyte, this`endbit
      ensures 8 * endbyte + endbit == 8 * storage + 1 && endbit < 8
    {
      live := false;
      endbyte, endbit := storage, 1;
    }

    /** `oggpack_adv`. A negative width moves back over data; it lands where it should, or one octet further on. */
    method Adv(bits: int)
      requires Reading() && (bits < 0 ==> live && -bits <= 8 * endbyte + endbit)
      modifies this`live, this`endbyte, this`endbit
      ensures Reading()
      ensures bits >= 0 ==> 8 * endbyte + endbit == Advanced(storage, old(8 * endbyte + endbit), bits)
      ensures bits >= 0 ==>
                8 * endbyte + endbit
                == if old(8 * endbyte + endbit) + bits > 8 * storage then 8 * storage + 1 else old(8 * endbyte + endbit) + bits
      ensures bits < 0 && old(8 * endbyte + endbit) <= 8 * storage ==>
                8 * endbyte + endbit == old(8 * endbyte + endbit) + bits + if LandsRight(old(endbit), bits) then 0 else 8
    {
      var total := bits + endbit;
      if endbyte > storage - (total + 7) / 8 {
        Overflow();
      } else {
        endbyte := endbyte + Truncated(total);
        endbit := total % 8;
      }
    }

    /** `oggpack_read` and `oggpackB_read`. */
    method Read(msb: bool, n: int) returns (ret: int)
      requires Reading()
      modifies this`live, this`endbyte, this`endbit
      ensures ret == old(ValueAt(msb, buffer[..], storage, 8 * endbyte + endbit, n))
      ensures Reading() && 8 * endbyte + endbit == AfterRead(storage, old(8 * endbyte + endbit), n)
      ensures ret == -1 <==> n < 0 || n > 32 || old(8 * endbyte + endbit) + n > 8 * storage
      ensures 8 * endbyte + endbit == if ret == -1 then 8 * storage + 1 else old(8 * endbyte + endbit) + n
    {
      hide Bit, Assembled, Value, Stream, Extract;
      if n < 0 || n > 32 {
        Overflow();
        return -1;
      }
      var total := n + endbit;
      if endbyte + 4 >= storage {
        if endbyte > storage - (total + 7) / 8 {
          Overflow();
          return -1;
        } else if total == 0 {
          EmptyValue(msb, buffer[..], 8 * endbyte);
          return 0;
        }
      }
      ExtractIsValue(msb, buffer[..], endbyte, endbit, LastOctet(total), n);
      var word: nat;
      if msb {
        word := AssembleB(total);
      } else {
        word := AssembleL(total);
      }
      ret := Extract(msb, word, n);
      endbyte := endbyte + total / 8;
      endbit := total % 8;
    }

    /** `oggpack_look1` and `oggpackB_look1`. */
    method Look1(msb: bool) returns (ret: int)
      requires Reading()
      ensures ret == ValueAt(msb, buffer[..], storage, 8 * endbyte + endbit, 1)
    {
      if endbyte >= storage {
        return -1;
      }
      OneBit(msb, buffer[..], endbyte, endbit);
      ret := Shr(buffer[endbyte], if msb then 7 - endbit else endbit) % 2;
    }

    /** `oggpack_adv1`: no test for the end. */
    method Adv1()
      requires Reading()
      modifies this`endbyte, this`endbit
      ensures Reading() && 8 * endbyte + endbit == old(8 * endbyte + endbit) + 1
    {
      endbit := endbit + 1;
      if endbit > 7 {
        endbit := 0;
        endbyte := endbyte + 1;
      }
    }

    /** `oggpack_read1` and `oggpackB_read1`. */
    method Read1(msb: bool) returns (ret: int)
      requires Reading()
      modifies this`live, this`endbyte, this`endbit
      ensures ret == old(ValueAt(msb, buffer[..], storage, 8 * endbyte + endbit, 1))
      ensures Reading() && 8 * endbyte + endbit == AfterRead(storage, old(8 * endbyte + endbit), 1)
    {
      if endbyte >= storage {
        Overflow();
        return -1;
      }
      ret := Look1(msb);
      Adv1();
    }
  }

  lemma {:induction false} ClearStart(b: seq<byte>)
    requires |b| > 0 && b[0] == 0
    ensures ZeroTail(false, b, 0) && ZeroTail(true, b, 0)
  {
    forall i | 0 <= i < 8
      ensures !StreamBit(false, b, i) && !StreamBit(true, b, i)
    {
      ZeroBit(i);
      ZeroBit(7 - i);
    }
  }

  lemma {:induction false} GrowKeeps(msb: bool, b: seq<byte>, b': seq<byte>, n: nat)
    requires |b| <= |b'| && b'[..|b|] == b && n / 8 < |b|
    ensures Stream(msb, b', n) == Stream(msb, b, n) && ZeroTail(msb, b', n) == ZeroTail(msb, b, n)
  {
    hide Bit;
    forall i | 0 <= i < 8 * |b|
      ensures StreamBit(msb, b', i) == StreamBit(msb, b, i)
    {
      assert b'[i / 8] == b'[..|b|][i / 8];
    }
  }

  /** The word grows by one octet at a time. */
  lemma {:induction false} AssembledUpTo(msb: bool, b: seq<byte>, at: nat, endbit: nat, n: nat)
    requires endbit < 8 && n <= 4 && at + n < |b|
    ensures Assembled(msb, b, at, endbit, 0) == Part(msb, b[at], endbit, 0)
    ensures n >= 1 ==> Assembled(msb, b, at, endbit, 1) == Or(Assembled(msb, b, at, endbit, 0), Part(msb, b[at + 1], endbit, 1))
    ensures n >= 2 ==> Assembled(msb, b, at, endbit, 2) == Or(Assembled(msb, b, at, endbit, 1), Part(msb, b[at + 2], endbit, 2))
    ensures n >= 3 ==> Assembled(msb, b, at, endbit, 3) == Or(Assembled(msb, b, at, endbit, 2), Part(msb, b[at + 3], endbit, 3))
    ensures n >= 4 ==> Assembled(msb, b, at, endbit, 4) == Or(Assembled(msb, b, at, endbit, 3), Part(msb, b[at + 4], endbit, 4))
  {
  }

  lemma ShrNone(x: nat)
    ensures Shr(x, 8 - 8) == x
  {
  }

  lemma {:induction false} EmptyValue(msb: bool, b: seq<byte>, pos: nat)
    requires pos <= 8 * |b|
    ensures Value(msb, Stream(msb, b, pos)[pos..]) == 0
  {
  }

  lemma {:induction false} OneBit(msb: bool, b: seq<byte>, at: nat, endbit: nat)
    requires at < |b| && endbit < 8
    ensures var pos := 8 * at + endbit;
            Shr(b[at], if msb then 7 - endbit else endbit) % 2 == Value(msb, Stream(msb, b, pos + 1)[pos..])
  {
    hide Shr, Bit;
    var pos, q := 8 * at + endbit, if msb then 7 - endbit else endbit;
    var x := Shr(b[at], q);
    ShrBit(b[at], q, 0);
    assert Stream(msb, b, pos + 1)[pos..] == ToBits(msb, x, 1);
    ValueOfBits(msb, x, 1);
    LowIsMod(x, 1);
    assert Pow2(1) == 2 * Pow2(0);
  }

  lemma {:induction false} StoredL(b: seq<byte>, b': seq<byte>, endbyte: nat, endbit: nat, value: nat, bits: nat)
    requires bits <= 32 && endbit < 8 && endbyte + 4 < |b| == |b'| && b'[..endbyte] == b[..endbyte]
    requires var w, n := Low(value, bits), (bits + endbit) / 8;
             && b'[endbyte] == Or(b[endbyte], Shl(w, endbit)) % 256
             && (n >= 1 ==> b'[endbyte + 1] == Shr(w, 8 - endbit) % 256)
             && (n >= 2 ==> b'[endbyte + 2] == Shr(w, 16 - endbit) % 256)
             && (n >= 3 ==> b'[endbyte + 3] == Shr(w, 24 - endbit) % 256)
             && (n >= 4 ==> b'[endbyte + 4] == if endbit != 0 then Shr(w, 32 - endbit) % 256 else 0)
    ensures Stored(false, b, b', endbyte, endbit, value, bits)
  {
    FifthByte(value);
    hide Or, Shr, Shl, Low;
    var n := (bits + endbit) / 8;
    forall k | 0 <= k <= n
      ensures b'[endbyte + k] == StoredByte(false, b[endbyte], Low(value, bits), bits, endbit, k)
    {
      if k == 4 && endbit == 0 {
        assert bits == 32;
      }
    }
  }

  lemma {:induction false} StoredB(b: seq<byte>, b': seq<byte>, endbyte: nat, endbit: nat, value: nat, bits: nat)
    requires bits <= 32 && endbit < 8 && endbyte + 4 < |b| == |b'| && b'[..endbyte] == b[..endbyte]
    requires var w, n := Shl(Low(value, bits), 32 - bits), (bits + endbit) / 8;
             && b'[endbyte] == Or(b[endbyte], Shr(w, 24 + endbit)) % 256
             && (n >= 1 ==> b'[endbyte + 1] == Shr(w, 16 + endbit) % 256)
             && (n >= 2 ==> b'[endbyte + 2] == Shr(w, 8 + endbit) % 256)
             && (n >= 3 ==> b'[endbyte + 3] == Shr(w, endbit) % 256)
             && (n >= 4 ==> b'[endbyte + 4] == if endbit != 0 then Shl(w, 8 - endbit) % 256 else 0)
    ensures Stored(true, b, b', endbyte, endbit, value, bits)
  {
    FifthByte(value);
    hide Or, Shr, Shl, Low;
    var n := (bits + endbit) / 8;
    forall k | 0 <= k <= n
      ensures b'[endbyte + k] == StoredByte(true, b[endbyte], Low(value, bits), bits, endbit, k)
    {
      if k == 4 && endbit == 0 {
        assert bits == 32;
      }
    }
  }
}
