/** The `PUT_UTF8` and `GET_UTF8` macros of libavutil. */
module Utf8 {
  import opened Bytes
  import opened Bits

  /** `av_log2`: the position of the highest bit. */
  function Log2(v: nat): nat {
    if v < 2 then 0 else 1 + Log2(v / 2)
  }

  // ----- Reference: the table of section 2 of RFC 2279 -----

  /** How many octets a value takes. */
  function Length(v: nat): nat {
    if v < 0x80 then 1
    else if v < 0x800 then 2
    else if v < 0x1_0000 then 3
    else if v < 0x20_0000 then 4
    else if v < 0x400_0000 then 5
    else 6
  }

  /** The row of the table: the lead octet carries the high bits, each continuation octet six more. */
  function Encoding(v: nat): (s: seq<byte>)
    requires v < TWO31
    ensures |s| == Length(v)
  {
    match Length(v)
    case 1 => [v]
    case 2 => [0xC0 + v / 0x40, 0x80 + v % 0x40]
    case 3 => [0xE0 + v / 0x1000, 0x80 + v / 0x40 % 0x40, 0x80 + v % 0x40]
    case 4 => [0xF0 + v / 0x4_0000, 0x80 + v / 0x1000 % 0x40, 0x80 + v / 0x40 % 0x40, 0x80 + v % 0x40]
    case 5 => [0xF8 + v / 0x100_0000, 0x80 + v / 0x4_0000 % 0x40, 0x80 + v / 0x1000 % 0x40, 0x80 + v / 0x40 % 0x40,
        0x80 + v % 0x40]
    case _ => [0xFC + v / 0x4000_0000, 0x80 + v / 0x100_0000 % 0x40, 0x80 + v / 0x4_0000 % 0x40, 0x80 + v / 0x1000 % 0x40,
               0x80 + v / 0x40 % 0x40, 0x80 + v % 0x40]
  }

  // ----- Shifts -----

  /** Shifting by six is dividing by 64. */
  lemma ShrSix(x: nat, k: nat)
    ensures Shr(x, 6) == x / 64 && Shr(x, k + 6) == Shr(x, k) / 64 && Shr(x, k + 6) == Shr(x / 64, k)
  {
    SixShifts(x);
    SixShifts(Shr(x, k));
    ShrShr(x, k, 6);
    ShrShr(x, 6, k);
  }

  lemma SixShifts(x: nat)
    ensures Shr(x, 6) == x / 64
  {
    assert Shr(x, 6) == Shr(x / 2 / 2, 4);
    assert Shr(x / 4, 4) == Shr(x / 4 / 2 / 2, 2);
    assert Shr(x / 16, 2) == Shr(x / 16 / 2, 1) == Shr(x / 16 / 2 / 2, 0);
    assert x / 16 / 2 / 2 == x / 64;
  }

  lemma Shifted(v: nat)
    ensures Shr(v, 0) == v && Shr(v, 6) == v / 0x40 && Shr(v, 12) == v / 0x1000 && Shr(v, 18) == v / 0x4_0000
    ensures Shr(v, 24) == v / 0x100_0000 && Shr(v, 30) == v / 0x4000_0000
  {
    ShrSix(v, 6);
    ShrSix(v, 12);
    ShrSix(v, 18);
    ShrSix(v, 24);
    hide Shr;
    assert v / 0x40 / 64 == v / 0x1000;
    assert v / 0x1000 / 64 == v / 0x4_0000;
    assert v / 0x4_0000 / 64 == v / 0x100_0000;
    assert v / 0x100_0000 / 64 == v / 0x4000_0000;
  }

  // ----- Writing -----

  lemma {:induction false} Log2Range(v: nat)
    requires v > 0
    ensures Pow2(Log2(v)) <= v < 2 * Pow2(Log2(v))
  {
    if v >= 2 {
      Log2Range(v / 2);
    }
  }

  lemma {:induction false} Pow2Grows(i: nat, j: nat)
    requires i <= j
    ensures Pow2(i) <= Pow2(j)
    decreases j
  {
    if i < j {
      Pow2Grows(i, j - 1);
    }
  }

  lemma PowerValues()
    ensures Pow2(7) == 0x80 && Pow2(11) == 0x800 && Pow2(16) == 0x1_0000 && Pow2(21) == 0x20_0000
    ensures Pow2(26) == 0x400_0000 && Pow2(31) == TWO31
  {
    assert Pow2(3) == 8;
    assert Pow2(7) == 16 * Pow2(3);
    assert Pow2(11) == 16 * Pow2(7);
    assert Pow2(16) == 32 * Pow2(11);
    assert Pow2(21) == 32 * Pow2(16);
    assert Pow2(26) == 32 * Pow2(21);
    assert Pow2(31) == 32 * Pow2(26);
  }

  /** A value is below a power of two exactly when its logarithm is below the exponent. */
  lemma LogBelow(v: nat, k: nat)
    requires v > 0
    ensures Log2(v) < k <==> v < Pow2(k)
  {
    Log2Range(v);
    hide Log2;
    if Log2(v) < k {
      Pow2Grows(Log2(v), k - 1);
    } else {
      Pow2Grows(k, Log2(v));
    }
  }

  /** The length computed from the logarithm is the one in the table. */
  lemma LengthFromLog(v: nat)
    requires 0x80 <= v < TWO31
    ensures (Log2(v) + 4) / 5 == Length(v)
  {
    PowerValues();
    LogBelow(v, 7);
    LogBelow(v, 11);
    LogBelow(v, 16);
    LogBelow(v, 21);
    LogBelow(v, 26);
    LogBelow(v, 31);
    hide Pow2, Log2;
  }

  /** Or of numbers without common bits: `x` has only bits from `k` on, `y` only bits below. */
  lemma {:induction false} OrIsSum(x: nat, y: nat, k: nat)
    requires x % Pow2(k) == 0 && y < Pow2(k)
    ensures Or(x, y) == x + y
  {
    if x == 0 {
    } else if k > 0 {
      var p := Pow2(k - 1);
      assert x == 2 * p * (x / (2 * p));
      assert x == 2 * (p * (x / (2 * p)));
      ModUnique(x / 2, p, x / (2 * p), 0);
      OrIsSum(x / 2, y / 2, k - 1);
    } else {
      OrZero(x);
    }
  }

  lemma {:induction false} OrZero(x: nat)
    ensures Or(x, 0) == x
  {
    if x > 0 {
      OrZero(x / 2);
    }
  }

  /** The lead octet's leading ones and the value's high bits have no bit in common. */
  lemma LeadOctet(v: nat, n: nat)
    requires 0x80 <= v < TWO31 && n == Length(v)
    ensures 256 - Shr(256, n) == match n case 2 => 0xC0 case 3 => 0xE0 case 4 => 0xF0 case 5 => 0xF8 case _ => 0xFC
    ensures Or(256 - Shr(256, n), Shr(v, 6 * (n - 1))) == Encoding(v)[0]
  {
    assert Pow2(2) == 4;
    assert Pow2(4) == 16;
    assert Shr(256, 2) == 64;
    assert Shr(64, 2) == 16 && Shr(256, 4) == Shr(64, 2);
    assert Shr(16, 2) == 4 && Shr(256, 6) == Shr(64, 4) == Shr(16, 2);
    assert Shr(256, 3) == Shr(64, 1) && Shr(256, 5) == Shr(64, 3) == Shr(16, 1);
    Shifted(v);
    var w := if n == 2 then 5 else if n == 3 then 4 else if n == 4 then 3 else if n == 5 then 2 else 1;
    assert Pow2(5) == 32 && Pow2(3) == 8 && Pow2(1) == 2;
    hide Pow2, Shr, Or;
    OrIsSum(256 - Shr(256, n), Shr(v, 6 * (n - 1)), w);
  }

  /** A continuation octet. */
  lemma ContinuationOctet(v: nat, k: nat)
    ensures Or(0x80, Shr(v, 6 * k) % 64) == 0x80 + Shr(v, 6 * k) % 64
  {
    assert Pow2(3) == 8;
    assert Pow2(6) == 8 * Pow2(3);
    OrIsSum(0x80, Shr(v, 6 * k) % 64, 6);
  }

  /** Octet `i` of an encoding, after the first. */
  lemma EncodedOctet(v: nat, i: nat)
    requires v < TWO31 && 0 < i < Length(v)
    ensures Encoding(v)[i] == 0x80 + Shr(v, 6 * (Length(v) - 1 - i)) % 64
  {
    Shifted(v);
    hide Shr;
  }

  /** `PUT_UTF8`, for the values whose shifts stay below the word size. */
  method PutUtf8(val: nat) returns (out: seq<byte>)
    requires val < TWO31
    ensures out == Encoding(val)
  {
    hide Or, Log2, Shr, Encoding;
    if val < 0x80 {
      out := [val];
      OneOctet(val);
    } else {
      LengthFromLog(val);
      var bytes := (Log2(val) + 4) / 5;
      var shift := (bytes - 1) * 6;
      LeadOctet(val, bytes);
      out := [Or(256 - Shr(256, bytes), Shr(val, shift))];
      while shift >= 6
        invariant shift % 6 == 0 && |out| == bytes - shift / 6 <= bytes && out == Encoding(val)[..|out|]
      {
        shift := shift - 6;
        EncodedOctet(val, |out|);
        ContinuationOctet(val, shift / 6);
        assert bytes - 1 - |out| == shift / 6;
        out := out + [Or(0x80, Shr(val, shift) % 64)];
      }
      assert out == Encoding(val);
    }
  }

  lemma OneOctet(v: nat)
    requires v < 0x80
    ensures Encoding(v) == [v]
  {
  }

  // ----- Reading -----

  datatype Decoded = Invalid | Char(val: nat, rest: seq<byte>)

  /** Six more bits come in from below, in a 32-bit word. */
  function SixMore(val: nat, bits: nat): (r: nat)
    ensures r < TWO32
  {
    (val * 64 + bits) % TWO32
  }

  /** The loop of `GET_UTF8` and the final mask. `top`, a word with one bit set, is kept as the position of the
      bit; from 32 on the bit has left the word. */
  function GetRest(val: nat, top: nat, s: seq<byte>): Decoded
    decreases |s|
  {
    if top >= 32 || !Bit(val, top) then Char(if top >= 31 then val else Low(val, top + 1), s)
    else if s == [] then Invalid
    else
      var tmp: int := s[0] as int - 128;
      if tmp / 64 != 0 then Invalid else GetRest(SixMore(val, tmp), top + 5, s[1..])
  }

  /** `GET_UTF8`; input that ends too early is invalid. */
  function Get(s: seq<byte>): Decoded {
    if s == [] || s[0] / 64 == 2 then Invalid else GetRest(s[0], if s[0] >= 128 then 6 else 32, s[1..])
  }

  method GetUtf8(s: seq<byte>) returns (ok: bool, val: nat, used: nat)
    ensures used <= |s|
    ensures Get(s) == if ok then Char(val, s[used..]) else Invalid
  {
    hide Bit, Low;
    ok, val, used := false, 0, 0;
    if |s| == 0 {
      return;
    }
    val := s[0];
    used := 1;
    var top := if val >= 128 then 6 else 32;
    if val / 64 == 2 {
      return;
    }
    while top < 32 && Bit(val, top)
      invariant 1 <= used <= |s| && GetRest(val, top, s[used..]) == Get(s)
      decreases |s| - used
    {
      if used == |s| {
        return;
      }
      var tmp: int := s[used] as int - 128;
      used := used + 1;
      if tmp / 64 != 0 {
        return;
      }
      assert s[used - 1..][1..] == s[used..];
      val := (val * 64 + tmp) % TWO32;
      top := top + 5;
    }
    if top < 31 {
      val := Low(val, top + 1);
    }
    ok := true;
  }

  lemma {:induction false} RestMore(val: nat, top: nat, s: seq<byte>)
    requires top < 32 && Bit(val, top)
    ensures s == [] || s[0] / 64 != 2 ==> GetRest(val, top, s) == Invalid
    ensures s != [] && 128 <= s[0] < 192 ==> GetRest(val, top, s) == GetRest(SixMore(val, s[0] - 128), top + 5, s[1..])
  {
    hide Bit, Low;
  }

  lemma {:induction false} RestCharacter(val: nat, top: nat, s: seq<byte>)
    requires top < 32 && Bit(val, top) && GetRest(val, top, s).Char?
    ensures s != [] && 128 <= s[0] < 192 && GetRest(val, top, s) == GetRest(SixMore(val, s[0] - 128), top + 5, s[1..])
  {
    hide Bit, GetRest, SixMore;
    RestMore(val, top, s);
  }

  lemma {:induction false} RestDone(val: nat, top: nat, s: seq<byte>)
    requires top >= 32 || !Bit(val, top)
    ensures GetRest(val, top, s) == Char(if top >= 31 then val else Low(val, top + 1), s)
  {
    hide Bit, Low;
  }

  // ----- Round trip -----

  lemma BitShr(x: nat, t: nat)
    ensures Bit(x, t) == (Shr(x, t) % 2 == 1)
  {
    ShrBit(x, t, 0);
  }

  lemma ShrEleven(x: nat)
    ensures Shr(x, 11) == x / 0x800
  {
    SixShifts(x);
    FiveShifts(Shr(x, 6));
    ShrShr(x, 6, 5);
    hide Shr;
    assert x / 0x40 / 32 == x / 0x800;
  }

  lemma ShrSixteen(x: nat)
    ensures Shr(x, 16) == x / 0x1_0000
  {
    ShrEleven(x);
    FiveShifts(Shr(x, 11));
    ShrShr(x, 11, 5);
    hide Shr;
    assert x / 0x800 / 32 == x / 0x1_0000;
  }

  lemma ShrMore(x: nat)
    ensures Shr(x, 21) == x / 0x20_0000 && Shr(x, 26) == x / 0x400_0000 && Shr(x, 31) == x / TWO31
  {
    ShrSixteen(x);
    FiveShifts(Shr(x, 16));
    ShrShr(x, 16, 5);
    FiveShifts(Shr(x, 21));
    ShrShr(x, 21, 5);
    FiveShifts(Shr(x, 26));
    ShrShr(x, 26, 5);
    hide Shr;
    assert x / 0x1_0000 / 32 == x / 0x20_0000;
    assert x / 0x20_0000 / 32 == x / 0x400_0000;
    assert x / 0x400_0000 / 32 == x / TWO31;
  }

  lemma MaskIs(x: nat, k: nat, p: nat)
    requires Pow2(k) == p
    ensures Low(x, k) == x % p
  {
    LowIsMod(x, k);
  }

  lemma FiveShifts(x: nat)
    ensures Shr(x, 5) == x / 32
  {
    assert Shr(x, 5) == Shr(x / 2 / 2, 3);
    assert Shr(x / 4, 3) == Shr(x / 4 / 2 / 2, 1);
    assert x / 4 / 2 / 2 == x / 16;
    assert Shr(x / 16, 1) == x / 32;
  }

  /** The decoder's `val` after `j` continuation octets. */
  function Partial(v: nat, j: nat): nat
    requires v < TWO31 && j < Length(v)
  {
    if j == 0 then Encoding(v)[0] else SixMore(Partial(v, j - 1), Encoding(v)[j] - 0x80)
  }

  /** The free places of the lead octet, doubled twice less the leading ones. */
  function Room(n: nat): (w: nat)
    ensures 0 < w <= 32
  {
    match n case 2 => 32 case 3 => 16 case 4 => 8 case 5 => 4 case _ => 2
  }

  /** After `j` continuation octets, `val` is the leading ones, shifted up, and the bits `q` read so far. */
  predicate Form(j: nat, w: nat, q: nat, val: nat) {
    match j
    case 0 => val == 256 - 2 * w + q && q < w
    case 1 => val == 0x40 * (256 - 2 * w) + q && q < 0x40 * w
    case 2 => val == 0x1000 * (256 - 2 * w) + q && q < 0x1000 * w
    case 3 => val == 0x4_0000 * (256 - 2 * w) + q && q < 0x4_0000 * w
    case 4 => val == 0x100_0000 * (256 - 2 * w) + q && q < 0x100_0000 * w
    case _ => val == q && q < 0x4000_0000 * w
  }

  lemma {:induction false} PartialForm(v: nat, j: nat)
    requires 0x80 <= v < TWO31 && j < Length(v)
    ensures var n := Length(v); Form(j, Room(n), Shr(v, 6 * (n - 1 - j)), Partial(v, j))
    decreases j
  {
    hide Shr, Encoding, Length, Room, Form, Partial, SixMore;
    if j == 0 {
      LeadForm(v);
      FormStart(v);
    } else {
      PartialForm(v, j - 1);
      SixOctets(v);
      var n, x := Length(v), Shr(v, 6 * (Length(v) - 1 - j));
      ShrSix(v, 6 * (n - 1 - j));
      assert 6 * (n - 1 - j) + 6 == 6 * (n - 1 - (j - 1));
      PartialNext(v, j);
      FormStep(j, Room(n), x / 64, x % 64, Partial(v, j - 1));
      assert 64 * (x / 64) + x % 64 == x;
    }
  }

  lemma FormStart(v: nat)
    requires 0x80 <= v < TWO31
    ensures var n := Length(v); Form(0, Room(n), Shr(v, 6 * (n - 1)), Partial(v, 0))
  {
    LeadForm(v);
    hide Shr, Encoding, Room, Length;
  }

  lemma {:induction false} PartialNext(v: nat, j: nat)
    requires v < TWO31 && 0 < j < Length(v)
    ensures Partial(v, j) == SixMore(Partial(v, j - 1), Shr(v, 6 * (Length(v) - 1 - j)) % 64)
  {
    EncodedOctet(v, j);
    hide Shr, Encoding, Length;
  }

  lemma SixOctets(v: nat)
    ensures Length(v) <= 6 && (Length(v) > 5 ==> Room(Length(v)) == 2)
  {
  }

  /** Six more bits. */
  lemma FormStep(j: nat, w: nat, q: nat, t: nat, val: nat)
    requires 0 < j <= 5 && 0 < w <= 32 && t < 64 && Form(j - 1, w, q, val) && (j == 5 ==> w == 2)
    ensures Form(j, w, 64 * q + t, SixMore(val, t))
  {
    if j == 5 {
      assert val * 64 + t == 63 * TWO32 + (64 * q + t);
      ModUnique(val * 64 + t, TWO32, 63, 64 * q + t);
    } else {
      assert val * 64 + t < TWO32 by {
        FormBelow(j, w, q, t, val);
      }
      ModUnique(val * 64 + t, TWO32, 0, val * 64 + t);
    }
  }

  lemma FormBelow(j: nat, w: nat, q: nat, t: nat, val: nat)
    requires 0 < j <= 4 && 0 < w <= 32 && t < 64 && Form(j - 1, w, q, val)
    ensures val * 64 + t < TWO32
  {
    assert val < 0x400_0000;
  }

  lemma ShrZero(v: nat)
    ensures Shr(v, 0) == v
  {
  }

  lemma LeadForm(v: nat)
    requires 0x80 <= v < TWO31
    ensures var n := Length(v); Encoding(v)[0] == 256 - 2 * Room(n) + Shr(v, 6 * (n - 1)) && Shr(v, 6 * (n - 1)) < Room(n)
  {
    Shifted(v);
    hide Shr;
  }

  /** The tested bit is set while octets are missing; with the last one it is clear, and the mask leaves the bits read. */
  lemma FormBits(n: nat, j: nat, q: nat, val: nat)
    requires 2 <= n <= 6 && j < n && Form(j, Room(n), q, val)
    ensures j < n - 1 ==> Bit(val, 6 + 5 * j)
    ensures j == n - 1 ==> !Bit(val, 6 + 5 * j) && q == (if j == 5 then val else Low(val, 7 + 5 * j)) && q < TWO31
  {
    hide Form, Bit, Low;
    if j < 3 {
      EarlyBits(n, j, q, val);
    } else {
      LateBits(n, j, q, val);
    }
  }

  lemma EarlyBits(n: nat, j: nat, q: nat, val: nat)
    requires 2 <= n <= 6 && j < n && j < 3 && Form(j, Room(n), q, val)
    ensures j < n - 1 ==> Bit(val, 6 + 5 * j)
    ensures j == n - 1 ==> !Bit(val, 6 + 5 * j) && q == Low(val, 7 + 5 * j) && q < TWO31
  {
    hide Bit, Low, Shr, Pow2;
    BitShr(val, 6 + 5 * j);
    PowerValues();
    if j == 0 {
      SixShifts(val);
      MaskIs(val, 7, 0x80);
    } else if j == 1 {
      ShrEleven(val);
      NextPower(11);
      MaskIs(val, 12, 0x1000);
    } else {
      ShrSixteen(val);
      NextPower(16);
      MaskIs(val, 17, 0x2_0000);
    }
  }

  lemma LateBits(n: nat, j: nat, q: nat, val: nat)
    requires 2 <= n <= 6 && 3 <= j < n && Form(j, Room(n), q, val)
    ensures j < n - 1 ==> Bit(val, 6 + 5 * j)
    ensures j == n - 1 ==> !Bit(val, 6 + 5 * j) && q == (if j == 5 then val else Low(val, 7 + 5 * j)) && q < TWO31
  {
    hide Bit, Low, Shr, Pow2;
    BitShr(val, 6 + 5 * j);
    PowerValues();
    ShrMore(val);
    if j == 3 {
      NextPower(21);
      MaskIs(val, 22, 0x40_0000);
    } else if j == 4 {
      NextPower(26);
      MaskIs(val, 27, 0x800_0000);
    }
  }

  /** So the loop stops with the last octet of an encoding. */
  lemma {:induction false} PartialBits(v: nat, j: nat)
    requires 0x80 <= v < TWO31 && j < Length(v)
    ensures var n, val := Length(v), Partial(v, j);
            && (j < n - 1 ==> Bit(val, 6 + 5 * j))
            && (j == n - 1 ==> !Bit(val, 6 + 5 * j) && v == if j == 5 then val else Low(val, 7 + 5 * j))
  {
    hide Bit, Low, Shr, Partial, Form, Room;
    var n := Length(v);
    PartialForm(v, j);
    ShrZero(v);
    FormBits(n, j, Shr(v, 6 * (n - 1 - j)), Partial(v, j));
  }

  lemma NextPower(k: nat)
    ensures Pow2(k + 1) == 2 * Pow2(k)
  {
  }

  lemma {:induction false} RestReads(v: nat, j: nat, rest: seq<byte>)
    requires 0x80 <= v < TWO31 && j < Length(v)
    ensures GetRest(Partial(v, j), 6 + 5 * j, Encoding(v)[j + 1..] + rest) == Char(v, rest)
    decreases Length(v) - j
  {
    hide Bit, Low, Encoding, SixMore, GetRest, Shr;
    PartialBits(v, j);
    var s := Encoding(v)[j + 1..] + rest;
    if j == Length(v) - 1 {
      RestDone(Partial(v, j), 6 + 5 * j, s);
      assert s == rest;
    } else {
      EncodedOctet(v, j + 1);
      RestMore(Partial(v, j), 6 + 5 * j, s);
      RestReads(v, j + 1, rest);
      assert s[0] == Encoding(v)[j + 1] && s[1..] == Encoding(v)[j + 2..] + rest;
    }
  }

  /** Decoding the encoding of any value below 2^31 gives the value back, uses exactly its octets and never
      takes the error branch. */
  lemma {:induction false} GetPut(v: nat, rest: seq<byte>)
    requires v < TWO31
    ensures Get(Encoding(v) + rest) == Char(v, rest)
  {
    hide Encoding, GetRest, Length;
    if v >= 0x80 {
      LeadLarge(v);
      RestReads(v, 0, rest);
      assert (Encoding(v) + rest)[1..] == Encoding(v)[1..] + rest;
    } else {
      OneOctet(v);
      RestDone(v, 32, rest);
      assert ([v] + rest)[1..] == rest;
    }
  }

  lemma LeadLarge(v: nat)
    requires 0x80 <= v < TWO31
    ensures Encoding(v)[0] >= 0xC0 && Partial(v, 0) == Encoding(v)[0] && Length(v) > 0
  {
    hide Shr, Encoding;
    LeadForm(v);
  }

  // ----- Which octets are accepted -----

  /** The number whose bits are those of `q`, then six of each octet. */
  function Joined(q: nat, t: seq<byte>): nat {
    if t == [] then q else 64 * Joined(q, t[..|t| - 1]) + t[|t| - 1] % 64
  }

  lemma {:induction false} JoinedFront(q: nat, b: byte, t: seq<byte>)
    ensures Joined(q, [b] + t) == Joined(64 * q + b % 64, t)
  {
    if t == [] {
      assert [b] + t == [b] && [b][..0] == [];
    } else {
      JoinedFront(q, b, t[..|t| - 1]);
      assert ([b] + t)[..|[b] + t| - 1] == [b] + t[..|t| - 1];
    }
  }

  /** Shifting out the last octets. */
  lemma {:induction false} JoinedShr(q: nat, t: seq<byte>, k: nat)
    requires k <= |t|
    ensures Shr(Joined(q, t), 6 * k) == Joined(q, t[..|t| - k])
    decreases k
  {
    hide Shr;
    var x := Joined(q, t);
    if k == 0 {
      ShrZero(x);
      assert t[..|t|] == t;
    } else {
      var u := t[..|t| - 1];
      JoinedShr(q, u, k - 1);
      ShrSix(x, 6 * (k - 1));
      assert 6 * (k - 1) + 6 == 6 * k;
      assert x / 64 == Joined(q, u);
      assert u[..|u| - (k - 1)] == t[..|t| - k];
    }
  }

  predicate Continuations(t: seq<byte>) {
    forall i :: 0 <= i < |t| ==> t[i] / 64 == 2
  }

  /** From the lead octet of an `n`-octet form on, the loop reads continuation octets up to the length. */
  lemma {:induction false} RestForm(n: nat, j: nat, top: nat, m: nat, q: nat, val: nat, s: seq<byte>)
    requires 2 <= n <= 6 && j + m == n - 1 && top == 6 + 5 * j
    requires Form(j, Room(n), q, val) && GetRest(val, top, s).Char?
    ensures m <= |s| && Continuations(s[..m]) && Joined(q, s[..m]) < TWO31
    ensures GetRest(val, top, s) == Char(Joined(q, s[..m]), s[m..])
    decreases m
  {
    hide Bit, Low, Form, Room, GetRest, Joined, Continuations, SixMore;
    FormBits(n, j, q, val);
    if m == 0 {
      RestDone(val, top, s);
      NoOctets(q, s);
    } else {
      RestCharacter(val, top, s);
      var t: nat := s[0] - 128;
      SixRoom(n);
      FormStep(j + 1, Room(n), q, t, val);
      RestForm(n, j + 1, top + 5, m - 1, 64 * q + t, SixMore(val, t), s[1..]);
      OctetFirst(q, s, m);
    }
  }

  lemma {:induction false} NoOctets(q: nat, s: seq<byte>)
    ensures Joined(q, s[..0]) == q && Continuations(s[..0]) && s[0..] == s
  {
  }

  lemma {:induction false} OctetFirst(q: nat, s: seq<byte>, m: nat)
    requires 0 < m <= |s| && 128 <= s[0] < 192
    ensures Joined(q, s[..m]) == Joined(64 * q + (s[0] - 128), s[1..][..m - 1]) && s[1..][m - 1..] == s[m..]
    ensures Continuations(s[..m]) == Continuations(s[1..][..m - 1])
  {
    hide Joined;
    JoinedFront(q, s[0], s[1..][..m - 1]);
    assert s[..m] == [s[0]] + s[1..][..m - 1];
  }

  lemma SixRoom(n: nat)
    ensures n == 6 ==> Room(n) == 2
  {
  }

  /** The octets are the row of the table for the value they stand for, if they have its length. */
  lemma {:induction false} JoinedEncodes(n: nat, q: nat, t: seq<byte>)
    requires 2 <= n <= 6 && |t| == n - 1 && q < Room(n) && Continuations(t)
    requires Joined(q, t) < TWO31 && Length(Joined(q, t)) == n
    ensures Encoding(Joined(q, t)) == [256 - 2 * Room(n) + q] + t
  {
    hide Shr, Encoding, Joined, Room;
    var v := Joined(q, t);
    LeadForm(v) by {
      LongNeeds(v);
    }
    JoinedShr(q, t, n - 1);
    JoinedNothing(q, t[..0]);
    forall i | 0 <= i < |t|
      ensures Encoding(v)[i + 1] == t[i]
    {
      EncodedOctet(v, i + 1);
      JoinedShr(q, t, |t| - 1 - i);
      JoinedLast(q, t[..i + 1]);
      assert n - 1 - (i + 1) == |t| - 1 - i;
    }
    assert Encoding(v) == [Encoding(v)[0]] + t;
  }

  lemma LongNeeds(v: nat)
    requires Length(v) >= 2
    ensures v >= 0x80
  {
  }

  lemma {:induction false} JoinedNothing(q: nat, t: seq<byte>)
    requires t == []
    ensures Joined(q, t) == q
  {
  }

  lemma {:induction false} JoinedLast(q: nat, t: seq<byte>)
    requires t != []
    ensures Joined(q, t) % 64 == t[|t| - 1] % 64
  {
  }

  /** The value after `j` continuation octets of a form with seven leading ones or eight. */
  predicate High(j: nat, val: nat) {
    match j
    case 0 => 254 <= val < 256
    case 1 => 254 * 0x40 <= val < 256 * 0x40
    case 2 => 254 * 0x1000 <= val < 256 * 0x1000
    case 3 => 254 * 0x4_0000 <= val < 256 * 0x4_0000
    case 4 => 254 * 0x100_0000 <= val < TWO32
    case _ => j == 5 && TWO31 <= val < TWO32
  }

  lemma HighBits(j: nat, val: nat)
    requires j <= 5 && High(j, val)
    ensures Bit(val, 6 + 5 * j)
  {
    hide Bit, Shr;
    BitShr(val, 6 + 5 * j);
    SixShifts(val);
    ShrEleven(val);
    ShrSixteen(val);
    ShrMore(val);
  }

  lemma HighStep(j: nat, val: nat, t: nat)
    requires j < 5 && High(j, val) && t < 64
    ensures High(j + 1, SixMore(val, t))
  {
    if j == 4 {
      ModUnique(val * 64 + t, TWO32, 63, val * 64 + t - 63 * TWO32);
    } else {
      ModUnique(val * 64 + t, TWO32, 0, val * 64 + t);
    }
  }

  /** Then six continuation octets are read. */
  lemma {:induction false} RestHigh(j: nat, top: nat, m: nat, val: nat, s: seq<byte>)
    requires j + m == 6 && top == 6 + 5 * j && (m > 0 ==> High(j, val))
    ensures GetRest(val, top, s).Char? <==> m <= |s| && Continuations(s[..m])
    ensures GetRest(val, top, s).Char? ==> GetRest(val, top, s).rest == s[m..]
    decreases m
  {
    hide Bit, Low, High, SixMore, GetRest, Continuations;
    if m == 0 {
      RestDone(val, top, s);
      NoOctets(0, s);
    } else {
      HighBits(j, val);
      RestMore(val, top, s);
      if s != [] && 128 <= s[0] < 192 {
        if m > 1 {
          HighStep(j, val, s[0] - 128);
        }
        RestHigh(j + 1, top + 5, m - 1, SixMore(val, s[0] - 128), s[1..]);
        if m <= |s| {
          OctetFirst(0, s, m);
        }
      } else {
        NoContinuation(s, m);
      }
    }
  }

  lemma {:induction false} NoContinuation(s: seq<byte>, m: nat)
    requires m > 0 && (s == [] || !(128 <= s[0] < 192))
    ensures s == [] || s[0] / 64 != 2
    ensures !(m <= |s| && Continuations(s[..m]))
  {
    if m <= |s| {
      assert s[..m][0] == s[0];
    }
  }

  /** The number of octets that a lead octet announces. */
  function Announced(lead: byte): nat {
    if lead < 0xC0 then 1
    else if lead < 0xE0 then 2
    else if lead < 0xF0 then 3
    else if lead < 0xF8 then 4
    else if lead < 0xFC then 5
    else if lead < 0xFE then 6
    else 7
  }

  /** A lead octet, and as many continuation octets as it announces. */
  predicate WellShaped(s: seq<byte>) {
    s != [] && s[0] / 64 != 2 && |s| >= Announced(s[0]) && Continuations(s[1..Announced(s[0])])
  }

  lemma {:induction false} FormAccepted(n: nat, j: nat, top: nat, m: nat, q: nat, val: nat, s: seq<byte>)
    requires 2 <= n <= 6 && j + m == n - 1 && top == 6 + 5 * j && Form(j, Room(n), q, val)
    requires m <= |s| && Continuations(s[..m])
    ensures GetRest(val, top, s).Char?
    decreases m
  {
    hide Bit, Low, Form, Room, GetRest, SixMore;
    FormBits(n, j, q, val);
    if m == 0 {
      RestDone(val, top, s);
    } else {
      assert s[..m][0] == s[0];
      RestMore(val, top, s);
      SixRoom(n);
      FormStep(j + 1, Room(n), q, s[0] - 128, val);
      assert s[1..][..m - 1] == s[..m][1..];
      FormAccepted(n, j + 1, top + 5, m - 1, 64 * q + (s[0] - 128), SixMore(val, s[0] - 128), s[1..]);
    }
  }

  /** Exactly the strings accepted. */
  lemma {:induction false} AcceptedExact(s: seq<byte>)
    ensures Get(s).Char? <==> WellShaped(s)
  {
    hide GetRest, Continuations, Bit, Low;
    if s != [] && s[0] / 64 != 2 {
      var n := Announced(s[0]);
      if n == 1 {
        RestDone(s[0], 32, s[1..]);
        NoOctets(0, s[1..]);
        assert s[1..1] == s[1..][..0];
      } else if n == 7 {
        RestHigh(0, 6, 6, s[0], s[1..]);
        assert |s| >= 7 ==> s[1..7] == s[1..][..6];
      } else {
        LongShaped(s, n);
      }
    }
  }

  lemma {:induction false} LongShaped(s: seq<byte>, n: nat)
    requires s != [] && n == Announced(s[0]) && 2 <= n <= 6
    ensures GetRest(s[0], 6, s[1..]).Char? <==> |s| >= n && Continuations(s[1..n])
  {
    hide GetRest, Continuations, Joined;
    var q := s[0] - (256 - 2 * Room(n));
    assert |s| >= n ==> s[1..n] == s[1..][..n - 1];
    if GetRest(s[0], 6, s[1..]).Char? {
      RestForm(n, 0, 6, n - 1, q, s[0], s[1..]);
    }
    if |s| >= n && Continuations(s[1..n]) {
      FormAccepted(n, 0, 6, n - 1, q, s[0], s[1..]);
    }
  }

  /** What is accepted has the number of octets announced; up to six of them stand for a value below 2^31. The octets
      accepted for such a value are its encoding exactly if they have its length. */
  lemma {:induction false} Accepted(s: seq<byte>)
    requires WellShaped(s)
    ensures Get(s).Char?
    ensures var v, used := Get(s).val, |s| - |Get(s).rest|;
            && used == Announced(s[0]) && Get(s).rest == s[used..] && (used <= 6 ==> v < TWO31)
            && (v < TWO31 ==> (s[..used] == Encoding(v) <==> used == Length(v)))
  {
    hide GetRest, Encoding, Length, Bit, Low, Continuations;
    AcceptedExact(s);
    var n := Announced(s[0]);
    if n == 1 {
      AcceptedOne(s);
    } else if n == 7 {
      AcceptedSeven(s);
    } else {
      AcceptedLong(s, n);
    }
  }

  lemma {:induction false} AcceptedOne(s: seq<byte>)
    requires Get(s).Char? && Announced(s[0]) == 1
    ensures Get(s) == Char(s[0], s[1..]) && s[0] < 0x80 && Length(s[0]) == 1 && Encoding(s[0]) == s[..1]
  {
    OneOctet(s[0]);
  }

  lemma {:induction false} AcceptedSeven(s: seq<byte>)
    requires Get(s).Char? && Announced(s[0]) == 7
    ensures |Get(s).rest| == |s| - 7 && Get(s).rest == s[7..]
    ensures forall v: nat :: v < TWO31 ==> Length(v) < 7
  {
    RestHigh(0, 6, 6, s[0], s[1..]);
    hide GetRest;
    assert s[1..][6..] == s[7..];
  }

  lemma {:induction false} AcceptedLong(s: seq<byte>, n: nat)
    requires Get(s).Char? && n == Announced(s[0]) && 2 <= n <= 6
    ensures var v := Get(s).val;
            && n <= |s| && Get(s).rest == s[n..] && v < TWO31 && (Length(v) == n ==> s[..n] == Encoding(v))
  {
    hide GetRest, Encoding, Length, Joined;
    var q := s[0] - (256 - 2 * Room(n));
    RestForm(n, 0, 6, n - 1, q, s[0], s[1..]);
    var t := s[1..][..n - 1];
    if Length(Joined(q, t)) == n {
      JoinedEncodes(n, q, t);
    }
    assert s[1..][n - 1..] == s[n..] && s[..n] == [s[0]] + t;
  }

  /** No shorter form would do: the bits that only this form has room for are not all zero. */
  predicate Shortest(s: seq<byte>)
    requires WellShaped(s)
  {
    match Announced(s[0])
    case 1 => true
    case 2 => s[0] >= 0xC2
    case 3 => s[0] > 0xE0 || s[1] >= 0xA0
    case 4 => s[0] > 0xF0 || s[1] >= 0x90
    case 5 => s[0] > 0xF8 || s[1] >= 0x88
    case 6 => s[0] > 0xFC || s[1] >= 0x84
    case _ => false
  }

  /** The high bits of a value, from the first two octets. */
  lemma {:induction false} JoinedHigh(q: nat, t: seq<byte>)
    requires t != []
    ensures Shr(Joined(q, t), 6 * (|t| - 1)) == 64 * q + t[0] % 64
  {
    hide Shr;
    JoinedShr(q, t, |t| - 1);
    assert t[..1] == [t[0]] && [t[0]][..0] == [];
    assert Joined(q, [t[0]]) == 64 * Joined(q, []) + t[0] % 64;
  }

  lemma {:induction false} LengthShortest(n: nat, q: nat, t: seq<byte>)
    requires 2 <= n <= 6 && |t| == n - 1 && q < Room(n)
    ensures var h := 64 * q + t[0] % 64;
            Length(Joined(q, t)) == n <==>
            match n case 2 => h >= 0x80 case 3 => h >= 0x20 case 4 => h >= 0x10 case 5 => h >= 8 case _ => h >= 4
  {
    hide Shr, Joined;
    JoinedHigh(q, t);
    Shifted(Joined(q, t));
  }

  lemma {:induction false} ShortestLong(s: seq<byte>, n: nat)
    requires WellShaped(s) && n == Announced(s[0]) && 2 <= n <= 6 && Get(s).Char?
    ensures Length(Get(s).val) == n <==> Shortest(s)
  {
    hide GetRest, Length, Joined;
    var q, t := s[0] - (256 - 2 * Room(n)), s[1..][..n - 1];
    RestForm(n, 0, 6, n - 1, q, s[0], s[1..]);
    LengthShortest(n, q, t);
    assert t == s[1..n] && t[0] == s[1];
  }

  /** Exactly when the octets accepted are those that would have been written for the value. */
  lemma {:induction false} CanonicalExact(s: seq<byte>)
    requires WellShaped(s)
    ensures Get(s).Char?
    ensures Get(s).val < TWO31 && s[..Announced(s[0])] == Encoding(Get(s).val) <==> Shortest(s)
  {
    hide Get, Encoding, Length, Continuations;
    Accepted(s);
    var n := Announced(s[0]);
    if n == 1 {
      AcceptedOne(s);
    } else if n == 7 {
      SevenNeverWritten(s);
    } else {
      ShortestLong(s, n);
    }
  }

  lemma {:induction false} SevenNeverWritten(s: seq<byte>)
    requires WellShaped(s) && Announced(s[0]) == 7
    ensures forall v: nat :: v < TWO31 ==> s[..7] != Encoding(v)
  {
    forall v: nat | v < TWO31
      ensures s[..7] != Encoding(v)
    {
      SixOctets(v);
      assert |Encoding(v)| == Length(v);
    }
  }

  /** No other value would have been written so either. */
  lemma {:induction false} WrittenExact(s: seq<byte>)
    requires WellShaped(s)
    ensures (exists v: nat :: v < TWO31 && s[..Announced(s[0])] == Encoding(v)) <==> Shortest(s)
  {
    hide Get, Encoding, Shortest, Continuations;
    CanonicalExact(s);
    var n := Announced(s[0]);
    if v: nat :| v < TWO31 && s[..n] == Encoding(v) {
      GetPut(v, s[n..]);
      SliceJoin(s, n);
    }
  }

  /** Forms longer than needed are accepted: two octets for zero. */
  lemma OverlongAccepted()
    ensures Get([0xC0, 0x80]) == Char(0, []) && Length(0) == 1
  {
    var s: seq<byte> := [0xC0, 0x80];
    assert s[1..] == [0x80];
    FormBits(2, 0, 0, 0xC0);
    FormBits(2, 1, 0, 0x3000);
    hide Bit, Low;
    assert [0x80][1..] == [];
    assert GetRest(0x3000, 11, []) == Char(0, []);
    assert GetRest(0xC0, 6, [0x80]) == Char(0, []);
  }

  function Blank(k: nat): (s: seq<byte>)
    ensures |s| == k
  {
    seq(k, _ => 0x80)
  }

  lemma {:induction false} BlankRead(j: nat, val: nat, next: nat, k: nat)
    requires j <= 5 && High(j, val) && SixMore(val, 0) == next && GetRest(next, 6 + 5 * j + 5, Blank(k)) == Char(0, [])
    ensures GetRest(val, 6 + 5 * j, Blank(k + 1)) == Char(0, [])
  {
    hide GetRest, SixMore, High;
    HighBits(j, val);
    RestMore(val, 6 + 5 * j, Blank(k + 1));
    assert Blank(k + 1)[1..] == Blank(k);
  }

  /** Seven octets too: 0xFE and six continuation octets stand for zero. */
  lemma SevenAccepted()
    ensures Get([0xFE, 0x80, 0x80, 0x80, 0x80, 0x80, 0x80]) == Char(0, [])
  {
    hide GetRest, Bit, Low;
    RestDone(0, 36, Blank(0));
    BlankRead(5, 0x8000_0000, 0, 0);
    BlankRead(4, 0xFE00_0000, 0x8000_0000, 1);
    BlankRead(3, 0x3F8_0000, 0xFE00_0000, 2);
    BlankRead(2, 0xF_E000, 0x3F8_0000, 3);
    BlankRead(1, 0x3F80, 0xF_E000, 4);
    BlankRead(0, 0xFE, 0x3F80, 5);
    var s: seq<byte> := [0xFE, 0x80, 0x80, 0x80, 0x80, 0x80, 0x80];
    assert s[1..] == Blank(6);
  }

  // ----- Strings -----

  predicate InRange(vs: seq<nat>) {
    forall i :: 0 <= i < |vs| ==> vs[i] < TWO31
  }

  function EncodeAll(vs: seq<nat>): seq<byte>
    requires InRange(vs)
  {
    if vs == [] then [] else Encoding(vs[0]) + EncodeAll(vs[1..])
  }

  function DecodeAll(s: seq<byte>): Option<seq<nat>>
    decreases |s|
  {
    if s == [] then Some([]) else
      GetShrinks(s);
      match Get(s)
      case Invalid => None
      case Char(v, rest) =>
        match DecodeAll(rest)
        case None => None
        case Some(vs) => Some([v] + vs)
  }

  lemma {:induction false} GetRestShrinks(val: nat, top: nat, s: seq<byte>)
    ensures GetRest(val, top, s).Char? ==> |GetRest(val, top, s).rest| <= |s|
    decreases |s|
  {
    hide Bit, Low;
    if s != [] && s[0] >= 128 {
      GetRestShrinks(SixMore(val, s[0] - 128), top + 5, s[1..]);
    }
  }

  lemma {:induction false} GetShrinks(s: seq<byte>)
    ensures Get(s).Char? ==> |Get(s).rest| < |s|
  {
    if s != [] {
      GetRestShrinks(s[0], if s[0] >= 128 then 6 else 32, s[1..]);
    }
  }

  /** Whole strings of code points survive. */
  lemma {:induction false} DecodeEncodeAll(vs: seq<nat>)
    requires InRange(vs)
    ensures DecodeAll(EncodeAll(vs)) == Some(vs)
  {
    if vs != [] {
      GetPut(vs[0], EncodeAll(vs[1..]));
      DecodeEncodeAll(vs[1..]);
      hide Get, Encoding;
      assert vs == [vs[0]] + vs[1..];
    }
  }
}
