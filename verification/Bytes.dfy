/** Octets, concatenation, and the little-endian fields of an Ogg page header. */
module Bytes {
  type byte = x: int | 0 <= x < 256

  datatype Option<+T> = None | Some(value: T)

  lemma {:induction false} Assoc<T>(a: seq<T>, b: seq<T>, c: seq<T>)
    ensures (a + b) + c == a + (b + c)
  {
  }

  lemma {:induction false} SliceAppend<T>(a: seq<T>, b: seq<T>, n: nat)
    requires n <= |a|
    ensures (a + b)[..n] == a[..n] && (a + b)[n..] == a[n..] + b
  {
  }

  lemma {:induction false} DropAppend<T>(a: seq<T>, b: seq<T>, n: nat)
    requires n <= |b|
    ensures (a + b)[|a| + n..] == b[n..]
  {
  }

  lemma {:induction false} DropDrop<T>(a: seq<T>, i: nat, j: nat)
    requires i + j <= |a|
    ensures a[i..][j..] == a[i + j..]
  {
  }

  lemma {:induction false} SliceAll<T>(a: seq<T>, b: seq<T>)
    ensures a[0..] == a && b + a[|a|..] == b
  {
  }

  lemma {:induction false} SliceJoin<T>(a: seq<T>, n: nat)
    requires n <= |a|
    ensures a[..n] + a[n..] == a
  {
  }

  /** The pieces in order, joined. */
  function Concat<T>(pieces: seq<seq<T>>): seq<T> {
    if |pieces| == 0 then [] else Concat(pieces[..|pieces| - 1]) + pieces[|pieces| - 1]
  }

  lemma {:induction false} ConcatAppend<T>(a: seq<seq<T>>, b: seq<seq<T>>)
    ensures Concat(a + b) == Concat(a) + Concat(b)
  {
    if b == [] {
      assert a + b == a;
    } else {
      ConcatAppend(a, b[..|b| - 1]);
      assert (a + b)[..|a + b| - 1] == a + b[..|b| - 1];
    }
  }

  lemma {:induction false} ConcatOne<T>(a: seq<T>)
    ensures Concat([a]) == a
  {
    assert [a][..0] == [];
    assert Concat([a]) == Concat<T>([]) + a;
  }

  lemma {:induction false} ConcatCons<T>(a: seq<T>, rest: seq<seq<T>>)
    ensures Concat([a] + rest) == a + Concat(rest)
  {
    ConcatAppend([a], rest);
    ConcatOne(a);
  }

  function Sum(s: seq<byte>): nat {
    if |s| == 0 then 0 else Sum(s[..|s| - 1]) + s[|s| - 1]
  }

  lemma {:induction false} SumAppend(a: seq<byte>, b: seq<byte>)
    ensures Sum(a + b) == Sum(a) + Sum(b)
  {
    if b == [] {
      assert a + b == a;
    } else {
      SumAppend(a, b[..|b| - 1]);
      assert (a + b)[..|a + b| - 1] == a + b[..|b| - 1];
    }
  }

  /** The low `k` octets of a two's-complement integer, least significant first. */
  function ToLE(n: int, k: nat): (s: seq<byte>)
    ensures |s| == k
    decreases k
  {
    if k == 0 then [] else [n % 256] + ToLE(n / 256, k - 1)
  }

  function FromLE(s: seq<byte>): nat {
    if |s| == 0 then 0 else s[0] + 256 * FromLE(s[1..])
  }

  function Pow256(k: nat): (p: nat)
    ensures p > 0
  {
    if k == 0 then 1 else 256 * Pow256(k - 1)
  }

  /** The octets read back as the integer up to a multiple of 256^k. */
  lemma {:induction false} FromToLE(n: int, k: nat) returns (q: int)
    ensures n == q * Pow256(k) + FromLE(ToLE(n, k))
    ensures FromLE(ToLE(n, k)) < Pow256(k)
    decreases k
  {
    if k == 0 {
      q := n;
    } else {
      q := FromToLE(n / 256, k - 1);
      var p, s := Pow256(k - 1), ToLE(n, k);
      assert s[1..] == ToLE(n / 256, k - 1);
      assert 256 * (q * p) == q * (256 * p);
    }
  }

  lemma {:induction false} FirstOctet(n: int, k: nat)
    ensures ToLE(n, k + 1) == [n % 256] + ToLE(n / 256, k) && ToLE(n, 0) == []
  {
  }

  /** The octets of a field are the number's digits to base 256, least significant first. */
  lemma FourOctets(n: int)
    ensures ToLE(n, 4) == [n % 256, n / 0x100 % 256, n / 0x1_0000 % 256, n / 0x100_0000 % 256]
  {
    hide ToLE;
    assert n / 256 / 256 == n / 0x1_0000;
    assert n / 0x1_0000 / 256 == n / 0x100_0000;
    FirstOctet(n, 3);
    FirstOctet(n / 0x100, 2);
    FirstOctet(n / 0x1_0000, 1);
    FirstOctet(n / 0x100_0000, 0);
    FirstOctet(n / 0x100_0000 / 256, 0);
  }

  lemma EightOctets(n: int)
    ensures ToLE(n, 8) == ToLE(n, 4) + ToLE(n / 0x1_0000_0000, 4)
  {
    hide ToLE;
    assert n / 256 / 256 == n / 0x1_0000;
    assert n / 0x1_0000 / 256 == n / 0x100_0000;
    assert n / 0x100_0000 / 256 == n / 0x1_0000_0000;
    FirstOctet(n, 7);
    FirstOctet(n / 0x100, 6);
    FirstOctet(n / 0x1_0000, 5);
    FirstOctet(n / 0x100_0000, 4);
    FourOctets(n);
  }

  /** The digits of a field, least significant first, are the number read back. */
  lemma {:induction false} FourDigits(a: byte, b: byte, c: byte, d: byte)
    ensures FromLE([a, b, c, d]) == a + 0x100 * b + 0x1_0000 * c + 0x100_0000 * d
  {
    hide FromLE;
    assert [a, b, c, d] == [a] + [b, c, d] && [b, c, d] == [b] + [c, d] && [c, d] == [c] + [d] && [d] == [d] + [];
    FirstDigit(a, [b, c, d]);
    FirstDigit(b, [c, d]);
    FirstDigit(c, [d]);
    FirstDigit(d, []);
    NoDigits();
  }

  lemma {:induction false} FirstDigit(a: byte, s: seq<byte>)
    ensures FromLE([a] + s) == a + 256 * FromLE(s)
  {
    assert ([a] + s)[1..] == s;
  }

  lemma NoDigits()
    ensures FromLE([]) == 0
  {
  }

  const TWO31 := 0x8000_0000
  const TWO32 := 0x1_0000_0000
  const TWO63 := 0x8000_0000_0000_0000
  const TWO64 := 0x1_0000_0000_0000_0000

  predicate Int32(n: int) { -TWO31 <= n < TWO31 }
  predicate Int64(n: int) { -TWO63 <= n < TWO63 }

  /** Reads back a C `int`: the top bit is the sign. */
  function Signed32(n: nat): int {
    if n >= TWO31 then n - TWO32 else n
  }

  /** Reads back an `ogg_int64_t`. */
  function Signed64(n: nat): int {
    if n >= TWO63 then n - TWO64 else n
  }

  lemma Pow256Values()
    ensures Pow256(4) == TWO32 && Pow256(8) == TWO64
  {
    assert Pow256(1) == 256;
    assert Pow256(2) == 65536;
    assert Pow256(3) == 0x100_0000;
    assert Pow256(4) == TWO32;
    assert Pow256(5) == 0x100_0000_0000;
    assert Pow256(6) == 0x1_0000_0000_0000;
    assert Pow256(7) == 0x100_0000_0000_0000;
  }

  lemma Signed32RoundTrip(n: int)
    ensures Signed32(FromLE(ToLE(n, 4))) == n <==> Int32(n)
  {
    hide ToLE, FromLE, Pow256;
    var q := FromToLE(n, 4);
    Pow256Values();
  }

  lemma Signed64RoundTrip(n: int)
    ensures Signed64(FromLE(ToLE(n, 8))) == n <==> Int64(n)
  {
    hide ToLE, FromLE, Pow256;
    var q := FromToLE(n, 8);
    Pow256Values();
  }
}
