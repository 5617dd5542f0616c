/** Whole runs of the bit packer: what a reader returns, and that it returns what a writer wrote. */
module BitRuns {
  import opened Bytes
  import opened Bits
  import opened Packing
  import opened BitPacker

  // ----- Any run of requests -----

  datatype Request =
    | Read(n: nat)
    | Look(n: nat)
    | Adv(n: nat)

  function Answer(msb: bool, b: seq<byte>, storage: nat, pos: nat, r: Request): int
    requires storage <= |b|
  {
    match r
    case Read(n) => ValueAt(msb, b, storage, pos, n)
    case Look(n) => ValueAt(msb, b, storage, pos, n)
    case Adv(n) => 0
  }

  function Next(storage: nat, pos: nat, r: Request): nat {
    match r
    case Read(n) => AfterRead(storage, pos, n)
    case Look(n) => pos
    case Adv(n) => Advanced(storage, pos, n)
  }

  /** The position before the last of a run of requests is served. */
  function PositionAfter(storage: nat, pos: nat, requests: seq<Request>): nat {
    if |requests| == 0 then pos
    else Next(storage, PositionAfter(storage, pos, requests[..|requests| - 1]), requests[|requests| - 1])
  }

  /** How far the requests would move without an end. */
  function Asked(requests: seq<Request>): nat {
    if |requests| == 0 then 0
    else Asked(requests[..|requests| - 1]) + match requests[|requests| - 1] case Look(n) => 0 case Read(n) => n case Adv(n) => n
  }

  predicate InRange(r: Request) {
    r.Adv? || r.n <= 32
  }

  /** The position is the sum of what was asked for as long as no read or advance reached past the end; from then on it is
      some place past the end, and it is bit 1 of the octet behind the buffer after each read or advance. */
  lemma {:induction false} PositionExact(storage: nat, pos: nat, requests: seq<Request>)
    requires forall r :: r in requests ==> InRange(r)
    ensures var p, sum := PositionAfter(storage, pos, requests), pos + Asked(requests);
            (if sum <= 8 * storage then p == sum else p > 8 * storage)
    ensures pos <= 8 * storage < pos + Asked(requests) ==> PositionAfter(storage, pos, requests) == 8 * storage + 1
  {
    if |requests| > 0 {
      PositionExact(storage, pos, requests[..|requests| - 1]);
      assert InRange(requests[|requests| - 1]);
    }
  }

  /** A request fails exactly when it reaches past the end, whatever mixture of reads, looks and advances
      went before; if it succeeds it yields the bits that follow those passed so far. */
  lemma {:induction false} ReaderExact(msb: bool, b: seq<byte>, storage: nat, pos: nat, before: seq<Request>, r: Request)
    requires storage <= |b| && !r.Adv? && InRange(r) && forall q :: q in before ==> InRange(q)
    ensures var at, answer := pos + Asked(before), Answer(msb, b, storage, PositionAfter(storage, pos, before), r);
            && (answer == -1 <==> at + r.n > 8 * storage)
            && (at + r.n <= 8 * storage ==> answer == Value(msb, Stream(msb, b, at + r.n)[at..]))
  {
    PositionExact(storage, pos, before);
    hide Value, Stream, Asked, PositionAfter;
  }

  /** Once a read or an advance has failed, every later read and look fails. */
  lemma {:induction false} FailureSticks(msb: bool, b: seq<byte>, storage: nat, pos: nat, before: seq<Request>, failed: Request,
                                         between: seq<Request>, r: Request)
    requires storage <= |b| && !failed.Look? && !r.Adv?
    requires Next(storage, PositionAfter(storage, pos, before), failed) > 8 * storage
    ensures Answer(msb, b, storage, PositionAfter(storage, pos, before + [failed] + between), r) == -1
  {
    StaysPast(storage, pos, before, failed, between);
    hide PositionAfter;
  }

  lemma {:induction false} StaysPast(storage: nat, pos: nat, before: seq<Request>, failed: Request, between: seq<Request>)
    requires Next(storage, PositionAfter(storage, pos, before), failed) > 8 * storage
    ensures PositionAfter(storage, pos, before + [failed] + between) > 8 * storage
  {
    var all := before + [failed] + between;
    if |between| == 0 {
      assert all[..|all| - 1] == before;
    } else {
      StaysPast(storage, pos, before, failed, between[..|between| - 1]);
      assert all[..|all| - 1] == before + [failed] + between[..|between| - 1];
    }
  }

  /** A look followed by an advance is a read. */
  lemma LookThenAdvance(msb: bool, b: seq<byte>, storage: nat, pos: nat, n: nat)
    requires storage <= |b| && n <= 32
    ensures Answer(msb, b, storage, pos, Look(n)) == Answer(msb, b, storage, pos, Read(n))
    ensures Next(storage, Next(storage, pos, Look(n)), Adv(n)) == Next(storage, pos, Read(n))
    ensures Answer(msb, b, storage, pos, Read(n)) == -1 <==> Next(storage, pos, Read(n)) > 8 * storage
  {
    hide Value, Stream;
  }

  // ----- Round trip -----

  datatype Item = Item(value: nat, width: nat)

  /** How an item is read back: `read`, `look` and `adv`, or, for one bit, `read1`. */
  datatype How = ByRead | ByLook | ByOne

  predicate Packable(items: seq<Item>) {
    forall i :: 0 <= i < |items| ==> items[i].width <= 32
  }

  function Packed(msb: bool, items: seq<Item>): seq<bool> {
    if |items| == 0 then []
    else Packed(msb, items[..|items| - 1]) + ToBits(msb, items[|items| - 1].value, items[|items| - 1].width)
  }

  /** Each value reduced to its width. */
  function Reduced(items: seq<Item>): (r: seq<int>)
    ensures |r| == |items|
  {
    seq(|items|, i requires 0 <= i < |items| => items[i].value % Pow2(items[i].width))
  }

  lemma {:induction false} PackedPrefix(msb: bool, items: seq<Item>, k: nat)
    requires k <= |items|
    ensures |Packed(msb, items[..k])| <= |Packed(msb, items)|
    ensures Packed(msb, items)[..|Packed(msb, items[..k])|] == Packed(msb, items[..k])
    decreases |items|
  {
    hide ToBits;
    if k == |items| {
      assert items[..k] == items;
    } else {
      var init := items[..|items| - 1];
      PackedPrefix(msb, init, k);
      assert init[..k] == items[..k];
    }
  }

  /** Where a buffer holds the packed items, a request of an item's width at the item's position yields its value. */
  lemma {:induction false} ItemAt(msb: bool, b: seq<byte>, storage: nat, items: seq<Item>, k: nat)
    requires k < |items| && Packable(items) && |Packed(msb, items)| <= 8 * storage <= 8 * |b|
    requires Stream(msb, b, |Packed(msb, items)|) == Packed(msb, items)
    ensures var pos, w := |Packed(msb, items[..k])|, items[k].width;
            && ValueAt(msb, b, storage, pos, w) == items[k].value % Pow2(w)
            && AfterRead(storage, pos, w) == |Packed(msb, items[..k + 1])| && pos + w == |Packed(msb, items[..k + 1])|
  {
    hide ToBits, Value, Stream;
    var pos, w := |Packed(msb, items[..k])|, items[k].width;
    PackedNext(msb, items, k);
    PackedPrefix(msb, items, k + 1);
    hide Packed;
    var bits := ToBits(msb, items[k].value, w);
    StreamTake(msb, b, |Packed(msb, items)|, pos + w);
    DropAppend(Packed(msb, items[..k]), bits, 0);
    SliceAll(bits, bits);
    ValueOfBits(msb, items[k].value, w);
    LowIsMod(items[k].value, w);
  }

  lemma {:induction false} PackedNext(msb: bool, items: seq<Item>, k: nat)
    requires k < |items|
    ensures Packed(msb, items[..k + 1]) == Packed(msb, items[..k]) + ToBits(msb, items[k].value, items[k].width)
  {
    assert items[..k + 1][..k] == items[..k];
  }

  lemma {:induction false} StreamTake(msb: bool, b: seq<byte>, n: nat, m: nat)
    requires m <= n <= 8 * |b|
    ensures Stream(msb, b, n)[..m] == Stream(msb, b, m)
  {
    hide StreamBit;
  }

  /** Writes every item. */
  method WriteAll(b: OggPackBuffer, msb: bool, items: seq<Item>)
    requires b.Writing(msb) && Packable(items)
    modifies b, b.buffer
    ensures b.Writing(msb) && b.Written(msb) == old(b.Written(msb)) + Packed(msb, items)
    ensures b.buffer == old(b.buffer) || fresh(b.buffer)
  {
    hide ToBits, Stream, ZeroTail;
    for i := 0 to |items|
      invariant b.Writing(msb) && b.Written(msb) == old(b.Written(msb)) + Packed(msb, items[..i])
      invariant b.buffer == old(b.buffer) || fresh(b.buffer)
    {
      assert items[..i + 1][..i] == items[..i];
      b.WriteIn(msb, items[i].value, items[i].width);
    }
    assert items[..|items|] == items;
  }

  /** Reads one item. */
  method ReadOne(b: OggPackBuffer, msb: bool, n: nat, how: How) returns (value: int)
    requires b.Reading() && n <= 32 && (how == ByOne ==> n == 1)
    modifies b`live, b`endbyte, b`endbit
    ensures value == old(ValueAt(msb, b.buffer[..], b.storage, 8 * b.endbyte + b.endbit, n))
    ensures b.Reading() && 8 * b.endbyte + b.endbit == AfterRead(b.storage, old(8 * b.endbyte + b.endbit), n)
  {
    hide ValueAt;
    match how
    case ByRead => value := b.Read(msb, n);
    case ByLook =>
      value := b.Look(msb, n);
      b.Adv(n);
    case ByOne => value := b.Read1(msb);
  }

  lemma {:induction false} ReducedNext(items: seq<Item>, k: nat)
    requires k < |items|
    ensures Reduced(items)[..k + 1] == Reduced(items)[..k] + [items[k].value % Pow2(items[k].width)]
  {
  }

  /** Reads every item. */
  method ReadAll(b: OggPackBuffer, msb: bool, items: seq<Item>, hows: seq<How>) returns (values: seq<int>)
    requires b.Reading() && b.endbyte == b.endbit == 0 && Packable(items) && |hows| == |items|
    requires forall i :: 0 <= i < |items| && hows[i] == ByOne ==> items[i].width == 1
    requires |Packed(msb, items)| <= 8 * b.storage && Stream(msb, b.buffer[..], |Packed(msb, items)|) == Packed(msb, items)
    modifies b`live, b`endbyte, b`endbit
    ensures values == Reduced(items) && 8 * b.endbyte + b.endbit == |Packed(msb, items)|
  {
    hide Stream, ToBits, StreamBit, ValueAt, AfterRead, Reduced;
    ghost var octets := b.buffer[..];
    values := [];
    for i := 0 to |items|
      invariant b.Reading() && b.buffer[..] == octets
      invariant 8 * b.endbyte + b.endbit == |Packed(msb, items[..i])|
      invariant values == Reduced(items)[..i]
    {
      ItemAt(msb, octets, b.storage, items, i);
      ReducedNext(items, i);
      var v := ReadOne(b, msb, items[i].width, hows[i]);
      values := values + [v];
    }
    assert items[..|items|] == items && Reduced(items)[..|items|] == Reduced(items);
  }

  /** Whatever is packed into a fresh buffer is read back from its `PackedBytes` octets, each value reduced
      to its width, in either bit order and with any choice of reading functions. */
  method RoundTrip(msb: bool, items: seq<Item>, hows: seq<How>) returns (values: seq<int>, position: nat, bytes: nat)
    requires Packable(items) && |hows| == |items|
    requires forall i :: 0 <= i < |items| && hows[i] == ByOne ==> items[i].width == 1
    ensures values == Reduced(items)
    ensures position == |Packed(msb, items)| && position <= 8 * bytes < position + 8
  {
    hide Stream, ToBits, ZeroTail, StreamBit, Reduced;
    var w := new OggPackBuffer();
    WriteAll(w, msb, items);
    bytes := w.PackedBytes();
    ghost var stream := Packed(msb, items);
    assert Stream(msb, w.buffer[..], |stream|) == stream;
    var r := new OggPackBuffer();
    r.ReadInit(w.buffer, bytes);
    values := ReadAll(r, msb, items, hows);
    position := 8 * r.endbyte + r.endbit;
  }

  /** A copy into a fresh buffer: it succeeds exactly when it fits the first allocation; a longer one, which the
      code means to make room for, clears the buffer instead. */
  method CopyIntoFresh(msb: bool, source: seq<byte>, bits: nat) returns (b: OggPackBuffer)
    requires bits <= 8 * |source|
    ensures b.Cleared() <==> bits / 8 + 1 >= BUFFER_INCREMENT
    ensures !b.Cleared() ==> b.Writing(msb) && b.Written(msb) == Stream(msb, source, bits)
  {
    hide Stream, ZeroTail;
    b := new OggPackBuffer();
    b.WriteCopy(msb, source, bits);
    assert [] + Stream(msb, source, bits) == Stream(msb, source, bits);
  }
}
