/** Lacing: packets as runs of segments of at most 255 octets, the last of a run shorter than 255. */
module Segments {
  import opened Bytes
  import opened OggPage

  /** A `lacing_vals` entry: the low octet and the flag bits 0x100, 0x200 and 0x400. */
  datatype Lacing = Lacing(len: byte, first: bool, last: bool, hole: bool)

  /** A lacing entry together with the body octets it describes and its `granule_vals` entry. */
  datatype Segment = Segment(data: seq<byte>, first: bool, last: bool, hole: bool, granulepos: int)

  predicate Ends(s: Segment) { |s.data| < 255 }

  ghost predicate Sized(segs: seq<Segment>) {
    forall i :: 0 <= i < |segs| ==> |segs[i].data| <= 255
  }

  /** No packet ends among the segments. */
  ghost predicate NoEnds(segs: seq<Segment>) {
    forall i :: 0 <= i < |segs| ==> !Ends(segs[i])
  }

  /** Every packet in the list is complete. */
  predicate Closed(segs: seq<Segment>) {
    segs == [] || Ends(segs[|segs| - 1])
  }

  function Datas(segs: seq<Segment>): (d: seq<seq<byte>>)
    ensures |d| == |segs|
    ensures forall i :: 0 <= i < |segs| ==> d[i] == segs[i].data
  {
    seq(|segs|, i requires 0 <= i < |segs| => segs[i].data)
  }

  function LensOf(segs: seq<Segment>): (l: seq<byte>)
    requires Sized(segs)
    ensures |l| == |segs|
    ensures forall i :: 0 <= i < |segs| ==> l[i] == |segs[i].data|
  {
    seq(|segs|, i requires 0 <= i < |segs| => |segs[i].data|)
  }

  function Body(segs: seq<Segment>): seq<byte> {
    Concat(Datas(segs))
  }

  lemma {:induction false} BodyAppend(a: seq<Segment>, b: seq<Segment>)
    ensures Body(a + b) == Body(a) + Body(b)
  {
    assert Datas(a + b) == Datas(a) + Datas(b);
    ConcatAppend(Datas(a), Datas(b));
  }

  lemma {:induction false} BodySize(segs: seq<Segment>)
    requires Sized(segs)
    ensures |Body(segs)| == Sum(LensOf(segs))
  {
    if segs != [] {
      var n := |segs| - 1;
      BodySize(segs[..n]);
      assert LensOf(segs)[..n] == LensOf(segs[..n]);
      assert Datas(segs)[..n] == Datas(segs[..n]);
    }
  }

  /** Cuts a body along a segment table. */
  function Split(lens: seq<byte>, body: seq<byte>): (d: seq<seq<byte>>)
    requires |body| == Sum(lens)
    ensures |d| == |lens|
  {
    if |lens| == 0 then [] else
      var m := |body| - lens[|lens| - 1];
      Split(lens[..|lens| - 1], body[..m]) + [body[m..]]
  }

  lemma {:induction false} SplitNext(lens: seq<byte>, body: seq<byte>)
    requires |body| == Sum(lens) && lens != []
    ensures var n, m := |lens| - 1, |body| - lens[|lens| - 1];
            0 <= m && m == Sum(lens[..n]) && Split(lens, body) == Split(lens[..n], body[..m]) + [body[m..]]
  {
  }

  lemma SplitNothing()
    ensures Split([], []) == [] && Sum([]) == 0 && Concat<byte>([]) == []
  {
  }

  lemma {:induction false} SplitSizes(lens: seq<byte>, body: seq<byte>)
    requires |body| == Sum(lens)
    ensures forall i :: 0 <= i < |lens| ==> |Split(lens, body)[i]| == lens[i]
    ensures Concat(Split(lens, body)) == body
  {
    hide Split, Sum, Concat;
    SplitNothing();
    if lens != [] {
      SplitNext(lens, body);
      var n, m := |lens| - 1, |body| - lens[|lens| - 1];
      SplitSizes(lens[..n], body[..m]);
      ConcatAppend(Split(lens[..n], body[..m]), [body[m..]]);
      ConcatOne(body[m..]);
      SliceJoin(body, m);
    }
  }

  /** Splitting is the only way to cut a body into pieces of the given lengths. */
  lemma {:induction false} SplitUnique(segs: seq<Segment>)
    requires Sized(segs)
    ensures |Body(segs)| == Sum(LensOf(segs))
    ensures Split(LensOf(segs), Body(segs)) == Datas(segs)
  {
    BodySize(segs);
    if segs != [] {
      var n := |segs| - 1;
      SplitUnique(segs[..n]);
      assert LensOf(segs)[..n] == LensOf(segs[..n]);
      assert Datas(segs)[..n] == Datas(segs[..n]);
      assert Body(segs) == Body(segs[..n]) + segs[n].data;
      assert Split(LensOf(segs), Body(segs)) == Split(LensOf(segs[..n]), Body(segs[..n])) + [segs[n].data];
    }
  }

  lemma {:induction false} SplitAppend(l: seq<byte>, x: seq<byte>, m: seq<byte>, y: seq<byte>)
    requires |x| == Sum(l) && |y| == Sum(m)
    ensures Sum(l + m) == |x + y|
    ensures Split(l + m, x + y) == Split(l, x) + Split(m, y)
  {
    hide Split, Sum;
    SumAppend(l, m);
    if m == [] {
      SplitNothing();
      assert l + m == l && x + y == x && y == [];
      assert Split(l, x) + [] == Split(l, x);
    } else {
      SplitNext(l + m, x + y);
      SplitNext(m, y);
      var n := |m| - 1;
      var c := |y| - m[n];
      SplitAppend(l, x, m[..n], y[..c]);
      Assoc(Split(l, x), Split(m[..n], y[..c]), [y[c..]]);
      assert (l + m)[..|l + m| - 1] == l + m[..n];
      assert (x + y)[..|x + y| - m[n]] == x + y[..c];
      assert (x + y)[|x + y| - m[n]..] == y[c..];
    }
  }

  /** The length of the packet run at the front: up to and including the first segment that ends. */
  function Run(segs: seq<Segment>): (n: nat)
    ensures n <= |segs| && (segs != [] ==> n > 0)
    ensures forall i :: 0 <= i < n - 1 ==> !Ends(segs[i])
    ensures 0 < n < |segs| ==> Ends(segs[n - 1])
  {
    if segs == [] then 0 else if Ends(segs[0]) then 1 else 1 + Run(segs[1..])
  }

  /** How many segments belong to complete packets. */
  function Complete(segs: seq<Segment>): (n: nat)
    ensures n <= |segs| && (n > 0 ==> Ends(segs[n - 1]))
    ensures forall i :: n <= i < |segs| ==> !Ends(segs[i])
  {
    if |segs| == 0 then 0
    else if Ends(segs[|segs| - 1]) then |segs|
    else Complete(segs[..|segs| - 1])
  }

  /** The lacing of one packet: as many full segments as fit, then the (possibly empty) remainder. */
  function Chunks(data: seq<byte>): (c: seq<seq<byte>>)
    ensures |c| == |data| / 255 + 1
  {
    if |data| < 255 then [data] else [data[..255]] + Chunks(data[255..])
  }

  lemma {:induction false} ChunksJoin(data: seq<byte>)
    ensures Concat(Chunks(data)) == data
    ensures forall i :: 0 <= i < |data| / 255 ==> |Chunks(data)[i]| == 255
    ensures |Chunks(data)[|data| / 255]| == |data| % 255
    decreases |data|
  {
    if |data| < 255 {
      ConcatOne(data);
    } else {
      ChunksJoin(data[255..]);
      ConcatCons(data[..255], Chunks(data[255..]));
      SliceJoin(data, 255);
      ChunkCount(|data|);
      hide Concat;
    }
  }

  lemma ChunkCount(n: nat)
    requires n >= 255
    ensures n / 255 == (n - 255) / 255 + 1 && n % 255 == (n - 255) % 255
  {
  }

  /** The segments of a packet: the full ones repeat the previous granule position, the last has the packet's. */
  function PacketSegments(data: seq<byte>, previous: int, granulepos: int): (s: seq<Segment>)
    ensures |s| == |data| / 255 + 1
    ensures forall i :: 0 <= i < |s| ==> s[i].first == (i == 0) && !s[i].last && !s[i].hole
  {
    var c := Chunks(data);
    seq(|c|, i requires 0 <= i < |c| =>
      Segment(c[i], i == 0, false, false, if i < |c| - 1 then previous else granulepos))
  }

  lemma {:induction false} PacketSegmentsShape(data: seq<byte>, previous: int, granulepos: int)
    ensures var s := PacketSegments(data, previous, granulepos);
            && Sized(s) && Ends(s[|s| - 1]) && Datas(s) == Chunks(data) && Body(s) == data
            && (forall i :: 0 <= i < |s| - 1 ==> !Ends(s[i]) && s[i].granulepos == previous)
            && s[|s| - 1].granulepos == granulepos
  {
    ChunksJoin(data);
    var s := PacketSegments(data, previous, granulepos);
    assert Datas(s) == Chunks(data);
  }
}
