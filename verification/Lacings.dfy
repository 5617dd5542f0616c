/** The arrays of an `ogg_stream_state` read as segments, and the block moves its functions make. */
module Lacings {
  import opened Bytes
  import opened Segments

  function LensIn(lacing: seq<Lacing>): (l: seq<byte>)
    ensures |l| == |lacing|
    ensures forall i :: 0 <= i < |lacing| ==> l[i] == lacing[i].len
  {
    seq(|lacing|, i requires 0 <= i < |lacing| => lacing[i].len)
  }

  function SegmentAt(lacing: Lacing, granulepos: int, data: seq<byte>): Segment {
    Segment(data, lacing.first, lacing.last, lacing.hole, if lacing.hole then 0 else granulepos)
  }

  /** The segments that lacing values, granule values and body octets describe. (The granule value beside a
      gap marker is never written or read.) */
  function SegmentsIn(lacing: seq<Lacing>, granules: seq<int>, body: seq<byte>): (s: seq<Segment>)
    requires |granules| == |lacing| && |body| == Sum(LensIn(lacing))
    ensures |s| == |lacing|
    ensures forall i :: 0 <= i < |s| ==> s[i] == SegmentAt(lacing[i], granules[i], Split(LensIn(lacing), body)[i])
  {
    var d := Split(LensIn(lacing), body);
    seq(|lacing|, i requires 0 <= i < |lacing| => SegmentAt(lacing[i], granules[i], d[i]))
  }

  lemma {:induction false} SegmentsInSized(lacing: seq<Lacing>, granules: seq<int>, body: seq<byte>)
    requires |granules| == |lacing| && |body| == Sum(LensIn(lacing))
    ensures var s := SegmentsIn(lacing, granules, body);
            && Sized(s) && LensOf(s) == LensIn(lacing) && Body(s) == body
            && (forall i :: 0 <= i < |s| ==> |s[i].data| == lacing[i].len)
  {
    SplitSizes(LensIn(lacing), body);
    assert Datas(SegmentsIn(lacing, granules, body)) == Split(LensIn(lacing), body);
  }

  lemma {:induction false} LensAppend(a: seq<Lacing>, b: seq<Lacing>)
    ensures LensIn(a + b) == LensIn(a) + LensIn(b)
    ensures Sum(LensIn(a + b)) == Sum(LensIn(a)) + Sum(LensIn(b))
  {
    assert LensIn(a + b) == LensIn(a) + LensIn(b);
    SumAppend(LensIn(a), LensIn(b));
  }

  lemma {:induction false} SegmentsAppend(l: seq<Lacing>, g: seq<int>, x: seq<byte>, l': seq<Lacing>, g': seq<int>, x': seq<byte>)
    requires |g| == |l| && |x| == Sum(LensIn(l)) && |g'| == |l'| && |x'| == Sum(LensIn(l'))
    ensures |g + g'| == |l + l'| && |x + x'| == Sum(LensIn(l + l'))
    ensures SegmentsIn(l + l', g + g', x + x') == SegmentsIn(l, g, x) + SegmentsIn(l', g', x')
  {
    hide LensIn, Split, Sum, SegmentsIn, SegmentAt;
    LensAppend(l, l');
    SplitAppend(LensIn(l), x, LensIn(l'), x');
    var a, s, t := SegmentsIn(l + l', g + g', x + x'), SegmentsIn(l, g, x), SegmentsIn(l', g', x');
    forall i | 0 <= i < |a|
      ensures a[i] == (s + t)[i]
    {
      if i < |l| {
        assert (l + l')[i] == l[i] && (g + g')[i] == g[i];
      } else {
        assert (l + l')[i] == l'[i - |l|] && (g + g')[i] == g'[i - |l|];
      }
    }
  }

  /** Cutting the lacing at `n` cuts the body where the first `n` segments end. */
  lemma {:induction false} SegmentsCut(l: seq<Lacing>, g: seq<int>, x: seq<byte>, n: nat)
    requires |g| == |l| && |x| == Sum(LensIn(l)) && n <= |l|
    ensures var m := Sum(LensIn(l[..n]));
            && m <= |x| && |x| - m == Sum(LensIn(l[n..]))
            && SegmentsIn(l, g, x)[..n] == SegmentsIn(l[..n], g[..n], x[..m])
            && SegmentsIn(l, g, x)[n..] == SegmentsIn(l[n..], g[n..], x[m..])
  {
    SliceJoin(l, n);
    SliceJoin(g, n);
    LensAppend(l[..n], l[n..]);
    var m := Sum(LensIn(l[..n]));
    SliceJoin(x, m);
    hide SegmentsIn, LensIn;
    SegmentsAppend(l[..n], g[..n], x[..m], l[n..], g[n..], x[m..]);
  }

  /** `memmove` of `n` elements down to the start of the buffer. */
  method MoveDown<T>(a: array<T>, from: nat, n: nat)
    requires from + n <= a.Length
    modifies a
    ensures a[..n] == old(a[from..from + n])
  {
    for i := 0 to n
      invariant a[..i] == old(a[from..from + i])
      invariant forall j :: i <= j < a.Length ==> a[j] == old(a[j])
    {
      a[i] := a[from + i];
      assert a[..i + 1] == a[..i] + [a[i]];
    }
  }

  /** `memcpy` of a string into a buffer. */
  method CopyIn<T>(a: array<T>, at: nat, data: seq<T>)
    requires at + |data| <= a.Length
    modifies a
    ensures a[..at + |data|] == old(a[..at]) + data
  {
    for i := 0 to |data|
      invariant a[..at + i] == old(a[..at]) + data[..i]
    {
      a[at + i] := data[i];
      assert a[..at + i + 1] == a[..at + i] + [data[i]];
      assert data[..i + 1] == data[..i] + [data[i]];
    }
    assert data[..|data|] == data;
  }

  /** `realloc`: a longer array with the same beginning. */
  method Grow<T(0)>(a: array<T>, n: nat) returns (b: array<T>)
    requires a.Length <= n
    ensures fresh(b) && b.Length == n && b[..a.Length] == a[..]
  {
    b := new T[n];
    for i := 0 to a.Length
      invariant b[..i] == a[..i]
    {
      b[i] := a[i];
    }
  }
}
