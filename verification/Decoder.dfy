/** The page decoder as a function on values: what the decoding half of framing.c computes. */
module Decoder {
  import opened Bytes
  import opened OggPage
  import opened Segments
  import opened Framing

  /** An `ogg_stream_state` used for decoding. `segs` are the segments not yet returned; the first
      `complete` of them belong to whole packets or are gap markers. */
  datatype DecState = DecState(segs: seq<Segment>, complete: nat, serialno: int, pageno: int, eos: bool, packetno: int)

  /** The entry 0x400 that stands for missing pages. */
  const HOLE := Segment([], false, false, true, 0)

  /** What `ogg_stream_packetout` reports. */
  datatype Event =
    | Gap
    | Got(data: seq<byte>, bos: bool, eos: bool, granulepos: int)

  /** Position `i` is a packet boundary. */
  predicate Boundary(segs: seq<Segment>, i: nat)
    requires i <= |segs|
  {
    i == 0 || Ends(segs[i - 1])
  }

  /** A gap marker is empty and never falls inside a packet. */
  predicate MarkerPlaced(segs: seq<Segment>, i: nat)
    requires i < |segs|
  {
    segs[i].hole ==> segs[i].data == [] && Boundary(segs, i)
  }

  ghost predicate MarkersPlaced(segs: seq<Segment>) {
    forall i :: 0 <= i < |segs| ==> MarkerPlaced(segs, i)
  }

  /** Nothing ends at or after position `n`. */
  ghost predicate OpenFrom(segs: seq<Segment>, n: nat) {
    forall i :: n <= i < |segs| ==> !Ends(segs[i]) && !segs[i].hole
  }

  /** Complete packets and gap markers first, then the beginning of one packet at most. */
  ghost predicate ValidSegments(segs: seq<Segment>, complete: nat) {
    && Sized(segs)
    && complete <= |segs|
    && Boundary(segs, complete)
    && OpenFrom(segs, complete)
    && MarkersPlaced(segs)
  }

  ghost predicate Valid(d: DecState) {
    ValidSegments(d.segs, d.complete)
  }

  /** How many of a page's segments, counted from the front, end with its last complete packet. */
  function LastEnd(lens: seq<byte>): (n: nat)
    ensures n <= |lens|
    ensures n > 0 ==> lens[n - 1] < 255
    ensures forall i :: n <= i < |lens| ==> lens[i] == 255
  {
    if |lens| == 0 then 0 else if lens[|lens| - 1] < 255 then |lens| else LastEnd(lens[..|lens| - 1])
  }

  /** A page's segments: its first flagged on a first page, its last ending one given the granule position. */
  function PageSegments(p: Page): (s: seq<Segment>)
    requires WellFormed(p)
    ensures |s| == |Lens(p)|
    ensures forall i :: 0 <= i < |s| ==> s[i].data == PageChunks(p)[i] && !s[i].hole && !s[i].last
    ensures forall i :: 0 <= i < |s| ==> s[i].first == (i == 0 && Bos(p))
    ensures forall i :: 0 <= i < |s| ==> s[i].granulepos == if i == LastEnd(Lens(p)) - 1 then Granulepos(p) else -1
  {
    var c := PageChunks(p);
    seq(|c|, i requires 0 <= i < |c| =>
      Segment(c[i], i == 0 && Bos(p), false, false, if i == LastEnd(Lens(p)) - 1 then Granulepos(p) else -1))
  }

  /** Flags the last entry with 0x200. */
  function MarkLast(segs: seq<Segment>): (s: seq<Segment>)
    ensures |s| == |segs|
  {
    if segs == [] then [] else segs[|segs| - 1 := segs[|segs| - 1].(last := true)]
  }

  /** Out of order, the unfinished packet is dropped and, if pages were seen before, the gap is noted.
      Yields the entries and how many of them are complete. */
  function Prepared(d: DecState, pageno: int): (seq<Segment>, nat)
    requires d.complete <= |d.segs|
  {
    if pageno == d.pageno then (d.segs, d.complete)
    else if d.pageno == -1 then (d.segs[..d.complete], d.complete)
    else (d.segs[..d.complete] + [HOLE], d.complete + 1)
  }

  /** The segments a page adds: a continuation without its beginning is skipped. */
  function Added(before: seq<Segment>, p: Page): seq<Segment>
    requires WellFormed(p)
  {
    var all := PageSegments(p);
    if Continued(p) && (before == [] || before[|before| - 1] == HOLE) then all[Run(all)..] else all
  }

  /** `ogg_stream_pagein`; the second component is its return value. */
  function PageIn(d: DecState, p: Page): (r: (DecState, int))
    requires WellFormed(p) && d.complete <= |d.segs|
    ensures r.0.serialno == d.serialno
  {
    if Serialno(p) != d.serialno || Version(p) > 0 then (d, -1) else
      var (before, ready) := Prepared(d, Pageno(p));
      var added := Added(before, p);
      var after := before + added;
      var ended := Complete(added);
      (d.(segs := if Eos(p) then MarkLast(after) else after,
          complete := if ended > 0 then |before| + ended else ready,
          pageno := Pageno(p) + 1,
          eos := d.eos || Eos(p)), 0)
  }

  predicate AnyLast(segs: seq<Segment>) {
    exists i :: 0 <= i < |segs| && segs[i].last
  }

  /** The packet made of a complete run of segments. */
  function PacketOf(run: seq<Segment>): Event
    requires run != []
  {
    Got(Body(run), run[0].first, AnyLast(run), run[|run| - 1].granulepos)
  }

  /** `ogg_stream_packetout`: no packet is ready, or an event is returned and consumed. */
  function PacketOut(d: DecState): (r: (DecState, Option<Event>))
    requires Valid(d)
    ensures r.0.serialno == d.serialno
    ensures r.1.None? ==> r.0 == d
  {
    if d.complete == 0 then (d, None)
    else if d.segs[0].hole then
      (d.(segs := d.segs[1..], complete := d.complete - 1, packetno := d.packetno + 1), Some(Gap))
    else
      var n := Run(d.segs);
      RunWithinComplete(d);
      (d.(segs := d.segs[n..], complete := d.complete - n, packetno := d.packetno + 1), Some(PacketOf(d.segs[..n])))
  }

  /** `ogg_stream_packetpeek`: like `PacketOut`, but only a gap marker is consumed. */
  function PacketPeek(d: DecState): (DecState, Option<Event>)
    requires Valid(d)
  {
    var (d', event) := PacketOut(d);
    (if event == Some(Gap) then d' else d, event)
  }

  /** `ogg_stream_init`, or `ogg_stream_reset` when `reset` is set. */
  function Init(serialno: int, reset: bool): DecState {
    DecState([], 0, serialno, if reset then -1 else 0, false, 0)
  }

  /** The gather loop of `_packetout` stops inside the complete part. */
  lemma {:induction false} RunWithinComplete(d: DecState)
    requires Valid(d) && d.complete > 0
    ensures 0 < Run(d.segs) <= d.complete && Ends(d.segs[Run(d.segs) - 1])
  {
    assert Ends(d.segs[d.complete - 1]);
  }

  // ----- The invariant -----

  lemma InitValid(serialno: int, reset: bool)
    ensures Valid(Init(serialno, reset))
  {
  }

  lemma {:induction false} MarkLastValid(segs: seq<Segment>, complete: nat)
    requires ValidSegments(segs, complete)
    ensures ValidSegments(MarkLast(segs), complete)
  {
    var s := MarkLast(segs);
    forall i | 0 <= i < |s|
      ensures MarkerPlaced(s, i)
    {
      assert MarkerPlaced(segs, i);
    }
  }

  lemma {:induction false} PageSegmentsSized(p: Page)
    requires WellFormed(p)
    ensures Sized(PageSegments(p))
    ensures forall i :: 0 <= i < |Lens(p)| ==> |PageSegments(p)[i].data| == Lens(p)[i]
  {
    SplitSizes(Lens(p), p.body);
  }

  lemma {:induction false} AppendMarkers(segs: seq<Segment>, added: seq<Segment>)
    requires MarkersPlaced(segs) && forall i :: 0 <= i < |added| ==> !added[i].hole
    ensures MarkersPlaced(segs + added)
  {
    var s := segs + added;
    forall i | 0 <= i < |s|
      ensures MarkerPlaced(s, i)
    {
      if i < |segs| {
        assert MarkerPlaced(segs, i);
      }
    }
  }

  lemma {:induction false} AppendOpen(segs: seq<Segment>, complete: nat, added: seq<Segment>, ended: nat)
    requires OpenFrom(segs, complete) && OpenFrom(added, ended) && complete <= |segs|
    requires forall i :: 0 <= i < |added| ==> !added[i].hole
    ensures OpenFrom(segs + added, if ended > 0 then |segs| + ended else complete)
  {
  }

  lemma {:induction false} AppendBoundary(segs: seq<Segment>, complete: nat, added: seq<Segment>, ended: nat)
    requires complete <= |segs| && Boundary(segs, complete) && ended <= |added| && Boundary(added, ended)
    ensures Boundary(segs + added, if ended > 0 then |segs| + ended else complete)
  {
  }

  lemma {:induction false} AppendSized(segs: seq<Segment>, added: seq<Segment>)
    requires Sized(segs) && Sized(added)
    ensures Sized(segs + added)
  {
  }

  /** Appending gap-free segments to a valid state. */
  lemma {:induction false} AppendValid(segs: seq<Segment>, complete: nat, added: seq<Segment>)
    requires ValidSegments(segs, complete) && Sized(added) && forall i :: 0 <= i < |added| ==> !added[i].hole
    ensures ValidSegments(segs + added, if Complete(added) > 0 then |segs| + Complete(added) else complete)
  {
    hide Complete, MarkersPlaced, Sized;
    assert OpenFrom(added, Complete(added)) && Boundary(added, Complete(added));
    hide OpenFrom, Boundary;
    AppendMarkers(segs, added);
    AppendOpen(segs, complete, added, Complete(added));
    AppendBoundary(segs, complete, added, Complete(added));
    AppendSized(segs, added);
  }

  /** Dropping the unfinished packet, and noting a gap. */
  lemma {:induction false} UnrollValid(segs: seq<Segment>, complete: nat, gap: bool)
    requires ValidSegments(segs, complete)
    ensures if gap then ValidSegments(segs[..complete] + [HOLE], complete + 1) else ValidSegments(segs[..complete], complete)
  {
    var s := if gap then segs[..complete] + [HOLE] else segs[..complete];
    forall i | 0 <= i < |s|
      ensures MarkerPlaced(s, i)
    {
      if i < complete {
        assert MarkerPlaced(segs, i);
      }
    }
  }

  lemma {:induction false} PreparedValid(d: DecState, pageno: int)
    requires Valid(d)
    ensures ValidSegments(Prepared(d, pageno).0, Prepared(d, pageno).1)
  {
    UnrollValid(d.segs, d.complete, true);
    UnrollValid(d.segs, d.complete, false);
  }

  lemma {:induction false} AddedPlain(before: seq<Segment>, p: Page)
    requires WellFormed(p)
    ensures Sized(Added(before, p)) && forall i :: 0 <= i < |Added(before, p)| ==> !Added(before, p)[i].hole
  {
    hide WellFormed, Lens, Run;
    PageSegmentsSized(p);
    assert forall i :: 0 <= i < |PageSegments(p)| ==> |PageSegments(p)[i].data| <= 255;
  }

  /** The invariant survives every page whose body length is its segment table's sum. */
  lemma {:induction false} PageInValid(d: DecState, p: Page)
    requires Valid(d) && WellFormed(p)
    ensures Valid(PageIn(d, p).0)
  {
    hide Version, Serialno, Pageno, Continued, Eos, MarkLast, Complete, Run, Lens, Sum, Prepared, Added, OpenFrom,
      MarkersPlaced, Boundary, Sized;
    if Serialno(p) == d.serialno && Version(p) == 0 {
      PreparedValid(d, Pageno(p));
      var (before, ready) := Prepared(d, Pageno(p));
      var added := Added(before, p);
      AddedPlain(before, p);
      AppendValid(before, ready, added);
      MarkLastValid(before + added, if Complete(added) > 0 then |before| + Complete(added) else ready);
    }
  }

  /** Between two consecutive pages the decoder notes a gap exactly where the page number, an unsigned counter read
      through a signed field, jumps. */
  lemma {:induction false} GapWherePagenoJumps(d: DecState, p: Page, q: Page, n: nat)
    requires Valid(d) && WellFormed(p) && HasHeader(q) && PageIn(d, p).1 == 0
    requires p.header[18..22] == ToLE(n, 4) && q.header[18..22] == ToLE(n + 1, 4)
    ensures var d' := PageIn(d, p).0;
            && d'.complete <= |d'.segs|
            && Prepared(d', Pageno(q)) == if (n + 1) % TWO32 != TWO31 then (d'.segs, d'.complete)
                                          else (d'.segs[..d'.complete] + [HOLE], d'.complete + 1)
  {
    hide Valid, Lens, Sum, Signed32, FromLE, ToLE, Added, MarkLast, Complete;
    Bounded(d);
    PageInValid(d, p);
    Bounded(PageIn(d, p).0);
    PagenoSequence(n);
  }

  /** A page is refused exactly if its serial number is another stream's or its version is not 0; then nothing changes. */
  lemma {:induction false} PageRefused(d: DecState, p: Page)
    requires WellFormed(p) && d.complete <= |d.segs|
    ensures var (d', status) := PageIn(d, p);
            && (status == 0 || status == -1)
            && (status == -1 <==> Signed32(FromLE(p.header[14..18])) != d.serialno || p.header[4] > 0)
            && (status == -1 ==> d' == d)
            && (status == 0 ==> d'.pageno == Pageno(p) + 1 && d'.packetno == d.packetno && (d'.eos <==> d.eos || Eos(p)))
  {
    hide Prepared, Added, MarkLast, Complete, Pageno, Eos, Signed32, FromLE, Lens, Sum;
  }

  /** The first page accepted: an initialised stream notes a gap unless it is page 0, a stream that was reset never does. */
  lemma {:induction false} FirstPage(serialno: int, reset: bool, p: Page)
    requires WellFormed(p) && PageIn(Init(serialno, reset), p).1 == 0
    ensures var d := PageIn(Init(serialno, reset), p).0;
            (d.segs != [] && d.segs[0].hole) <==> !reset && Pageno(p) != 0
  {
    hide PageSegments, Complete, Run, Pageno, Serialno, Version, Continued, Eos, Lens, Sum;
    var d0 := Init(serialno, reset);
    var before := Prepared(d0, Pageno(p)).0;
    AddedPlain(before, p);
    var after := before + Added(before, p);
    assert |MarkLast(after)| == |after| && (after != [] ==> MarkLast(after)[0].hole == after[0].hole);
  }

  lemma {:induction false} Bounded(d: DecState)
    requires Valid(d)
    ensures d.complete <= |d.segs|
  {
  }

  /** Dropping whole packets from the front. */
  lemma {:induction false} DropValid(segs: seq<Segment>, complete: nat, n: nat)
    requires ValidSegments(segs, complete) && n <= complete && Boundary(segs, n)
    ensures ValidSegments(segs[n..], complete - n)
  {
    var s := segs[n..];
    forall i | 0 <= i < |s|
      ensures MarkerPlaced(s, i)
    {
      assert MarkerPlaced(segs, n + i);
    }
  }

  lemma {:induction false} PacketOutValid(d: DecState)
    requires Valid(d)
    ensures Valid(PacketOut(d).0)
  {
    hide Run;
    if d.complete > 0 {
      RunWithinComplete(d);
      assert MarkerPlaced(d.segs, 0);
      DropValid(d.segs, d.complete, if d.segs[0].hole then 1 else Run(d.segs));
    }
  }
}
