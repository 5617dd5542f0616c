/** Streams that no encoder here wrote: what the decoder makes of continued flags that lie. */
module Foreign {
  import opened Bytes
  import opened OggPage
  import opened Segments
  import opened Framing
  import opened Decoder
  import opened Delivery
  import opened Loss

  /** The decoder takes notice of a page. */
  predicate Accepts(d: DecState, p: Page)
    requires HasHeader(p)
  {
    Serialno(p) == d.serialno && Version(p) == 0
  }

  /** The reading that section 6 of RFC 3533 gives the continued flag: a page that continues a packet goes on with the
      unfinished one or, if none is held, is skipped up to the packet's end; before a page that does not, an
      unfinished packet will never be finished, and is dropped. */
  function Honest(d: DecState, p: Page): DecState
    requires WellFormed(p) && d.complete <= |d.segs|
  {
    if !Accepts(d, p) then d else
      var (before, ready) := Prepared(d, Pageno(p));
      var all := PageSegments(p);
      var kept := if Continued(p) then before else before[..ready];
      var added := if Continued(p) && ready == |before| then all[Run(all)..] else all;
      var ended := Complete(added);
      d.(segs := Marked(p, kept + added),
         complete := if ended > 0 then |kept| + ended else ready,
         pageno := Pageno(p) + 1,
         eos := d.eos || Eos(p))
  }

  /** The continued flag lies, and the decoder cannot tell: it claims a beginning while a packet is unfinished, or a
      continuation while none is and the last entry held is something other than an unflagged gap marker. */
  predicate FlagMatters(d: DecState, p: Page)
    requires WellFormed(p) && d.complete <= |d.segs|
  {
    var (before, ready) := Prepared(d, Pageno(p));
    if Continued(p) then ready == |before| && before != [] && before[|before| - 1] != HOLE && Lens(p) != []
    else ready < |before|
  }

  /** The number of entries after a page. */
  lemma {:induction false} Entries(d: DecState, p: Page)
    requires Valid(d) && WellFormed(p) && Accepts(d, p)
    ensures var (before, ready) := Prepared(d, Pageno(p));
            && |PageIn(d, p).0.segs| == |before| + |Added(before, p)|
            && |Honest(d, p).segs| == (if Continued(p) then |before| else ready)
                 + |Lens(p)| - (if Continued(p) && ready == |before| then Run(PageSegments(p)) else 0)
  {
    PreparedValid(d, Pageno(p));
    hide Valid, Prepared, Added, Run, Complete, Lens, Sum, OpenFrom, MarkersPlaced, Boundary, Sized;
  }

  lemma {:induction false} Misread(d: DecState, p: Page)
    requires Valid(d) && WellFormed(p) && Accepts(d, p) && FlagMatters(d, p)
    ensures PageIn(d, p).0 != Honest(d, p)
  {
    Entries(d, p);
    hide Valid, PageIn, Honest, Prepared, Run, Lens, Sum;
  }

  /** What is kept and what is added by either reading. */
  lemma {:induction false} SameParts(before: seq<Segment>, ready: nat, p: Page)
    requires ValidSegments(before, ready) && WellFormed(p)
    requires if Continued(p) then ready < |before| || before == [] || before[|before| - 1] == HOLE || Lens(p) == []
             else ready == |before|
    ensures ready <= |before| && before == if Continued(p) then before else before[..ready]
    ensures var all := PageSegments(p);
            Added(before, p) == if Continued(p) && ready == |before| then all[Run(all)..] else all
  {
    hide Run, Sum, Lens, MarkersPlaced, Sized, Boundary;
    assert before[..|before|] == before;
    assert ready < |before| ==> !before[|before| - 1].hole;
    var all := PageSegments(p);
    assert Lens(p) == [] ==> all[Run(all)..] == all;
  }

  lemma {:induction false} ReadRight(d: DecState, p: Page)
    requires Valid(d) && WellFormed(p) && Accepts(d, p) && !FlagMatters(d, p)
    ensures PageIn(d, p).0 == Honest(d, p)
  {
    hide ValidSegments, Prepared, Added, PageSegments, Run, Complete, Lens, Sum, Continued, Pageno, Serialno, Version,
      MarkLast;
    Bounded(d);
    PreparedValid(d, Pageno(p));
    var (before, ready) := Prepared(d, Pageno(p));
    SameParts(before, ready, p);
  }

  /** The decoder reads a page as its continued flag says, exactly unless the flag says that a packet begins where one
      is unfinished, or that one goes on where none is unfinished and the last entry held, if any, is something other
      than an unflagged gap marker: the end of a packet not yet returned, or a marker flagged as the stream's last. */
  lemma {:induction false} HonestExact(d: DecState, p: Page)
    requires Valid(d) && WellFormed(p) && Accepts(d, p)
    ensures PageIn(d, p).0 == Honest(d, p) <==> !FlagMatters(d, p)
  {
    hide PageIn, Honest, FlagMatters, ValidSegments;
    assert d.complete <= |d.segs| by {
      Bounded(d);
    }
    if FlagMatters(d, p) {
      Misread(d, p);
    } else {
      ReadRight(d, p);
    }
  }

  /** In the streams that the encoder writes, whichever pages were lost and whatever was taken before, the flag is
      always read right. */
  lemma {:induction false} EncodedReadRight(d: DecState, out: seq<Event>, pages: seq<Page>, delivered: seq<bool>, reset: bool,
                                            p: Page)
    requires Tracks(d, out, pages, delivered, reset)
    requires InSequence(pages + [p], d.serialno) && |pages| < TWO31
    ensures WellFormed(p) && d.complete <= |d.segs| && Accepts(d, p) && PageIn(d, p).0 == Honest(d, p)
  {
    hide AllWellFormed, WellFormed, HasHeader, Account, InSequence, Lens, Sum, Version, Serialno, Pageno, Continued, Eos,
      OpenEnded, Valid, ValidSegments, Prepared, OpenPart, Tags, AllOk, InStep, NextPage, PageIn, Honest, Events;
    LastInSequence(pages, p, d.serialno);
    Bounded(d);
    var (before, ready) := Prepared(d, |pages|);
    OpenPartMeaning(pages, delivered, d.serialno);
    PreparedMet(d, OpenPart(Tags(pages, delivered)), |pages|);
    PreparedValid(d, |pages|);
    InStepHonest(before, ready, OpenPart(Tags(pages, delivered)), p);
    ReadRight(d, p);
  }

  lemma {:induction false} InStepHonest(before: seq<Segment>, ready: nat, open: seq<Tagged>, p: Page)
    requires ValidSegments(before, ready) && WellFormed(p) && InStep(before, ready, open) && Continued(p) == (open != [])
    ensures if Continued(p) then ready < |before| || before == [] || before[|before| - 1] == HOLE else ready == |before|
  {
    hide WellFormed, HasHeader, Sized, OpenFrom, MarkersPlaced, Boundary;
  }

  // ----- A beginning where a packet is unfinished: two packets are spliced -----

  /** The entries after a page in sequence of which nothing is skipped. */
  lemma {:induction false} WholePage(d: DecState, p: Page)
    requires Valid(d) && WellFormed(p) && Accepts(d, p) && Pageno(p) == d.pageno && Lens(p) != []
    requires Continued(p) ==> d.segs != [] && d.segs[|d.segs| - 1] != HOLE
    ensures PageIn(d, p).0.segs == d.segs + MarkedSegments(p)
  {
    hide ValidSegments, Run, Complete, Lens, Sum, PageSegments, MarkLast, Serialno, Version, Pageno, Eos, Continued;
    Bounded(d);
    if Eos(p) {
      MarkLastAppend(d.segs, PageSegments(p));
    }
  }

  lemma {:induction false} MarkedPlain(p: Page)
    requires WellFormed(p) && Lens(p) != []
    ensures forall i :: 0 <= i < |MarkedSegments(p)| ==> !MarkedSegments(p)[i].hole
  {
    MarkedShape(p);
  }

  /** The first packet of an unfinished one and what follows it. */
  lemma {:induction false} FirstPacket(open: seq<Segment>, m: seq<Segment>)
    requires NoEnds(open) && Complete(m) > 0
    requires forall i :: 0 <= i < |m| ==> !m[i].hole
    requires forall i :: 0 <= i < |open| ==> !open[i].hole
    ensures Events(open + m) == [PacketOf(open + m[..Run(m)])] + Events(m[Run(m)..])
  {
    hide PacketOf, Complete, Run, Events;
    FirstEnd(m);
    var n, s := Run(m), open + m;
    RunJoined(open, m);
    assert s[|open| + n - 1] == m[n - 1] && !s[0].hole;
    FirstEvent(s);
    assert s[..|open| + n] == open + m[..n] && s[|open| + n..] == m[n..];
  }

  lemma {:induction false} FirstEvent(s: seq<Segment>)
    requires s != [] && !s[0].hole && Ends(s[Run(s) - 1])
    ensures Events(s) == [PacketOf(s[..Run(s)])] + Events(s[Run(s)..])
  {
    hide PacketOf, Run;
  }

  lemma {:induction false} FirstEnd(m: seq<Segment>)
    requires Complete(m) > 0
    ensures 0 < Run(m) <= |m| && Ends(m[Run(m) - 1])
  {
  }

  lemma {:induction false} RunJoined(open: seq<Segment>, m: seq<Segment>)
    requires NoEnds(open) && m != []
    ensures Run(open + m) == |open| + Run(m)
  {
    if open == [] {
      assert open + m == m;
    } else {
      RunJoined(open[1..], m);
      assert (open + m)[1..] == open[1..] + m;
    }
  }

  /** A page that does not continue the unfinished packet gets its first packet glued to it. */
  lemma {:induction false} Spliced(d: DecState, p: Page)
    requires Valid(d) && WellFormed(p) && Accepts(d, p) && Pageno(p) == d.pageno
    requires !Continued(p) && d.complete < |d.segs| && Complete(PageSegments(p)) > 0
    ensures var m := MarkedSegments(p);
            var n := Run(m);
            && Events(PageIn(d, p).0.segs) == Events(d.segs) + [PacketOf(d.segs[d.complete..] + m[..n])] + Events(m[n..])
            && Events(Honest(d, p).segs) == Events(d.segs) + [PacketOf(m[..n])] + Events(m[n..])
  {
    hide Valid, Run, Complete, Lens, Sum, PageIn, Honest, Events, MarkedSegments, PageSegments;
    WholePage(d, p);
    HonestWhole(d, p);
    MarkedPlain(p);
    MarkedSame(p);
    Bounded(d);
    GluedEvents(d, MarkedSegments(p));
  }

  /** The events after appending to a valid state, with its unfinished packet or without. */
  lemma {:induction false} GluedEvents(d: DecState, m: seq<Segment>)
    requires Valid(d) && Complete(m) > 0 && forall i :: 0 <= i < |m| ==> !m[i].hole
    ensures var open, n := d.segs[d.complete..], Run(m);
            && Events(d.segs + m) == Events(d.segs) + [PacketOf(open + m[..n])] + Events(m[n..])
            && Events(d.segs[..d.complete] + m) == Events(d.segs) + [PacketOf(m[..n])] + Events(m[n..])
  {
    hide Run, Complete, Events, PacketOf, Sized, MarkersPlaced;
    EventsOfComplete(d.segs, d.complete);
    var done, open := d.segs[..d.complete], d.segs[d.complete..];
    assert Closed(done) && NoEnds(open) && forall i :: 0 <= i < |open| ==> !open[i].hole;
    hide ValidSegments, Closed, NoEnds;
    SliceJoin(d.segs, d.complete);
    Assoc(done, open, m);
    EventsAppend(done, open + m);
    EventsAppend(done, m);
    FirstPacket(open, m);
    FirstPacketAlone(m);
    Assoc(Events(done), [PacketOf(open + m[..Run(m)])], Events(m[Run(m)..]));
    Assoc(Events(done), [PacketOf(m[..Run(m)])], Events(m[Run(m)..]));
  }

  lemma {:induction false} FirstPacketAlone(m: seq<Segment>)
    requires Complete(m) > 0 && forall i :: 0 <= i < |m| ==> !m[i].hole
    ensures Events(m) == [PacketOf(m[..Run(m)])] + Events(m[Run(m)..])
  {
    FirstPacket([], m);
    hide Complete, Run, PacketOf, Events;
    assert [] + m == m && [] + m[..Run(m)] == m[..Run(m)];
  }

  lemma {:induction false} HonestWhole(d: DecState, p: Page)
    requires Valid(d) && WellFormed(p) && Accepts(d, p) && Pageno(p) == d.pageno && Lens(p) != [] && !Continued(p)
    ensures d.complete <= |d.segs| && Honest(d, p).segs == d.segs[..d.complete] + MarkedSegments(p)
  {
    Bounded(d);
    hide Valid, Run, Complete, Lens, Sum;
    if Eos(p) {
      MarkLastAppend(d.segs[..d.complete], PageSegments(p));
    }
  }

  // ----- A continuation where nothing is unfinished: it depends on what the application has taken -----

  /** The state after the application has taken everything. */
  function Drained(d: DecState): DecState {
    d.(segs := [], complete := 0)
  }

  /** While the last entry held is something other than an unflagged gap marker, an orphan continuation is stored and
      becomes a packet of its own; had everything been taken before, it would have been skipped. */
  lemma {:induction false} DrainMatters(d: DecState, p: Page)
    requires Valid(d) && WellFormed(p) && Accepts(d, p) && Pageno(p) == d.pageno
    requires Continued(p) && d.complete == |d.segs| > 0 && d.segs[|d.segs| - 1] != HOLE && Complete(PageSegments(p)) > 0
    ensures var m := MarkedSegments(p);
            && Events(PageIn(Drained(d), p).0.segs) == Events(m[Run(m)..])
            && Events(PageIn(d, p).0.segs)
               == Events(d.segs) + [PacketOf(m[..Run(m)])] + Events(PageIn(Drained(d), p).0.segs)
  {
    WholePage(d, p);
    MarkedPlain(p);
    MarkedSame(p);
    DrainedSkips(d, p);
    assert Closed(d.segs);
    var m := MarkedSegments(p);
    hide Valid, Prepared, Run, Complete, Lens, Sum, OpenFrom, MarkersPlaced, Boundary, Sized, PageIn, Events, MarkedSegments,
      PageSegments, Closed;
    EventsAppend(d.segs, m);
    FirstPacketAlone(m);
    Assoc(Events(d.segs), [PacketOf(m[..Run(m)])], Events(m[Run(m)..]));
  }

  lemma {:induction false} DrainedSkips(d: DecState, p: Page)
    requires WellFormed(p) && Accepts(d, p) && Pageno(p) == d.pageno && Continued(p)
    ensures Events(PageIn(Drained(d), p).0.segs) == Events(MarkedSegments(p)[Run(MarkedSegments(p))..])
  {
    hide Complete, Run, Events, MarkedSegments, PageSegments, Lens, Sum, Marked, PageIn;
    DrainedEntries(d, p);
    MarkedSame(p);
    MarkedAppend([], p, Run(PageSegments(p)));
    NothingBefore(MarkedSegments(p)[Run(PageSegments(p))..]);
  }

  lemma {:induction false} NothingBefore(s: seq<Segment>)
    ensures [] + s == s
  {
  }

  lemma {:induction false} DrainedEntries(d: DecState, p: Page)
    requires WellFormed(p) && Accepts(d, p) && Pageno(p) == d.pageno && Continued(p)
    ensures PageIn(Drained(d), p).0.segs == Marked(p, [] + PageSegments(p)[Run(PageSegments(p))..])
  {
    hide Complete, Run, PageSegments, Lens, Sum, MarkLast;
  }

  // ----- A stream that shows it -----

  /** A page of one segment. */
  function OneSegment(serialno: int, pageno: nat, data: seq<byte>, granulepos: int): Page
    requires |data| <= 255
  {
    MakePage(false, pageno == 0, false, granulepos, serialno, pageno, [|data|], data)
  }

  /** A first page whose packet goes on, then a page that begins another: one packet of both comes back, where the
      second alone was sent whole. */
  lemma {:induction false} TwoPages(serialno: int, x: seq<byte>, y: seq<byte>, granulepos: int)
    requires Int32(serialno) && Int64(granulepos) && |x| == 255 && |y| < 255
    ensures var p, q := OneSegment(serialno, 0, x, -1), OneSegment(serialno, 1, y, granulepos);
            && WellFormed(p) && WellFormed(q)
            && var d := PageIn(Init(serialno, false), p).0;
               && d.complete <= |d.segs|
               && Events(PageIn(d, q).0.segs) == [Got(x + y, true, false, granulepos)]
               && Events(Honest(d, q).segs) == [Got(y, false, false, granulepos)]
  {
    hide OneSegment, PageSegments, PageIn, Honest, Events, Run, Complete, Lens, Sum, Valid, WellFormed, HasHeader, PacketOf;
    PageOf(serialno, 0, x, -1);
    PageOf(serialno, 1, y, granulepos);
    var p, q := OneSegment(serialno, 0, x, -1), OneSegment(serialno, 1, y, granulepos);
    FirstHeld(p, serialno, x);
    var d := PageIn(Init(serialno, false), p).0;
    Bounded(d);
    var held, got := Segment(x, true, false, false, -1), Segment(y, false, false, false, granulepos);
    OneRun(got);
    Spliced(d, q);
    assert d.segs[0..] == [held];
    TwoJoined(held, got);
    OneJoined(got);
    NoEvents(held);
  }

  lemma {:induction false} FirstHeld(p: Page, serialno: int, x: seq<byte>)
    requires WellFormed(p) && Version(p) == 0 && Serialno(p) == serialno && Pageno(p) == 0 && !Continued(p) && !Eos(p)
    requires |x| == 255 && PageSegments(p) == [Segment(x, true, false, false, -1)]
    ensures var d := PageIn(Init(serialno, false), p).0;
            && Valid(d) && d.segs == PageSegments(p) && d.complete == 0 && d.serialno == serialno && d.pageno == 1
  {
    hide PageSegments, Lens, Sum, WellFormed;
    InitValid(serialno, false);
    PageInValid(Init(serialno, false), p);
    assert [] + PageSegments(p) == PageSegments(p);
  }

  lemma {:induction false} OneRun(s: Segment)
    requires Ends(s)
    ensures Run([s]) == Complete([s]) == 1 && [s][..1] == [s] && Events([s][1..]) == []
  {
  }

  lemma {:induction false} NoEvents(s: Segment)
    requires !Ends(s) && !s.hole
    ensures Events([s]) == []
  {
    assert [s][1..] == [];
  }

  lemma {:induction false} OneJoined(s: Segment)
    ensures PacketOf([s]) == Got(s.data, s.first, s.last, s.granulepos)
  {
    assert Datas([s]) == [s.data];
    ConcatOne(s.data);
    assert [s][0] == s;
  }

  lemma {:induction false} TwoJoined(s: Segment, t: Segment)
    ensures PacketOf([s] + [t]) == Got(s.data + t.data, s.first, s.last || t.last, t.granulepos)
  {
    BodyAppend([s], [t]);
    OneJoined(s);
    OneJoined(t);
    hide Body;
    assert ([s] + [t])[0] == s && ([s] + [t])[1] == t;
  }

  lemma {:induction false} PageOf(serialno: int, pageno: nat, data: seq<byte>, granulepos: int)
    requires Int32(serialno) && Int32(pageno) && Int64(granulepos) && |data| <= 255
    ensures var p := OneSegment(serialno, pageno, data, granulepos);
            && WellFormed(p) && Version(p) == 0 && Serialno(p) == serialno && Pageno(p) == pageno
            && !Continued(p) && !Eos(p)
            && PageSegments(p) == [Segment(data, pageno == 0, false, false, if |data| < 255 then granulepos else -1)]
  {
    assert [|data|][..0] == [];
    assert Sum([|data|]) == |data|;
    MakePageFields(false, pageno == 0, false, granulepos, serialno, pageno, [|data|], data);
    hide MakePage, ToLE, FromLE, Signed32, Signed64;
    assert Split([|data|], data) == [data];
  }
}
