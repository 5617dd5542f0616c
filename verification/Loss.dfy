/** Loss exactness: the decoder against the reference of Delivery, page by page. */
module Loss {
  import opened Bytes
  import opened OggPage
  import opened Segments
  import opened Framing
  import opened Decoder
  import opened Delivery

  /** A page's segments with the end-of-stream flag on the last. */
  function MarkedSegments(p: Page): (s: seq<Segment>)
    requires WellFormed(p)
    ensures |s| == |Lens(p)|
  {
    if Eos(p) then MarkLast(PageSegments(p)) else PageSegments(p)
  }

  function TagAll(segs: seq<Segment>, ok: bool): (t: seq<Tagged>)
    ensures |t| == |segs|
    ensures forall i :: 0 <= i < |segs| ==> t[i] == Tagged(segs[i], ok)
  {
    seq(|segs|, i requires 0 <= i < |segs| => Tagged(segs[i], ok))
  }

  lemma {:induction false} SegsOfTags(segs: seq<Segment>, ok: bool, n: nat)
    requires n <= |segs|
    ensures Segs(TagAll(segs, ok)) == segs && Segs(TagAll(segs, ok)[n..]) == segs[n..]
    ensures AllOk(TagAll(segs, true)) && AllOk(TagAll(segs, true)[n..])
  {
  }

  /** All segments of a stream, each with the fate of its page. */
  function Tags(pages: seq<Page>, delivered: seq<bool>): seq<Tagged>
    requires AllWellFormed(pages) && |delivered| == |pages|
  {
    if |pages| == 0 then [] else
      var n := |pages| - 1;
      Tags(pages[..n], delivered[..n]) + TagAll(MarkedSegments(pages[n]), delivered[n])
  }

  /** The segments of the packet that has begun and not ended. */
  function OpenPart(ts: seq<Tagged>): (o: seq<Tagged>)
    ensures |o| <= |ts|
    ensures NoEnds(Segs(o))
  {
    ts[Complete(Segs(ts))..]
  }

  lemma {:induction false} OpenContributesNothing(done: seq<Tagged>, open: seq<Tagged>, x: seq<Tagged>)
    requires Closed(Segs(done)) && NoEnds(Segs(open))
    ensures Survivors((done + open) + x) == Survivors(done + open) + Survivors(open + x)
  {
    hide Survivors, Closed, NoEnds;
    OpenSurvivors(open);
    SurvivorsAppend(done, open);
    Assoc(done, open, x);
    SurvivorsAppend(done, open + x);
    assert Survivors(done) + [] == Survivors(done);
  }

  lemma {:induction false} SurvivorsExtend(ts: seq<Tagged>, x: seq<Tagged>)
    ensures Survivors(ts + x) == Survivors(ts) + Survivors(OpenPart(ts) + x)
  {
    var c := Complete(Segs(ts));
    SegsSlice(ts, c);
    assert Closed(Segs(ts)[..c]);
    hide Survivors, Complete, Closed, Segs, NoEnds;
    SliceJoin(ts, c);
    OpenContributesNothing(ts[..c], OpenPart(ts), x);
  }

  // ----- A page meets the entries already there -----

  lemma {:induction false} MarkLastAppend(a: seq<Segment>, b: seq<Segment>)
    requires b != []
    ensures MarkLast(a + b) == a + MarkLast(b)
  {
  }

  lemma {:induction false} MarkLastDrop(a: seq<Segment>, n: nat)
    requires n < |a|
    ensures MarkLast(a[n..]) == MarkLast(a)[n..]
  {
  }

  /** The flag on a gap marker is never seen. */
  lemma {:induction false} MarkedGap(segs: seq<Segment>)
    requires segs == [] || (segs[|segs| - 1].hole && Boundary(segs, |segs| - 1))
    ensures Events(MarkLast(segs)) == Events(segs)
  {
    if segs != [] {
      var n := |segs| - 1;
      var gap, marked := [segs[n]], [segs[n].(last := true)];
      assert segs == segs[..n] + gap && MarkLast(segs) == segs[..n] + marked;
      EventsAppend(segs[..n], gap);
      EventsAppend(segs[..n], marked);
      assert gap[1..] == [] && marked[1..] == [];
    }
  }

  lemma {:induction false} MarkedShape(p: Page)
    requires WellFormed(p) && Lens(p) != []
    ensures var m, s := MarkedSegments(p), PageSegments(p);
            && |m| == |s| && m != []
            && (forall i :: 0 <= i < |m| ==> !m[i].hole && m[i].data == s[i].data)
  {
  }

  /** The entries a page leaves behind, before `lacing_packet` is updated. */
  function Marked(p: Page, after: seq<Segment>): seq<Segment>
    requires HasHeader(p)
  {
    if Eos(p) then MarkLast(after) else after
  }

  /** Segments that continue what is there: nothing is skipped, and nothing is lost. */
  lemma {:induction false} ResumedEvents(before: seq<Segment>, ready: nat, open: seq<Tagged>, m: seq<Segment>)
    requires ready <= |before| && Boundary(before, ready) && OpenFrom(before, ready)
    requires before[ready..] == Segs(open) && AllOk(open)
    requires forall i :: 0 <= i < |m| ==> !m[i].hole
    ensures Events(before + m) == Events(before) + Survivors(open + TagAll(m, true))
  {
    JoinedSurvive(open, m) by {
      assert forall i :: 0 <= i < |open| ==> open[i].seg == before[ready + i];
    }
    EventsOfComplete(before, ready);
    hide Events, Survivors, OpenFrom, TagAll, Segs, AllOk;
    var done := before[..ready];
    SliceJoin(before, ready);
    Assoc(done, Segs(open), m);
    EventsAppend(done, Segs(open) + m);
  }

  lemma {:induction false} JoinedSurvive(open: seq<Tagged>, m: seq<Segment>)
    requires AllOk(open) && Plain(open)
    requires forall i :: 0 <= i < |m| ==> !m[i].hole
    ensures Survivors(open + TagAll(m, true)) == Events(Segs(open) + m)
  {
    var x := TagAll(m, true);
    SegsOfTags(m, true, 0);
    SegsAppend(open, x);
    AllSurvive(open + x);
  }

  /** Segments that continue a packet whose beginning is missing: that packet's rest is skipped. */
  lemma {:induction false} SkippedEvents(before: seq<Segment>, open: seq<Tagged>, m: seq<Segment>)
    requires Closed(before)
    requires NoEnds(Segs(open)) && !AllOk(open)
    requires forall i :: 0 <= i < |m| ==> !m[i].hole
    ensures Events(before + m[Run(m)..]) == Events(before) + Survivors(open + TagAll(m, true))
  {
    hide Events, Survivors, Run;
    var x, j := TagAll(m, true), Run(m);
    SegsOfTags(m, true, 0);
    SegsOfTags(m, true, j);
    BrokenPacketLost(open, x);
    AllSurvive(x[j..]);
    EventsAppend(before, m[j..]);
  }

  /** Marking the last entry of what a page leaves behind is marking the page's last segment,
      unless all of the page was skipped. */
  lemma {:induction false} MarkedAppend(before: seq<Segment>, p: Page, n: nat)
    requires WellFormed(p) && n <= |Lens(p)|
    requires n == |Lens(p)| ==> before == [] || (before[|before| - 1].hole && Boundary(before, |before| - 1))
    ensures Events(Marked(p, before + PageSegments(p)[n..])) == Events(before + MarkedSegments(p)[n..])
  {
    var s := PageSegments(p);
    if n < |s| {
      MarkLastAppend(before, s[n..]);
      MarkLastDrop(s, n);
    } else {
      assert before + s[n..] == before && before + MarkedSegments(p)[n..] == before;
      MarkedGap(before);
    }
  }

  /** The run at the front depends on the lengths alone. */
  lemma {:induction false} SameRun(a: seq<Segment>, b: seq<Segment>)
    requires |a| == |b| && forall i :: 0 <= i < |a| ==> a[i].data == b[i].data
    ensures Run(a) == Run(b)
  {
    if a != [] && !Ends(a[0]) {
      SameRun(a[1..], b[1..]);
    }
  }

  // ----- The packet in progress -----

  /** The decoder holds exactly the beginning of the packet in progress if all of it was delivered;
      otherwise it holds none of it, and would recognise its continuation as one to skip. */
  ghost predicate InStep(segs: seq<Segment>, complete: nat, open: seq<Tagged>) {
    if AllOk(open) then complete <= |segs| && segs[complete..] == Segs(open)
    else complete == |segs| && (segs == [] || segs[|segs| - 1] == HOLE)
  }

  lemma {:induction false} CompleteIs(segs: seq<Segment>, n: nat)
    requires n <= |segs| && Boundary(segs, n) && forall i :: n <= i < |segs| ==> !Ends(segs[i])
    ensures Complete(segs) == n
  {
  }

  lemma {:induction false} OpenPartEnded(open: seq<Tagged>, m: seq<Segment>, e: nat)
    requires NoEnds(Segs(open))
    requires e == Complete(m)
    ensures OpenPart(open + TagAll(m, true)) == if e > 0 then TagAll(m, true)[e..] else open + TagAll(m, true)
  {
    var x := TagAll(m, true);
    SegsOfTags(m, true, 0);
    SegsAppend(open, x);
    DropAppend(open, x, e);
    hide Complete;
    CompleteIs(Segs(open) + m, if e > 0 then |open| + e else 0);
  }

  lemma {:induction false} MarkedSame(p: Page)
    requires WellFormed(p)
    ensures Complete(MarkedSegments(p)) == Complete(PageSegments(p))
    ensures Run(MarkedSegments(p)) == Run(PageSegments(p))
  {
    var m, s := MarkedSegments(p), PageSegments(p);
    assert forall i :: 0 <= i < |m| ==> m[i].data == s[i].data;
    SameRun(m, s);
    CompleteIs(m, Complete(s));
  }

  lemma {:induction false} MarkedSplit(before: seq<Segment>, p: Page, n: nat)
    requires WellFormed(p) && n < |Lens(p)|
    ensures Marked(p, before + PageSegments(p)[n..]) == before + MarkedSegments(p)[n..]
  {
    if Eos(p) {
      MarkLastAppend(before, PageSegments(p)[n..]);
      MarkLastDrop(PageSegments(p), n);
    }
  }

  lemma {:induction false} ResumedInStep(before: seq<Segment>, ready: nat, open: seq<Tagged>, m: seq<Segment>, e: nat)
    requires ready <= |before| && before[ready..] == Segs(open) && AllOk(open)
    requires NoEnds(Segs(open))
    requires e == Complete(m)
    ensures InStep(before + m, if e > 0 then |before| + e else ready, OpenPart(open + TagAll(m, true)))
  {
    hide OpenPart, AllOk, NoEnds, Complete, InStep, TagAll, Segs;
    OpenPartEnded(open, m, e);
    if e > 0 {
      SkippedThenEnded(before, m, 0, e);
      assert m[0..] == m;
    } else {
      ResumedWhole(before, ready, open, m);
    }
  }

  lemma {:induction false} ResumedWhole(before: seq<Segment>, ready: nat, open: seq<Tagged>, m: seq<Segment>)
    requires ready <= |before| && before[ready..] == Segs(open) && AllOk(open)
    ensures InStep(before + m, ready, open + TagAll(m, true))
  {
    SegsOfTags(m, true, 0);
    SegsAppend(open, TagAll(m, true));
    hide Segs;
    SliceAppend(before, m, ready);
  }

  lemma {:induction false} SkippedThenEnded(before: seq<Segment>, m: seq<Segment>, j: nat, e: nat)
    requires j <= e <= |m|
    ensures InStep(before + m[j..], |before| + (e - j), TagAll(m, true)[e..])
  {
    SegsOfTags(m, true, e);
    hide Segs, TagAll, AllOk;
    DropAppend(before, m[j..], e - j);
    DropDrop(m, j, e - j);
  }

  lemma {:induction false} SkippedWhole(before: seq<Segment>, m: seq<Segment>, open: seq<Tagged>)
    requires (before == [] || before[|before| - 1] == HOLE) && !AllOk(open)
    ensures InStep(before + m[|m|..], |before|, open)
  {
    hide AllOk;
    assert before + m[|m|..] == before;
  }

  lemma {:induction false} SkippedInStep(before: seq<Segment>, open: seq<Tagged>, m: seq<Segment>, e: nat)
    requires before == [] || before[|before| - 1] == HOLE
    requires !AllOk(open) && NoEnds(Segs(open))
    requires e == Complete(m)
    ensures InStep(before + m[Run(m)..], |before| + Complete(m[Run(m)..]), OpenPart(open + TagAll(m, true)))
  {
    hide OpenPart, AllOk, NoEnds, Run, Complete, InStep, TagAll, Segs, HOLE;
    OpenPartEnded(open, m, e);
    CompleteAfterRun(m);
    if e > 0 {
      SkippedThenEnded(before, m, Run(m), e);
    } else {
      StaysBroken(open, TagAll(m, true));
      SkippedWhole(before, m, open + TagAll(m, true));
    }
  }

  lemma {:induction false} CompleteAfterRun(m: seq<Segment>)
    ensures var e, j := Complete(m), Run(m);
            && (e > 0 ==> j <= e)
            && (e == 0 ==> j == |m|)
            && Complete(m[j..]) == if e > 0 then e - j else 0
  {
    var e, j := Complete(m), Run(m);
    assert e > 0 ==> j <= e;
    assert e == 0 ==> j == |m|;
    hide Run, Complete;
    CompleteIs(m[j..], if e > 0 then e - j else 0);
  }

  lemma {:induction false} StaysBroken(open: seq<Tagged>, x: seq<Tagged>)
    requires !AllOk(open)
    ensures !AllOk(open + x)
  {
    var i :| 0 <= i < |open| && !open[i].ok;
    assert !(open + x)[i].ok;
  }

  // ----- The invariant of reception -----

  /** The page number the decoder expects after the pages so far; -1 if it has seen none since a reset. */
  function NextPage(delivered: seq<bool>, reset: bool): (n: int)
    ensures -1 <= n <= |delivered|
    ensures n == |delivered| <==> if delivered == [] then !reset else delivered[|delivered| - 1]
    ensures n == -1 <==> reset && forall i :: 0 <= i < |delivered| ==> !delivered[i]
  {
    if |delivered| == 0 then (if reset then -1 else 0)
    else if delivered[|delivered| - 1] then |delivered|
    else NextPage(delivered[..|delivered| - 1], reset)
  }

  /** Would a page arriving next come behind a gap? */
  predicate GapBefore(before: seq<bool>, reset: bool) {
    NextPage(before, reset) != |before| && NextPage(before, reset) != -1
  }

  /** The number of maximal runs of missing pages that a delivered page follows; the run at the very
      beginning does not count after a reset. */
  function GapCount(delivered: seq<bool>, reset: bool): nat {
    if |delivered| == 0 then 0 else
      var n := |delivered| - 1;
      var before := delivered[..n];
      GapCount(before, reset) + if delivered[n] && GapBefore(before, reset) then 1 else 0
  }

  /** What a receiver of the delivered pages is owed, in order: with each page that arrives, a gap if pages are
      missing just before it, then the packets that end on it and of which nothing was lost. */
  function Account(pages: seq<Page>, delivered: seq<bool>, reset: bool): seq<Event>
    requires AllWellFormed(pages) && |delivered| == |pages|
  {
    if |pages| == 0 then [] else
      var n := |pages| - 1;
      var account := Account(pages[..n], delivered[..n], reset);
      if !delivered[n] then account
      else account + (if GapBefore(delivered[..n], reset) then [Gap] else [])
           + Survivors(OpenPart(Tags(pages[..n], delivered[..n])) + TagAll(MarkedSegments(pages[n]), true))
  }

  /** The account holds exactly the surviving packets, in order, and one gap per run of missing pages. */
  lemma {:induction false} AccountCounts(pages: seq<Page>, delivered: seq<bool>, reset: bool)
    requires AllWellFormed(pages) && |delivered| == |pages|
    ensures Packets(Account(pages, delivered, reset)) == Survivors(Tags(pages, delivered))
    ensures Gaps(Account(pages, delivered, reset)) == GapCount(delivered, reset)
  {
    hide Survivors, Packets, Gaps, OpenPart, WellFormed, MarkedSegments, TagAll, GapBefore;
    if pages == [] {
      CountsOfNothing();
    } else {
      var n := |pages| - 1;
      var ts, m := Tags(pages[..n], delivered[..n]), MarkedSegments(pages[n]);
      AccountCounts(pages[..n], delivered[..n], reset);
      if delivered[n] {
        var gap := if GapBefore(delivered[..n], reset) then [Gap] else [];
        var account, ended := Account(pages[..n], delivered[..n], reset), Survivors(OpenPart(ts) + TagAll(m, true));
        SurvivorsExtend(ts, TagAll(m, true));
        SurvivorsArePackets(OpenPart(ts) + TagAll(m, true));
        PacketsAppend(account, gap);
        PacketsAppend(account + gap, ended);
        CountsOfGap();
        GapCounts(delivered, reset);
      } else {
        LostSurvivors(ts, m);
      }
    }
  }

  lemma CountsOfNothing()
    ensures Packets([]) == [] && Gaps([]) == 0 && Survivors([]) == []
  {
  }

  lemma CountsOfGap()
    ensures Packets([Gap]) == [] && Gaps([Gap]) == 1 && Packets([]) == [] && Gaps([]) == 0
  {
    assert [Gap][..0] == [];
  }

  lemma {:induction false} GapCounts(delivered: seq<bool>, reset: bool)
    requires delivered != [] && delivered[|delivered| - 1]
    ensures var before := delivered[..|delivered| - 1];
            GapCount(delivered, reset) == GapCount(before, reset) + if GapBefore(before, reset) then 1 else 0
  {
  }

  /** State `d`, reached after `out` was returned and the delivered ones of `pages` were fed in. */
  ghost predicate Tracks(d: DecState, out: seq<Event>, pages: seq<Page>, delivered: seq<bool>, reset: bool) {
    && AllWellFormed(pages) && |delivered| == |pages|
    && Valid(d)
    && out + Events(d.segs) == Account(pages, delivered, reset)
    && d.pageno == NextPage(delivered, reset)
    && (d.pageno == -1 ==> d.segs == [])
    && (d.pageno == |pages| ==> InStep(d.segs, d.complete, OpenPart(Tags(pages, delivered))))
  }

  lemma {:induction false} TracksValid(d: DecState, out: seq<Event>, pages: seq<Page>, delivered: seq<bool>, reset: bool)
    requires Tracks(d, out, pages, delivered, reset)
    ensures Valid(d)
  {
  }

  lemma InitTracks(serialno: int, reset: bool)
    ensures Tracks(Init(serialno, reset), [], [], [], reset)
  {
  }

  lemma {:induction false} TagsExtend(pages: seq<Page>, delivered: seq<bool>, p: Page, ok: bool)
    requires AllWellFormed(pages) && |delivered| == |pages| && WellFormed(p)
    ensures AllWellFormed(pages + [p])
    ensures Tags(pages + [p], delivered + [ok]) == Tags(pages, delivered) + TagAll(MarkedSegments(p), ok)
    ensures NextPage(delivered + [ok], true) == if ok then |pages| + 1 else NextPage(delivered, true)
    ensures NextPage(delivered + [ok], false) == if ok then |pages| + 1 else NextPage(delivered, false)
  {
    assert (pages + [p])[..|pages|] == pages && (delivered + [ok])[..|pages|] == delivered;
  }

  lemma {:induction false} LostStep(d: DecState, out: seq<Event>, pages: seq<Page>, delivered: seq<bool>, reset: bool, p: Page)
    requires Tracks(d, out, pages, delivered, reset) && WellFormed(p)
    ensures Tracks(d, out, pages + [p], delivered + [false], reset)
  {
    hide WellFormed, Valid, InStep, OpenPart, Tags, MarkedSegments, Survivors, Events;
    TagsExtend(pages, delivered, p, false);
    assert (delivered + [false])[..|pages|] == delivered && (pages + [p])[..|pages|] == pages;
  }

  lemma {:induction false} LostSurvivors(ts: seq<Tagged>, m: seq<Segment>)
    ensures Survivors(ts + TagAll(m, false)) == Survivors(ts)
  {
    var open, x := OpenPart(ts), TagAll(m, false);
    SurvivorsExtend(ts, x);
    NoEndSurvives(open + x);
  }

  // ----- A page arrives -----

  lemma {:induction false} SurvivorsArePackets(ts: seq<Tagged>)
    ensures Packets(Survivors(ts)) == Survivors(ts) && Gaps(Survivors(ts)) == 0
    decreases |ts|
  {
    if ts != [] {
      var n := Run(Segs(ts));
      var rest := ts[n..];
      SurvivorsArePackets(rest);
      PacketsAppend(Survivor(ts[..n]), Survivors(rest));
      OnePacket(ts[..n]);
    }
  }

  lemma {:induction false} OnePacket(run: seq<Tagged>)
    requires run != []
    ensures Packets(Survivor(run)) == Survivor(run) && Gaps(Survivor(run)) == 0
  {
    hide Body, AnyLast, Segs;
    if AllOk(run) {
      var e := PacketOf(Segs(run));
      assert [e][..0] == [];
      assert Packets([e]) == Packets([]) + [e];
    }
  }

  /** The packet in progress is open exactly if the last page says so; if that page was lost, so is the packet. */
  lemma {:induction false} OpenPartMeaning(pages: seq<Page>, delivered: seq<bool>, serialno: int)
    requires InSequence(pages, serialno) && |delivered| == |pages|
    ensures var open := OpenPart(Tags(pages, delivered));
            && (open != [] <==> OpenAfter(pages))
            && (open != [] && !delivered[|pages| - 1] ==> !AllOk(open))
  {
    var ts := Tags(pages, delivered);
    if pages != [] {
      var n := |pages| - 1;
      var p := pages[n];
      assert PageInSequence(pages, n, serialno);
      var m := MarkedSegments(p);
      PageSegmentsSized(p);
      MarkedShape(p);
      var last := ts[|ts| - 1];
      assert last == Tagged(m[|m| - 1], delivered[n]);
      assert Ends(last.seg) <==> !OpenAfter(pages);
      var open := OpenPart(ts);
      hide InSequence, Tags, MarkedSegments, PageSegments;
      assert Segs(ts)[|ts| - 1] == last.seg;
      if open != [] {
        assert open[|open| - 1] == last;
        assert !Ends(Segs(open)[|open| - 1]);
      }
    }
  }

  lemma {:induction false} PreparedMet(d: DecState, open: seq<Tagged>, k: nat)
    requires Valid(d)
    requires d.pageno == k ==> InStep(d.segs, d.complete, open)
    requires d.pageno != k ==> (open != [] ==> !AllOk(open))
    requires d.pageno == -1 ==> d.segs == []
    ensures InStep(Prepared(d, k).0, Prepared(d, k).1, open)
  {
    if d.pageno != k && open == [] {
      var kept := d.segs[..d.complete];
      assert kept[d.complete..] == Segs(open) && (kept + [HOLE])[d.complete + 1..] == Segs(open);
    }
  }

  lemma {:induction false} PreparedEvents(d: DecState, k: nat)
    requires Valid(d)
    ensures Events(Prepared(d, k).0) == Events(d.segs) + if d.pageno != k && d.pageno != -1 then [Gap] else []
  {
    EventsOfComplete(d.segs, d.complete);
    GapEvents(d.segs[..d.complete]);
  }

  lemma {:induction false} GapEvents(kept: seq<Segment>)
    requires Closed(kept)
    ensures Events(kept + [HOLE]) == Events(kept) + [Gap]
  {
    EventsAppend(kept, [HOLE]);
    assert [HOLE][1..] == [];
    assert Events([HOLE]) == [Gap];
  }

  /** A page in sequence is accepted; what it adds depends on whether the packet in progress is there. */
  lemma {:induction false} AddedMeets(before: seq<Segment>, ready: nat, open: seq<Tagged>, p: Page)
    requires WellFormed(p) && InStep(before, ready, open) && NoEnds(Segs(open)) && Plain(open)
    requires Continued(p) <==> open != []
    ensures AllOk(open) ==> Added(before, p) == PageSegments(p)
    ensures !AllOk(open) ==> Added(before, p) == PageSegments(p)[Run(PageSegments(p))..]
  {
    hide WellFormed, Run, PageSegments;
    if AllOk(open) && open != [] {
      assert before[|before| - 1] == Segs(open)[|open| - 1];
    }
  }

  /** What the page leaves behind stands for what was there and what survives of the page. */
  lemma {:induction false} PageEvents(before: seq<Segment>, ready: nat, open: seq<Tagged>, p: Page)
    requires WellFormed(p) && Lens(p) != [] && ValidSegments(before, ready) && InStep(before, ready, open)
    requires NoEnds(Segs(open)) && Plain(open) && (Continued(p) <==> open != [])
    ensures Events(Marked(p, before + Added(before, p))) == Events(before) + Survivors(open + TagAll(MarkedSegments(p), true))
  {
    AddedMeets(before, ready, open, p);
    MarkedShape(p);
    MarkedSame(p);
    var s, m := PageSegments(p), MarkedSegments(p);
    assert s[0..] == s && m[0..] == m;
    hide WellFormed, MarkedSegments, PageSegments, Marked, Events, Survivors, Added;
    if AllOk(open) {
      MarkedAppend(before, p, 0);
      ResumedEvents(before, ready, open, m);
    } else {
      assert before != [] ==> MarkerPlaced(before, |before| - 1);
      MarkedAppend(before, p, Run(s));
      SkippedEvents(before, open, m);
    }
  }

  lemma {:induction false} MarkedInStep(before: seq<Segment>, open: seq<Tagged>, p: Page)
    requires HasHeader(p) && InStep(before, |before|, open) && (Eos(p) ==> AllOk(open))
    ensures InStep(Marked(p, before), |before|, open)
  {
    hide AllOk, Segs;
  }

  /** All that arrived of the page is the rest of a broken packet. */
  lemma {:induction false} WholeSkipped(before: seq<Segment>, open: seq<Tagged>, m: seq<Segment>, p: Page)
    requires HasHeader(p) && Run(m) == |m| && (Eos(p) ==> Complete(m) == |m| > 0)
    requires InStep(before + m[Run(m)..], |before| + Complete(m[Run(m)..]), OpenPart(open + TagAll(m, true)))
    requires NoEnds(Segs(open))
    ensures InStep(Marked(p, before), |before|, OpenPart(open + TagAll(m, true)))
  {
    hide OpenPart, TagAll, Segs, AllOk, HOLE, Run, Complete, NoEnds, Marked, InStep;
    CompleteAfterRun(m);
    SliceAll(m, before);
    if Eos(p) {
      EndedIsOk(open, m);
    }
    MarkedInStep(before, OpenPart(open + TagAll(m, true)), p);
  }

  lemma {:induction false} EndedIsOk(open: seq<Tagged>, m: seq<Segment>)
    requires NoEnds(Segs(open)) && Complete(m) > 0
    ensures AllOk(OpenPart(open + TagAll(m, true)))
  {
    hide OpenPart, NoEnds, Segs, TagAll, Complete, AllOk;
    OpenPartEnded(open, m, Complete(m));
    SegsOfTags(m, true, Complete(m));
  }

  lemma {:induction false} SkippedPageInStep(before: seq<Segment>, open: seq<Tagged>, p: Page)
    requires WellFormed(p) && Lens(p) != [] && (Eos(p) ==> !OpenEnded(p))
    requires (before == [] || before[|before| - 1] == HOLE) && !AllOk(open) && NoEnds(Segs(open))
    ensures var added := PageSegments(p)[Run(PageSegments(p))..];
            InStep(Marked(p, before + added), |before| + Complete(added), OpenPart(open + TagAll(MarkedSegments(p), true)))
  {
    hide WellFormed, MarkedSegments, PageSegments, Complete, OpenPart, TagAll, Segs, AllOk, HOLE, NoEnds, InStep, Marked, Sum,
      Lens, Run, OpenEnded;
    var s, m := PageSegments(p), MarkedSegments(p);
    SkippedSizes(p);
    MarkedSame(p);
    SkippedInStep(before, open, m, Complete(m));
    SkippedMark(before, open, p);
  }

  /** The flag of a page of which only the end of a broken packet arrived. */
  lemma {:induction false} SkippedMark(before: seq<Segment>, open: seq<Tagged>, p: Page)
    requires WellFormed(p)
    requires Eos(p) ==> Complete(MarkedSegments(p)) == |MarkedSegments(p)| > 0
    requires Run(PageSegments(p)) == Run(MarkedSegments(p)) && NoEnds(Segs(open))
    requires Complete(PageSegments(p)[Run(PageSegments(p))..]) == Complete(MarkedSegments(p)[Run(MarkedSegments(p))..])
    requires InStep(before + MarkedSegments(p)[Run(MarkedSegments(p))..],
                    |before| + Complete(MarkedSegments(p)[Run(MarkedSegments(p))..]),
                        OpenPart(open + TagAll(MarkedSegments(p), true)))
    ensures var added := PageSegments(p)[Run(PageSegments(p))..];
            InStep(Marked(p, before + added), |before| + Complete(added), OpenPart(open + TagAll(MarkedSegments(p), true)))
  {
    hide MarkedSegments, PageSegments, Complete, OpenPart, TagAll, Segs, AllOk, HOLE, NoEnds, InStep, Marked, Run, Sum, Lens;
    var s, m := PageSegments(p), MarkedSegments(p);
    if Run(s) < |s| {
      MarkedSplit(before, p, Run(s));
    } else {
      CompleteAfterRun(m);
      WholeSkipped(before, open, m, p);
      SliceAll(s, before);
    }
  }

  /** ... and the packet in progress afterwards is there, or no trace of it. */
  lemma {:induction false} PageInStep(before: seq<Segment>, ready: nat, open: seq<Tagged>, p: Page)
    requires WellFormed(p) && Lens(p) != [] && InStep(before, ready, open) && (Eos(p) ==> !OpenEnded(p))
    requires NoEnds(Segs(open)) && Plain(open) && (Continued(p) <==> open != [])
    ensures var added := Added(before, p);
            InStep(Marked(p, before + added), if Complete(added) > 0 then |before| + Complete(added) else ready,
                   OpenPart(open + TagAll(MarkedSegments(p), true)))
  {
    hide Run, MarkedSegments, PageSegments, Complete, OpenPart, TagAll, Segs, AllOk, HOLE, Added, Marked, NoEnds, Sum, Lens;
    var s, m := PageSegments(p), MarkedSegments(p);
    AddedMeets(before, ready, open, p);
    if AllOk(open) {
      MarkedSame(p);
      SliceAll(s, before);
      SliceAll(m, before);
      MarkedSplit(before, p, 0);
      ResumedInStep(before, ready, open, m, Complete(m));
    } else {
      SkippedPageInStep(before, open, p);
    }
  }

  lemma {:induction false} SkippedSizes(p: Page)
    requires WellFormed(p) && Lens(p) != [] && (Eos(p) ==> !OpenEnded(p))
    ensures var s, m := PageSegments(p), MarkedSegments(p);
            && Complete(s[Run(s)..]) == Complete(m[Run(m)..])
            && (Eos(p) ==> Complete(m) == |m|)
  {
    var s, m := PageSegments(p), MarkedSegments(p);
    MarkedSame(p);
    CompleteAfterRun(s);
    CompleteAfterRun(m);
    PageSegmentsSized(p);
    MarkedShape(p);
    if Eos(p) {
      assert Ends(m[|m| - 1]);
    }
  }

  lemma {:induction false} TagsPlain(pages: seq<Page>, delivered: seq<bool>)
    requires AllWellFormed(pages) && |delivered| == |pages|
    ensures Plain(Tags(pages, delivered)) && Plain(OpenPart(Tags(pages, delivered)))
  {
    assert Plain([]);
    hide WellFormed, Plain, MarkedSegments, OpenPart;
    if pages != [] {
      var n := |pages| - 1;
      TagsPlain(pages[..n], delivered[..n]);
      PageTagsPlain(pages[n], delivered[n]);
      PlainAppend(Tags(pages[..n], delivered[..n]), TagAll(MarkedSegments(pages[n]), delivered[n]));
    }
    PlainOpen(Tags(pages, delivered));
  }

  lemma {:induction false} PageTagsPlain(p: Page, ok: bool)
    requires WellFormed(p)
    ensures Plain(TagAll(MarkedSegments(p), ok))
  {
    hide WellFormed, Lens;
  }

  lemma {:induction false} PlainAppend(a: seq<Tagged>, b: seq<Tagged>)
    requires Plain(a) && Plain(b)
    ensures Plain(a + b)
  {
  }

  lemma {:induction false} PlainOpen(ts: seq<Tagged>)
    requires Plain(ts)
    ensures Plain(OpenPart(ts))
  {
  }

  lemma {:induction false} LastInSequence(pages: seq<Page>, p: Page, serialno: int)
    requires InSequence(pages + [p], serialno) && |pages| < TWO31
    ensures WellFormed(p) && InSequence(pages, serialno)
    ensures Version(p) == 0 && Serialno(p) == serialno && Pageno(p) == |pages| && Lens(p) != []
    ensures Continued(p) == OpenAfter(pages) && (Eos(p) ==> !OpenEnded(p))
  {
    var all := pages + [p];
    assert all[..|pages|] == pages;
    InSequencePrefix(all, serialno, |pages|);
    assert PageInSequence(all, |pages|, serialno);
    assert all[|pages|] == p;
  }

  lemma {:induction false} PageInResult(d: DecState, p: Page)
    requires WellFormed(p) && d.complete <= |d.segs| && Serialno(p) == d.serialno && Version(p) == 0
    ensures var (before, ready) := Prepared(d, Pageno(p));
            var (added, (d', status)) := (Added(before, p), PageIn(d, p));
            && d'.segs == Marked(p, before + added)
            && d'.complete == (if Complete(added) > 0 then |before| + Complete(added) else ready)
            && d'.pageno == Pageno(p) + 1 && d'.serialno == d.serialno && status == 0
  {
    hide Prepared, Added, Pageno, Serialno, Version, Lens, Sum, MarkLast, Complete;
  }

  /** What page `p` adds to the account. */
  lemma {:induction false} AccountExtend(pages: seq<Page>, delivered: seq<bool>, reset: bool, p: Page)
    requires AllWellFormed(pages) && |delivered| == |pages| && WellFormed(p)
    ensures AllWellFormed(pages + [p])
    ensures Account(pages + [p], delivered + [true], reset)
            == Account(pages, delivered, reset) + (if GapBefore(delivered, reset) then [Gap] else [])
               + Survivors(OpenPart(Tags(pages, delivered)) + TagAll(MarkedSegments(p), true))
  {
    hide WellFormed, Survivors, OpenPart, Tags, TagAll, MarkedSegments, GapBefore;
    assert (pages + [p])[..|pages|] == pages && (delivered + [true])[..|pages|] == delivered;
  }

  lemma {:induction false} EventsGrow(out: seq<Event>, held: seq<Event>, gap: seq<Event>, more: seq<Event>)
    ensures out + (held + gap + more) == out + held + gap + more
  {
  }

  /** Feeding the next page in sequence keeps the invariant. */
  lemma {:induction false} DeliveredStep(d: DecState, out: seq<Event>, pages: seq<Page>, delivered: seq<bool>,
                                         reset: bool, p: Page)
    requires Tracks(d, out, pages, delivered, reset)
    requires InSequence(pages + [p], d.serialno) && |pages| < TWO31
    ensures WellFormed(p)
    ensures PageIn(d, p).1 == 0 && Tracks(PageIn(d, p).0, out, pages + [p], delivered + [true], reset)
  {
    hide AllWellFormed, WellFormed, HasHeader, Account;
    hide InSequence, Lens, Sum, Version, Serialno, Pageno, Continued, Eos, OpenEnded, Valid, ValidSegments;
    hide PageIn, Prepared, Added, Marked, MarkedSegments, Complete, OpenPart, Tags, TagAll, Segs, AllOk, NoEnds, Plain;
    hide Events, Survivors, InStep, NextPage;
    LastInSequence(pages, p, d.serialno);
    ValidFacts(d);
    var k := |pages|;
    var ts, m := Tags(pages, delivered), MarkedSegments(p);
    var open, x := OpenPart(ts), TagAll(m, true);
    var (before, ready) := Prepared(d, k);
    OpenPartMeaning(pages, delivered, d.serialno);
    TagsPlain(pages, delivered);
    PreparedValid(d, k);
    PreparedMet(d, open, k);
    PreparedEvents(d, k);
    PageEvents(before, ready, open, p);
    PageInStep(before, ready, open, p);
    PageInValid(d, p);
    PageInResult(d, p);
    EventsGrow(out, Events(d.segs), if GapBefore(delivered, reset) then [Gap] else [], Survivors(open + x));
    TagsExtend(pages, delivered, p, true);
    AccountExtend(pages, delivered, reset, p);
    OpenPartExtend(ts, x);
  }

  lemma {:induction false} ValidFacts(d: DecState)
    requires Valid(d)
    ensures d.complete <= |d.segs| && ValidSegments(d.segs, d.complete)
  {
  }

  lemma {:induction false} OpenPartIs(done: seq<Tagged>, open: seq<Tagged>)
    requires Closed(Segs(done)) && NoEnds(Segs(open))
    ensures OpenPart(done + open) == open
  {
    var ts, n := done + open, |done|;
    SegsAppend(done, open);
    assert forall i :: n <= i < |ts| ==> Segs(ts)[i] == Segs(open)[i - n];
    CompleteIs(Segs(ts), n);
    DropAppend(done, open, 0);
  }

  lemma {:induction false} SplitAtOpen(ts: seq<Tagged>) returns (done: seq<Tagged>)
    ensures Closed(Segs(done)) && ts == done + OpenPart(ts)
  {
    var c := Complete(Segs(ts));
    done := ts[..c];
    SegsSlice(ts, c);
    SliceJoin(ts, c);
  }

  lemma {:induction false} ClosedAppend(a: seq<Tagged>, b: seq<Tagged>)
    requires Closed(Segs(a)) && Closed(Segs(b))
    ensures Closed(Segs(a + b))
  {
    SegsAppend(a, b);
  }

  /** What is open after more segments depends only on what was open before them. */
  lemma {:induction false} OpenPartExtend(ts: seq<Tagged>, x: seq<Tagged>)
    ensures OpenPart(ts + x) == OpenPart(OpenPart(ts) + x)
  {
    hide OpenPart, NoEnds, Segs, Closed;
    var open := OpenPart(ts);
    var done := SplitAtOpen(ts);
    var done' := SplitAtOpen(open + x);
    var open' := OpenPart(open + x);
    Assoc(done, open, x);
    Assoc(done, done', open');
    ClosedAppend(done, done');
    OpenPartIs(done + done', open');
  }
}
