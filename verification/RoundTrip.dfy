/** What a decoder returns for all the pages of an encoder run: data, flags and granule positions. */
module RoundTrip {
  import opened Bytes
  import opened OggPage
  import opened Segments
  import opened Framing
  import opened Encoder
  import opened EncoderRuns
  import D = Decoder
  import opened Delivery
  import opened Loss
  import opened Reception
  import opened LastFlags

  // ----- The segments of all pages together -----

  function AllArrive(n: nat): (s: seq<bool>)
    ensures |s| == n && forall i :: 0 <= i < n ==> s[i]
  {
    seq(n, _ => true)
  }

  function Stream(pages: seq<Page>): seq<Segment>
    requires AllWellFormed(pages)
  {
    Segs(Tags(pages, AllArrive(|pages|)))
  }

  lemma {:induction false} StreamExtend(pages: seq<Page>)
    requires AllWellFormed(pages) && pages != []
    ensures var n := |pages| - 1;
            Stream(pages) == Stream(pages[..n]) + MarkedSegments(pages[n])
  {
    hide WellFormed, MarkedSegments;
    var n := |pages| - 1;
    var all := AllArrive(|pages|);
    assert all[..n] == AllArrive(n);
    SegsAppend(Tags(pages[..n], all[..n]), TagAll(MarkedSegments(pages[n]), true));
    SegsOfTags(MarkedSegments(pages[n]), true, 0);
  }

  lemma {:induction false} StreamSurvives(pages: seq<Page>)
    requires AllWellFormed(pages)
    ensures Survivors(Tags(pages, AllArrive(|pages|))) == Events(Stream(pages))
    ensures Datas(Stream(pages)) == PagesChunks(pages)
  {
    hide WellFormed, Events, Survivors, Segs, Datas, PagesChunks;
    TagsDatas(pages, AllArrive(|pages|));
    TagsPlain(pages, AllArrive(|pages|));
    TagsOk(pages);
    AllSurvive(Tags(pages, AllArrive(|pages|)));
  }

  lemma {:induction false} TagsOk(pages: seq<Page>)
    requires AllWellFormed(pages)
    ensures AllOk(Tags(pages, AllArrive(|pages|)))
  {
    hide WellFormed, MarkedSegments;
    if pages != [] {
      var n := |pages| - 1;
      TagsOk(pages[..n]);
      assert AllArrive(|pages|)[..n] == AllArrive(n);
    }
  }

  /** The first segment alone is flagged as the stream's first. */
  lemma {:induction false} StreamFirst(pages: seq<Page>, serialno: int)
    requires InSequence(pages, serialno)
    ensures forall j :: 0 <= j < |Stream(pages)| ==> Stream(pages)[j].first == (j == 0)
    ensures pages != [] ==> Stream(pages) != []
  {
    if pages != [] {
      var n := |pages| - 1;
      assert PageInSequence(pages, n, serialno);
      InSequencePrefix(pages, serialno, n);
      hide PageInSequence, Stream, Lens;
      StreamFirst(pages[..n], serialno);
      StreamExtend(pages);
      MarkedFlags(pages[n]);
    }
  }

  lemma {:induction false} MarkedFlags(p: Page)
    requires WellFormed(p)
    ensures var m := MarkedSegments(p);
            && (forall i :: 0 <= i < |m| ==> m[i].first == (i == 0 && Bos(p)))
            && (forall i :: 0 <= i < |m| ==> m[i].last == (i == |m| - 1 && Eos(p)))
            && (forall i :: 0 <= i < |m| ==>
                  m[i].granulepos == D.PageSegments(p)[i].granulepos && m[i].data == D.PageSegments(p)[i].data)
  {
  }

  /** Only segments that end a packet are flagged as the stream's last. */
  lemma {:induction false} StreamLast(pages: seq<Page>, serialno: int)
    requires InSequence(pages, serialno)
    ensures forall j :: 0 <= j < |Stream(pages)| && Stream(pages)[j].last ==> Ends(Stream(pages)[j])
  {
    if pages != [] {
      var n := |pages| - 1;
      assert PageInSequence(pages, n, serialno);
      InSequencePrefix(pages, serialno, n);
      hide PageInSequence, Stream, Eos, Lens;
      StreamLast(pages[..n], serialno);
      StreamExtend(pages);
      MarkedFlags(pages[n]);
      MarkedEnds(pages[n]);
    }
  }

  lemma {:induction false} MarkedEnds(p: Page)
    requires WellFormed(p) && (Eos(p) ==> !OpenEnded(p))
    ensures forall i :: 0 <= i < |MarkedSegments(p)| && MarkedSegments(p)[i].last ==> Ends(MarkedSegments(p)[i])
  {
    MarkedFlags(p);
    D.PageSegmentsSized(p);
    hide MarkedSegments, Eos, D.PageSegments;
  }

  /** The end-of-stream flags of the packets that end among the segments. */
  function EndLasts(segs: seq<Segment>): seq<bool> {
    if |segs| == 0 then []
    else EndLasts(segs[..|segs| - 1]) + if Ends(segs[|segs| - 1]) then [segs[|segs| - 1].last] else []
  }

  lemma {:induction false} EndLastsAppend(a: seq<Segment>, b: seq<Segment>)
    ensures EndLasts(a + b) == EndLasts(a) + EndLasts(b)
  {
    if b == [] {
      assert a + b == a;
    } else {
      EndLastsAppend(a, b[..|b| - 1]);
      assert (a + b)[..|a + b| - 1] == a + b[..|b| - 1];
    }
  }

  /** Segments of which none is flagged. */
  lemma {:induction false} NoneFlagged(segs: seq<Segment>)
    requires forall i :: 0 <= i < |segs| ==> !segs[i].last
    ensures EndLasts(segs) == Unflagged(PacketsDone(segs))
  {
    if segs != [] {
      NoneFlagged(segs[..|segs| - 1]);
    }
  }

  lemma {:induction false} MarkedLasts(p: Page)
    requires WellFormed(p) && Lens(p) != [] && (Eos(p) ==> !OpenEnded(p))
    ensures EndLasts(MarkedSegments(p)) == PageLasts(p)
  {
    hide MarkedSegments, Eos, Ended, PacketsDone;
    MarkedFlags(p);
    D.PageSegmentsSized(p);
    var m, n := MarkedSegments(p), |MarkedSegments(p)| - 1;
    MarkedDone(p);
    NoneFlagged(m[..n]);
    DoneNext(m, n);
  }

  lemma {:induction false} MarkedDone(p: Page)
    requires WellFormed(p)
    ensures PacketsDone(MarkedSegments(p)) == Ended(Lens(p))
  {
    hide Sum, MarkedSegments, EndGranules, PageGranules, Granulepos, Lens;
    MarkedGranules(p);
    assert |EndGranules(MarkedSegments(p))| == |PageGranules(Lens(p), Granulepos(p))|;
    PageGranulesCount(Lens(p), Granulepos(p));
  }

  lemma {:induction false} PageGranulesCount(lens: seq<byte>, granulepos: int)
    ensures |PageGranules(lens, granulepos)| == Ended(lens)
  {
  }

  lemma {:induction false} DoneNext(m: seq<Segment>, n: nat)
    requires |m| == n + 1
    ensures PacketsDone(m) == PacketsDone(m[..n]) + if Ends(m[n]) then 1 else 0
    ensures EndLasts(m) == EndLasts(m[..n]) + if Ends(m[n]) then [m[n].last] else []
  {
  }

  lemma {:induction false} StreamLasts(pages: seq<Page>, serialno: int)
    requires InSequence(pages, serialno)
    ensures EndLasts(Stream(pages)) == LastsSeen(pages)
  {
    if pages == [] {
      NoStream();
    } else {
      var n := |pages| - 1;
      assert PageInSequence(pages, n, serialno);
      InSequencePrefix(pages, serialno, n);
      hide PageInSequence, Stream, WellFormed, MarkedSegments, EndLasts, PageLasts, Lens, Eos, OpenEnded;
      StreamLasts(pages[..n], serialno);
      StreamExtend(pages);
      EndLastsAppend(Stream(pages[..n]), MarkedSegments(pages[n]));
      MarkedLasts(pages[n]);
    }
  }

  // ----- Granule positions -----

  /** The granule positions a page gives to the packets that end on it: all but the last get none (-1). */
  function PageGranules(lens: seq<byte>, granulepos: int): seq<int> {
    if Ended(lens) == 0 then [] else seq(Ended(lens) - 1, _ => -1) + [granulepos]
  }

  lemma {:induction false} NoneEnded(lens: seq<byte>)
    requires forall i :: 0 <= i < |lens| ==> lens[i] == 255
    ensures Ended(lens) == 0
  {
    if lens != [] {
      NoneEnded(lens[..|lens| - 1]);
    }
  }

  lemma {:induction false} EndGranulesNext(m: seq<Segment>, i: nat)
    requires i < |m|
    ensures EndGranules(m[..i + 1]) == EndGranules(m[..i]) + if |m[i].data| < 255 then [m[i].granulepos] else []
  {
    hide EndGranule, PacketsDone;
    assert m[..i + 1][..i] == m[..i];
  }

  lemma {:induction false} EndedNext(lens: seq<byte>, i: nat)
    requires i < |lens|
    ensures Ended(lens[..i + 1]) == Ended(lens[..i]) + if lens[i] < 255 then 1 else 0
  {
    assert lens[..i + 1][..i] == lens[..i];
  }

  lemma {:induction false} NoneYet(m: seq<Segment>, lens: seq<byte>)
    ensures EndGranules(m[..0]) == [] && Ended(lens[..0]) == 0
  {
  }

  /** A prefix of the page's segments, before and after its last packet's end. */
  lemma {:induction false} PrefixGranules(m: seq<Segment>, lens: seq<byte>, granulepos: int, i: nat)
    requires |m| == |lens| && i <= |m|
    requires forall j :: 0 <= j < |m| ==> |m[j].data| == lens[j]
    requires forall j :: 0 <= j < |m| ==> m[j].granulepos == if j == D.LastEnd(lens) - 1 then granulepos else -1
    ensures EndGranules(m[..i])
            == if i < D.LastEnd(lens) then seq(Ended(lens[..i]), _ => -1) else PageGranules(lens[..i], granulepos)
  {
    hide D.LastEnd, EndGranules, Ended;
    if i == 0 {
      NoneYet(m, lens);
    } else {
      PrefixGranules(m, lens, granulepos, i - 1);
      EndGranulesNext(m, i - 1);
      EndedNext(lens, i - 1);
      OneMore(Ended(lens[..i - 1]));
    }
  }

  lemma OneMore(n: nat)
    ensures seq(n + 1, _ => -1) == seq(n, _ => -1) + [-1]
  {
  }

  lemma {:induction false} MarkedGranules(p: Page)
    requires WellFormed(p)
    ensures EndGranules(MarkedSegments(p)) == PageGranules(Lens(p), Granulepos(p))
  {
    MarkedFlags(p);
    D.PageSegmentsSized(p);
    hide WellFormed, MarkedSegments, Granulepos, D.LastEnd, EndGranules, PageGranules, D.PageSegments;
    var m := MarkedSegments(p);
    PrefixGranules(m, Lens(p), Granulepos(p), |m|);
    SliceAll(m, []);
    assert m[..|m|] == m && Lens(p)[..|m|] == Lens(p);
  }

  /** The granule positions the packets arrive with: the last to end on a page brings its own, or 0 on
      the first page; the others bring -1. */
  function GranulesSeen(pages: seq<Page>, packets: seq<Packet>): seq<int>
    requires AllWellFormed(pages)
  {
    if |pages| == 0 then [] else
      var n := |pages| - 1;
      var done := PagesEnded(pages);
      GranulesSeen(pages[..n], packets)
        + PageGranules(Lens(pages[n]), if n == 0 || done == 0 || done > |packets| then 0 else packets[done - 1].granulepos)
  }

  lemma {:induction false} StreamGranules(pages: seq<Page>, packets: seq<Packet>)
    requires AllWellFormed(pages) && forall k :: 0 <= k < |pages| ==> PageGranule(pages, k, packets)
    ensures EndGranules(Stream(pages)) == GranulesSeen(pages, packets)
  {
    hide WellFormed, Stream, MarkedSegments, EndGranules, Lens, Granulepos, PagesEnded, GranulesSeen, PageGranule,
      PageGranules;
    if pages == [] {
      NoGranules(packets);
    } else {
      var n := |pages| - 1;
      PageGranulePrefix(pages, packets, n);
      StreamGranules(pages[..n], packets);
      StreamExtend(pages);
      EndGranulesAppend(Stream(pages[..n]), MarkedSegments(pages[n]));
      MarkedGranules(pages[n]);
      GranulesSeenNext(pages, packets);
    }
  }

  lemma {:induction false} NoGranules(packets: seq<Packet>)
    ensures AllWellFormed([]) && EndGranules(Stream([])) == GranulesSeen([], packets) == []
  {
  }

  /** What the last page adds. */
  lemma {:induction false} GranulesSeenNext(pages: seq<Page>, packets: seq<Packet>)
    requires AllWellFormed(pages) && pages != [] && PageGranule(pages, |pages| - 1, packets)
    ensures var n := |pages| - 1;
            GranulesSeen(pages, packets) == GranulesSeen(pages[..n], packets) + PageGranules(Lens(pages[n]), Granulepos(pages[n]))
  {
    hide WellFormed, Lens, Granulepos, PagesEnded, Ended, GranulesSeen;
    var n := |pages| - 1;
    assert pages[..n + 1] == pages;
    GranulesSeenStep(pages, packets);
  }

  lemma {:induction false} GranulesSeenStep(pages: seq<Page>, packets: seq<Packet>)
    requires AllWellFormed(pages) && pages != []
    ensures var n, done := |pages| - 1, PagesEnded(pages);
            GranulesSeen(pages, packets)
            == GranulesSeen(pages[..n], packets)
               + PageGranules(Lens(pages[n]), if n == 0 || done == 0 || done > |packets| then 0 else packets[done - 1].granulepos)
  {
    hide WellFormed, Lens, PagesEnded, Ended, PageGranules;
  }

  lemma {:induction false} PageGranulePrefix(pages: seq<Page>, packets: seq<Packet>, n: nat)
    requires AllWellFormed(pages) && n <= |pages| && forall k :: 0 <= k < |pages| ==> PageGranule(pages, k, packets)
    ensures forall k :: 0 <= k < n ==> PageGranule(pages[..n], k, packets)
  {
    hide WellFormed, Lens, Granulepos, PagesEnded;
    forall k | 0 <= k < n
      ensures PageGranule(pages[..n], k, packets)
    {
      assert PageGranule(pages, k, packets);
      assert pages[..n][..k] == pages[..k] && pages[..n][..k + 1] == pages[..k + 1];
    }
  }

  // ----- The events -----

  /** The packets, the first flagged as the stream's first if `first`, each with its flag as the stream's last. */
  function Returned(packets: seq<Packet>, first: bool, lasts: seq<bool>, granules: seq<int>): (r: seq<D.Event>)
    requires |granules| == |lasts| == |packets|
    ensures |r| == |packets|
    ensures forall i :: 0 <= i < |packets| ==> r[i] == D.Got(packets[i].data, first && i == 0, lasts[i], granules[i])
  {
    seq(|packets|, i requires 0 <= i < |packets| => D.Got(packets[i].data, first && i == 0, lasts[i], granules[i]))
  }

  lemma {:induction false} PacketSegmentsRun(segs: seq<Segment>, data: seq<byte>)
    requires Datas(segs) == Chunks(data)
    ensures segs != [] && Run(segs) == |segs| && Closed(segs) && Body(segs) == data
    ensures EndGranules(segs) == [segs[|segs| - 1].granulepos] && EndLasts(segs) == [segs[|segs| - 1].last]
    ensures forall i :: 0 <= i < |segs| - 1 ==> !Ends(segs[i])
  {
    SegsOfTags(segs, true, 0);
    PacketRun(TagAll(segs, true), data);
    var n := |segs| - 1;
    assert forall i :: 0 <= i < n ==> !Ends(segs[i]);
    NoEndGranules(segs[..n]);
    NoEndLasts(segs[..n]);
  }

  lemma {:induction false} NoEndLasts(segs: seq<Segment>)
    requires forall i :: 0 <= i < |segs| ==> !Ends(segs[i])
    ensures EndLasts(segs) == []
  {
    if segs != [] {
      NoEndLasts(segs[..|segs| - 1]);
    }
  }

  lemma {:induction false} OneRunEvents(segs: seq<Segment>, data: seq<byte>)
    requires Datas(segs) == Chunks(data) && forall i :: 0 <= i < |segs| ==> !segs[i].hole
    ensures segs != []
    ensures Events(segs) == [D.Got(data, segs[0].first, D.AnyLast(segs), segs[|segs| - 1].granulepos)]
  {
    PacketSegmentsRun(segs, data);
    assert segs[..|segs|] == segs && segs[|segs|..] == [];
  }

  /** The first segment alone is flagged as the stream's first, if any is, and only packet ends as its last. */
  ghost predicate Flagged(segs: seq<Segment>, first: bool) {
    && (forall i :: 0 <= i < |segs| ==> !segs[i].hole)
    && (forall i :: 0 <= i < |segs| ==> segs[i].first == (first && i == 0))
    && (forall i :: 0 <= i < |segs| && segs[i].last ==> Ends(segs[i]))
  }

  lemma {:induction false} FlaggedSplit(segs: seq<Segment>, n: nat, first: bool)
    requires Flagged(segs, first) && 0 < n <= |segs| && forall i :: 0 <= i < n - 1 ==> !Ends(segs[..n][i])
    ensures segs[0].first == first && D.AnyLast(segs[..n]) == segs[n - 1].last
    ensures Flagged(segs[n..], false)
    ensures forall i :: 0 <= i < n ==> !segs[..n][i].hole
  {
    hide Ends;
    if segs[n - 1].last {
      assert segs[..n][n - 1].last;
    }
    if D.AnyLast(segs[..n]) {
      var i :| 0 <= i < n && segs[..n][i].last;
      assert segs[i].last && Ends(segs[i]);
    }
  }

  lemma {:induction false} FrontSegments(segs: seq<Segment>, packets: seq<Packet>)
    requires packets != [] && Datas(segs) == AllChunks(packets)
    ensures var n := SegmentCount(packets[0]);
            && n <= |segs|
            && Datas(segs[..n]) == Chunks(packets[0].data)
            && Datas(segs[n..]) == AllChunks(packets[1..])
            && (n == |segs| <==> |packets| == 1)
  {
    var p, rest := packets[0], packets[1..];
    SliceJoin(packets, 1);
    assert packets[..1] == [p];
    AllChunksFront(p, rest);
    SplitDatas(segs, Chunks(p.data), AllChunks(rest));
    assert rest != [] ==> AllChunks(rest) != [];
  }

  lemma {:induction false} ReturnedFront(packets: seq<Packet>, first: bool, last: bool, lasts: seq<bool>, g: int,
                                         granules: seq<int>)
    requires packets != [] && |granules| == |lasts| == |packets| - 1
    ensures Returned(packets, first, [last] + lasts, [g] + granules)
            == [D.Got(packets[0].data, first, last, g)] + Returned(packets[1..], false, lasts, granules)
  {
    hide Returned;
    var r, rest := Returned(packets, first, [last] + lasts, [g] + granules), Returned(packets[1..], false, lasts, granules);
    forall i | 0 <= i < |rest|
      ensures r[1..][i] == rest[i]
    {
      ReturnedAt(packets, first, [last] + lasts, [g] + granules, i + 1);
      ReturnedAt(packets[1..], false, lasts, granules, i);
    }
    ReturnedAt(packets, first, [last] + lasts, [g] + granules, 0);
    assert r[1..] == rest;
    SliceJoin(r, 1);
    assert r[..1] == [r[0]];
  }

  lemma {:induction false} ReturnedAt(packets: seq<Packet>, first: bool, lasts: seq<bool>, granules: seq<int>, i: nat)
    requires |granules| == |lasts| == |packets| && i < |packets|
    ensures Returned(packets, first, lasts, granules)[i] == D.Got(packets[i].data, first && i == 0, lasts[i], granules[i])
  {
    hide Returned;
  }

  lemma {:induction false} FrontEvent(segs: seq<Segment>, n: nat, p: Packet, first: bool)
    requires 0 < n <= |segs| && Datas(segs[..n]) == Chunks(p.data) && Flagged(segs, first)
    ensures Events(segs) == [D.Got(p.data, first, segs[n - 1].last, segs[n - 1].granulepos)] + Events(segs[n..])
    ensures EndGranules(segs) == [segs[n - 1].granulepos] + EndGranules(segs[n..])
    ensures EndLasts(segs) == [segs[n - 1].last] + EndLasts(segs[n..])
    ensures Flagged(segs[n..], false)
  {
    hide Datas, Chunks, Flagged, Events, EndGranules, EndLasts, D.AnyLast;
    PacketSegmentsRun(segs[..n], p.data);
    FlaggedSplit(segs, n, first);
    SliceJoin(segs, n);
    OneRunEvents(segs[..n], p.data);
    EventsAppend(segs[..n], segs[n..]);
    EndGranulesAppend(segs[..n], segs[n..]);
    EndLastsAppend(segs[..n], segs[n..]);
  }

  lemma {:induction false} NoSegments(segs: seq<Segment>, first: bool)
    requires Datas(segs) == AllChunks([])
    ensures EndGranules(segs) == [] && EndLasts(segs) == [] && Events(segs) == Returned([], first, [], [])
  {
    assert segs == [];
  }

  /** Grouping segments that carry the packets' data gives the packets, with the segments' flags. */
  lemma {:induction false} EventsAre(segs: seq<Segment>, packets: seq<Packet>, first: bool)
    requires Datas(segs) == AllChunks(packets) && Flagged(segs, first)
    ensures |EndGranules(segs)| == |EndLasts(segs)| == |packets|
    ensures Events(segs) == Returned(packets, first, EndLasts(segs), EndGranules(segs))
    decreases |packets|
  {
    hide Datas, AllChunks, Chunks, Flagged, Events, Returned, EndGranules, EndLasts;
    if packets == [] {
      NoSegments(segs, first);
    } else {
      FrontSegments(segs, packets);
      var n := SegmentCount(packets[0]);
      FrontEvent(segs, n, packets[0], first);
      EventsAre(segs[n..], packets[1..], false);
      ReturnedFront(packets, first, segs[n - 1].last, EndLasts(segs[n..]), segs[n - 1].granulepos, EndGranules(segs[n..]));
    }
  }

  /** With every page of a fully flushed run, the decoder's packets are the packets submitted: same data, same order,
      the first flagged as first, the others as their pages say. */
  lemma {:induction false} RunReturns(serialno: int, reset: bool, ops: seq<Op>)
    requires Encodable(Submitted(ops)) && Int32(serialno)
    requires Encoded(serialno, reset, ops).0.segs == []
    ensures var packets, pages := Submitted(ops), Encoded(serialno, reset, ops).1;
            && |GranulesSeen(pages, packets)| == |LastsSeen(pages)| == |packets|
            && Survivors(Tags(pages, AllArrive(|pages|)))
               == Returned(packets, true, LastsSeen(pages), GranulesSeen(pages, packets))
  {
    hide Execute, Submitted, Tags, Stream, Survivors, Events, Returned, GranulesSeen, LastsSeen, EndGranules, EndLasts,
      InSequence, Conserved, GranulesKept, PagesShaped, Pending, WellFormed, Flagged, Datas, AllChunks;
    var packets := Submitted(ops);
    var (e, pages) := Encoded(serialno, reset, ops);
    StreamGranules(pages, packets) by {
      GranulesOfPages(e.segs, pages, packets);
    }
    StreamLasts(pages, serialno);
    StreamSurvives(pages);
    StreamFlagged(pages, serialno);
    AllSent(pages, packets, e);
    EventsAre(Stream(pages), packets, true);
  }

  lemma {:induction false} GranulesOfPages(segs: seq<Segment>, pages: seq<Page>, packets: seq<Packet>)
    requires GranulesKept(segs, pages, packets)
    ensures AllWellFormed(pages) && forall k :: 0 <= k < |pages| ==> PageGranule(pages, k, packets)
  {
  }

  lemma {:induction false} AllSent(pages: seq<Page>, packets: seq<Packet>, e: EncState)
    requires e.segs == [] && Conserved(e.segs, pages, packets)
    ensures AllWellFormed(pages) && PagesChunks(pages) == AllChunks(packets)
  {
    hide PagesChunks, AllChunks, WellFormed;
    assert PagesChunks(pages) + [] == PagesChunks(pages);
  }

  lemma {:induction false} StreamFlagged(pages: seq<Page>, serialno: int)
    requires InSequence(pages, serialno)
    ensures Flagged(Stream(pages), true)
  {
    hide Stream, WellFormed, PageInSequence, Ends;
    StreamFirst(pages, serialno);
    StreamLast(pages, serialno);
    StreamPlain(pages);
  }

  // ----- With losses -----

  /** Pending segments as pages would carry them: flagged only if they begin the stream. */
  function Unsent(segs: seq<Segment>, first: bool): (s: seq<Segment>)
    ensures |s| == |segs|
    ensures forall i :: 0 <= i < |s| ==> s[i] == Segment(segs[i].data, first && i == 0, false, false, segs[i].granulepos)
  {
    seq(|segs|, i requires 0 <= i < |segs| => Segment(segs[i].data, first && i == 0, false, false, segs[i].granulepos))
  }

  lemma {:induction false} UnsentGranules(segs: seq<Segment>, first: bool)
    ensures Datas(Unsent(segs, first)) == Datas(segs)
    ensures EndGranules(Unsent(segs, first)) == EndGranules(segs)
  {
    assert Datas(Unsent(segs, first)) == Datas(segs);
    SameEndGranules(Unsent(segs, first), segs);
  }

  lemma {:induction false} SameEndGranules(a: seq<Segment>, b: seq<Segment>)
    requires |a| == |b| && forall i :: 0 <= i < |a| ==> a[i].data == b[i].data && a[i].granulepos == b[i].granulepos
    ensures EndGranules(a) == EndGranules(b)
  {
    if a != [] {
      SameEndGranules(a[..|a| - 1], b[..|b| - 1]);
    }
  }

  /** Which pages arrive does not change what is on them. */
  lemma {:induction false} SegsOfPages(pages: seq<Page>, delivered: seq<bool>)
    requires AllWellFormed(pages) && |delivered| == |pages|
    ensures Segs(Tags(pages, delivered)) == Stream(pages)
  {
    hide WellFormed, MarkedSegments, TagAll, Stream;
    if pages == [] {
      assert Stream([]) == [] by { NoStream(); }
    } else {
      var n := |pages| - 1;
      SegsOfPages(pages[..n], delivered[..n]);
      StreamExtend(pages);
      SegsAppend(Tags(pages[..n], delivered[..n]), TagAll(MarkedSegments(pages[n]), delivered[n]));
      SegsOfTags(MarkedSegments(pages[n]), delivered[n], 0);
    }
  }

  lemma NoStream()
    ensures Stream([]) == []
  {
  }

  lemma {:induction false} SentAndUnsentFlagged(e: EncState, pages: seq<Page>, serialno: int)
    requires InSequence(pages, serialno)
    ensures Flagged(Stream(pages) + Unsent(e.segs, pages == []), true)
  {
    hide Stream, PageInSequence, WellFormed, Ends;
    var s, x := Stream(pages), Unsent(e.segs, pages == []);
    StreamFlagged(pages, serialno);
    StreamFirst(pages, serialno);
    if pages == [] {
      NoStream();
    }
  }

  lemma {:induction false} StreamPlain(pages: seq<Page>)
    requires AllWellFormed(pages)
    ensures forall i :: 0 <= i < |Stream(pages)| ==> !Stream(pages)[i].hole
  {
    hide WellFormed, Tags;
    TagsPlain(pages, AllArrive(|pages|));
    forall i | 0 <= i < |Stream(pages)|
      ensures !Stream(pages)[i].hole
    {
      assert Stream(pages)[i] == Tags(pages, AllArrive(|pages|))[i].seg;
    }
  }

  /** The granule positions packets come with, or would come with if they were not pending. */
  function GranulesDue(e: EncState, pages: seq<Page>, packets: seq<Packet>): seq<int>
    requires AllWellFormed(pages)
  {
    GranulesSeen(pages, packets) + EndGranules(e.segs)
  }

  /** The end-of-stream flags they come with; pending packets may still get one, and have none yet. */
  function LastsDue(e: EncState, pages: seq<Page>): seq<bool>
    requires AllWellFormed(pages)
  {
    LastsSeen(pages) + Unflagged(PacketsDone(e.segs))
  }

  /** The fates of an encoder's packets: segments still pending are on no page. */
  function PacketsArrived(e: EncState, pages: seq<Page>, packets: seq<Packet>, delivered: seq<bool>): (f: seq<bool>)
    requires AllWellFormed(pages) && |delivered| == |pages|
    ensures |f| == |packets|
  {
    PacketFates(packets, SegmentFates(pages, delivered) + seq(|e.segs|, _ => false))
  }

  /** The packets due, with flags and granule positions. */
  function Due(e: EncState, pages: seq<Page>, packets: seq<Packet>): (r: seq<D.Event>)
    requires AllWellFormed(pages) && |GranulesDue(e, pages, packets)| == |LastsDue(e, pages)| == |packets|
    ensures |r| == |packets|
  {
    Returned(packets, true, LastsDue(e, pages), GranulesDue(e, pages, packets))
  }

  /** The survivors of any loss, in full: the packets submitted, with the flags and granule positions they would
      come with if nothing were lost, less those of which a segment did not arrive. */
  lemma {:induction false} LossReturns(serialno: int, reset: bool, ops: seq<Op>, delivered: seq<bool>)
    requires Encodable(Submitted(ops)) && Int32(serialno)
    requires |delivered| == |Encoded(serialno, reset, ops).1|
    ensures var packets, (e, pages) := Submitted(ops), Encoded(serialno, reset, ops);
            && |GranulesDue(e, pages, packets)| == |LastsDue(e, pages)| == |packets|
            && Survivors(Tags(pages, delivered)) == Kept(Due(e, pages, packets), PacketsArrived(e, pages, packets, delivered))
  {
    hide Survivors, Events, Stream, InSequence, WellFormed, Kept, RunFates, Execute, PacketFates, SegmentFates, GranulesSeen,
      TagAll, Returned, AllChunks, PagesChunks, Datas, Segs, Fates, EndGranules, EndLasts, Flagged, Unsent, Plain, Submitted,
      PagesShaped, GranulesKept, Pending, LastsSeen;
    var packets := Submitted(ops);
    var (e, pages) := Encoded(serialno, reset, ops);
    SentAndUnsentFlagged(e, pages, serialno);
    SentGranules(e, pages, packets);
    SentLasts(e, pages, serialno);
    SelectionOf(e, pages, packets, delivered);
  }

  lemma {:induction false} SentLasts(e: EncState, pages: seq<Page>, serialno: int)
    requires InSequence(pages, serialno)
    ensures EndLasts(Stream(pages) + Unsent(e.segs, pages == [])) == LastsDue(e, pages)
  {
    hide Stream, WellFormed, EndLasts, LastsSeen, Unsent, PageInSequence, PacketsDone, EndGranules;
    var x := Unsent(e.segs, pages == []);
    StreamLasts(pages, serialno);
    EndLastsAppend(Stream(pages), x);
    UnsentGranules(e.segs, pages == []);
    NoneFlagged(x);
    assert |EndGranules(x)| == PacketsDone(x) && |EndGranules(e.segs)| == PacketsDone(e.segs);
  }

  lemma {:induction false} SentGranules(e: EncState, pages: seq<Page>, packets: seq<Packet>)
    requires GranulesKept(e.segs, pages, packets)
    ensures EndGranules(Stream(pages) + Unsent(e.segs, pages == [])) == GranulesDue(e, pages, packets)
  {
    hide Stream, WellFormed, EndGranules, GranulesSeen, Unsent;
    StreamGranules(pages, packets);
    EndGranulesAppend(Stream(pages), Unsent(e.segs, pages == []));
    UnsentGranules(e.segs, pages == []);
  }

  lemma {:induction false} SelectionOf(e: EncState, pages: seq<Page>, packets: seq<Packet>, delivered: seq<bool>)
    requires AllWellFormed(pages) && |delivered| == |pages| && Conserved(e.segs, pages, packets)
    requires Flagged(Stream(pages) + Unsent(e.segs, pages == []), true)
    requires EndGranules(Stream(pages) + Unsent(e.segs, pages == [])) == GranulesDue(e, pages, packets)
    requires EndLasts(Stream(pages) + Unsent(e.segs, pages == [])) == LastsDue(e, pages)
    ensures |GranulesDue(e, pages, packets)| == |LastsDue(e, pages)| == |packets|
    ensures Survivors(Tags(pages, delivered)) == Kept(Due(e, pages, packets), PacketsArrived(e, pages, packets, delivered))
  {
    hide Survivors, Events, Stream, WellFormed, Kept, RunFates, PacketFates, SegmentFates, GranulesDue, Tags, TagAll,
      Returned, AllChunks, PagesChunks, Datas, Segs, Fates, EndGranules, EndLasts, LastsDue, Flagged, Unsent, Plain;
    var sent, x := Tags(pages, delivered), TagAll(Unsent(e.segs, pages == []), false);
    var ts := sent + x;
    SegsOfPages(pages, delivered);
    SegsOfTags(Unsent(e.segs, pages == []), false, 0);
    SegsAppend(sent, x);
    DatasAppend(Segs(sent), Unsent(e.segs, pages == []));
    UnsentGranules(e.segs, pages == []);
    TagsDatas(pages, delivered);
    LostSurvivors(sent, Unsent(e.segs, pages == []));
    PlainTags(ts, Segs(ts), true);
    SurvivorsKept(ts);
    EventsAre(Segs(ts), packets, true);
    RunFatesAre(ts, packets);
    FatesOfTags(pages, delivered);
    FatesAppend(sent, x);
    FatesAll(Unsent(e.segs, pages == []), false);
  }

  lemma {:induction false} PlainTags(ts: seq<Tagged>, segs: seq<Segment>, first: bool)
    requires segs == Segs(ts) && Flagged(segs, first)
    ensures Plain(ts)
  {
    assert forall i :: 0 <= i < |ts| ==> ts[i].seg == segs[i];
  }

  /** Loss exactness for the pages of one encoder: whichever pages are lost, and however arrivals and drains
      are interleaved, the decoder returns the account of what arrived. Its packets are exactly those submitted
      of which all segments lie on delivered pages, each with the data, the flags and the granule position it
      would have come with anyway; its gaps are where pages are missing. */
  lemma {:induction false} EncoderLossExact(serialno: int, encReset: bool, ops: seq<Op>,
                                            delivered: seq<bool>, decReset: bool, actions: seq<Action>)
    requires Encodable(Submitted(ops)) && Int32(serialno)
    requires |delivered| == |Encoded(serialno, encReset, ops).1| <= TWO31
    requires var pages := Encoded(serialno, encReset, ops).1;
             var rx := Receive(serialno, decReset, pages, delivered, actions);
             rx.next == |pages| && D.PacketOut(rx.d).1.None?
    ensures var packets, (e, pages) := Submitted(ops), Encoded(serialno, encReset, ops);
            var out := Receive(serialno, decReset, pages, delivered, actions).out;
            && out == Account(pages, delivered, decReset) && Gaps(out) == GapCount(delivered, decReset)
            && DataOf(Packets(out)) == Intact(packets, SegmentFates(pages, delivered) + seq(|e.segs|, _ => false))
            && |GranulesDue(e, pages, packets)| == |LastsDue(e, pages)| == |packets|
            && Packets(out) == Kept(Due(e, pages, packets), PacketsArrived(e, pages, packets, delivered))
  {
    hide InSequence, Conserved, Intact, SegmentFates, GranulesDue, Due, PacketsArrived, Kept, Account, Packets, Gaps,
      GapCount, Survivors, Tags, Receive, D.PacketOut, Execute, DataOf, LastsDue, Submitted;
    var (e, pages) := Encoded(serialno, encReset, ops);
    LossExact(serialno, decReset, pages, delivered, actions);
    SurvivorsOfRun(e, pages, Submitted(ops), delivered);
    LossReturns(serialno, encReset, ops, delivered);
  }
}
