/** What holds of every run of the encoder: conservation, page shape, page sequence, granule positions. */
module EncoderRuns {
  import opened Bytes
  import opened OggPage
  import opened Segments
  import opened Framing
  import opened Encoder

  /** A segment is flagged as a packet's first exactly when it is; the front one's packet may have begun on a page. */
  predicate FlaggedFirst(segs: seq<Segment>, open: bool, i: nat)
    requires i < |segs|
  {
    segs[i].first == if i == 0 then !open else Ends(segs[i - 1])
  }

  /** The pending segments are whole packets, but for the front one when its beginning is already on a page. */
  ghost predicate Pending(segs: seq<Segment>, open: bool) {
    && Sized(segs) && Closed(segs)
    && (segs == [] ==> !open)
    && forall i :: 0 <= i < |segs| ==> FlaggedFirst(segs, open, i)
  }

  /** The granule positions of the packets that end among the segments. */
  function EndGranules(segs: seq<Segment>): (g: seq<int>)
    ensures |g| == PacketsDone(segs)
    ensures EndGranule(segs) == if g == [] then -1 else g[|g| - 1]
  {
    if |segs| == 0 then []
    else EndGranules(segs[..|segs| - 1]) + if Ends(segs[|segs| - 1]) then [segs[|segs| - 1].granulepos] else []
  }

  lemma {:induction false} EndGranulesAppend(a: seq<Segment>, b: seq<Segment>)
    ensures EndGranules(a + b) == EndGranules(a) + EndGranules(b)
  {
    if b == [] {
      assert a + b == a;
    } else {
      EndGranulesAppend(a, b[..|b| - 1]);
      assert (a + b)[..|a + b| - 1] == a + b[..|b| - 1];
    }
  }

  /** Segments without an end contribute no granule position. */
  lemma {:induction false} NoEndGranules(segs: seq<Segment>)
    requires forall i :: 0 <= i < |segs| ==> !Ends(segs[i])
    ensures EndGranules(segs) == []
  {
    if segs != [] {
      NoEndGranules(segs[..|segs| - 1]);
    }
  }

  lemma {:induction false} EndedIsDone(segs: seq<Segment>)
    requires Sized(segs)
    ensures Ended(LensOf(segs)) == PacketsDone(segs)
  {
    if segs != [] {
      EndedIsDone(segs[..|segs| - 1]);
      assert LensOf(segs)[..|segs| - 1] == LensOf(segs[..|segs| - 1]);
    }
  }

  function Granules(packets: seq<Packet>): (g: seq<int>)
    ensures |g| == |packets|
    ensures forall i :: 0 <= i < |packets| ==> g[i] == packets[i].granulepos
  {
    seq(|packets|, i requires 0 <= i < |packets| => packets[i].granulepos)
  }

  /** A page that ends mid-packet is full; the first page stops with the first packet. */
  ghost predicate PageShape(pages: seq<Page>, k: nat)
    requires AllWellFormed(pages) && k < |pages|
  {
    && 1 <= |Lens(pages[k])| <= 255
    && (OpenEnded(pages[k]) ==> |Lens(pages[k])| == 255)
    && (k == 0 ==> forall i :: 0 <= i < |Lens(pages[k])| - 1 ==> Lens(pages[k])[i] == 255)
  }

  /** The first page has granule position 0; any other has that of the last packet to end on it, or -1. */
  ghost predicate PageGranule(pages: seq<Page>, k: nat, packets: seq<Packet>)
    requires AllWellFormed(pages) && k < |pages|
  {
    var done := PagesEnded(pages[..k + 1]);
    && done <= |packets|
    && PagesEnded(pages[..k]) + Ended(Lens(pages[k])) == done
    && Granulepos(pages[k]) == if k == 0 then 0
                               else if Ended(Lens(pages[k])) == 0 then -1
                               else packets[done - 1].granulepos
  }

  ghost predicate Conserved(segs: seq<Segment>, pages: seq<Page>, packets: seq<Packet>) {
    && AllWellFormed(pages)
    && PagesChunks(pages) + Datas(segs) == AllChunks(packets)
  }

  /** The packets still to end are the last ones submitted. */
  ghost predicate GranulesKept(segs: seq<Segment>, pages: seq<Page>, packets: seq<Packet>) {
    && AllWellFormed(pages)
    && PagesEnded(pages) <= |packets|
    && EndGranules(segs) == Granules(packets)[PagesEnded(pages)..]
    && forall k :: 0 <= k < |pages| ==> PageGranule(pages, k, packets)
  }

  ghost predicate PagesShaped(pages: seq<Page>) {
    AllWellFormed(pages) && forall k :: 0 <= k < |pages| ==> PageShape(pages, k)
  }

  /** The state reached from a fresh (or reset) stream after submitting `packets` and emitting `pages`. */
  ghost predicate Reached(e: EncState, pages: seq<Page>, packets: seq<Packet>, serialno: int) {
    && AllWellFormed(pages) && Sized(e.segs)
    && InSequence(pages, serialno)
    && Pending(e.segs, OpenAfter(pages))
    && Conserved(e.segs, pages, packets)
    && GranulesKept(e.segs, pages, packets)
    && PagesShaped(pages)
    && e.serialno == serialno
    && e.bos == (pages != [])
    && (if pages == [] then e.pageno == 0 || e.pageno == -1 else e.pageno == |pages|)
  }

  ghost predicate Encodable(packets: seq<Packet>) {
    forall i :: 0 <= i < |packets| ==> Int64(packets[i].granulepos)
  }

  // ----- Submitting a packet -----

  lemma {:induction false} SubmitPending(segs: seq<Segment>, open: bool, data: seq<byte>, previous: int, granulepos: int)
    requires Pending(segs, open)
    ensures Pending(segs + PacketSegments(data, previous, granulepos), open)
  {
    hide Chunks;
    PacketSegmentsShape(data, previous, granulepos);
    var s := PacketSegments(data, previous, granulepos);
    var t := segs + s;
    forall i | 0 <= i < |t|
      ensures FlaggedFirst(t, open, i)
    {
      if i < |segs| {
        assert FlaggedFirst(segs, open, i);
        assert t[i] == segs[i] && (i > 0 ==> t[i - 1] == segs[i - 1]);
      } else {
        assert t[i] == s[i - |segs|];
        assert if i > |segs| then t[i - 1] == s[i - |segs| - 1] else segs != [] ==> t[i - 1] == segs[|segs| - 1];
      }
    }
  }

  lemma {:induction false} SubmitConserved(segs: seq<Segment>, pages: seq<Page>, packets: seq<Packet>, p: Packet, previous: int)
    requires Conserved(segs, pages, packets)
    ensures Conserved(segs + PacketSegments(p.data, previous, p.granulepos), pages, packets + [p])
  {
    hide Chunks, PagesChunks, WellFormed;
    var s := PacketSegments(p.data, previous, p.granulepos);
    PacketSegmentsShape(p.data, previous, p.granulepos);
    assert (packets + [p])[..|packets|] == packets;
    assert Datas(segs + s) == Datas(segs) + Datas(s);
  }

  lemma {:induction false} PacketEndGranules(data: seq<byte>, previous: int, granulepos: int)
    ensures EndGranules(PacketSegments(data, previous, granulepos)) == [granulepos]
  {
    hide Chunks;
    var s := PacketSegments(data, previous, granulepos);
    PacketSegmentsShape(data, previous, granulepos);
    NoEndGranules(s[..|s| - 1]);
  }

  lemma {:induction false} SubmitGranules(segs: seq<Segment>, pages: seq<Page>, packets: seq<Packet>, p: Packet, previous: int)
    requires GranulesKept(segs, pages, packets)
    ensures GranulesKept(segs + PacketSegments(p.data, previous, p.granulepos), pages, packets + [p])
  {
    hide PacketSegments, PagesEnded, WellFormed, Granulepos, Lens;
    EndGranulesAppend(segs, PacketSegments(p.data, previous, p.granulepos));
    PacketEndGranules(p.data, previous, p.granulepos);
    assert Granules(packets + [p]) == Granules(packets) + [p.granulepos];
    forall k | 0 <= k < |pages|
      ensures PageGranule(pages, k, packets + [p])
    {
      assert PageGranule(pages, k, packets);
    }
  }

  lemma {:induction false} SubmitReached(e: EncState, pages: seq<Page>, packets: seq<Packet>, serialno: int, p: Packet)
    requires Reached(e, pages, packets, serialno)
    ensures Reached(PacketIn(e, p), pages, packets + [p], serialno)
  {
    hide Pending, Conserved, GranulesKept, PagesShaped, InSequence, OpenAfter, PacketSegments;
    PacketSegmentsShape(p.data, e.granulepos, p.granulepos);
    SubmitPending(e.segs, OpenAfter(pages), p.data, e.granulepos, p.granulepos);
    SubmitConserved(e.segs, pages, packets, p, e.granulepos);
    SubmitGranules(e.segs, pages, packets, p, e.granulepos);
  }

  // ----- Emitting a page -----

  lemma {:induction false} FlushPending(segs: seq<Segment>, open: bool, n: nat)
    requires Pending(segs, open) && 0 < n <= |segs|
    ensures Pending(segs[n..], !Ends(segs[n - 1]))
  {
    hide Ends;
    var rest, open' := segs[n..], !Ends(segs[n - 1]);
    assert rest != [] ==> rest[|rest| - 1] == segs[|segs| - 1];
    forall i | 0 <= i < |rest|
      ensures FlaggedFirst(rest, open', i)
    {
      assert FlaggedFirst(segs, open, n + i);
    }
  }

  lemma {:induction false} FlushConserved(segs: seq<Segment>, pages: seq<Page>, packets: seq<Packet>, n: nat, p: Page)
    requires Conserved(segs, pages, packets) && n <= |segs|
    requires WellFormed(p) && PageChunks(p) == Datas(segs[..n])
    ensures Conserved(segs[n..], pages + [p], packets)
  {
    hide PageChunks, WellFormed;
    PagesChunksExtend(pages, p);
    hide PagesChunks, AllChunks;
    assert Datas(segs) == Datas(segs[..n]) + Datas(segs[n..]);
    Assoc(PagesChunks(pages), Datas(segs[..n]), Datas(segs[n..]));
  }

  lemma {:induction false} EndGranulesCut(segs: seq<Segment>, n: nat)
    requires n <= |segs|
    ensures var g, all := EndGranules(segs[..n]), EndGranules(segs);
            |g| <= |all| && g == all[..|g|] && EndGranules(segs[n..]) == all[|g|..]
  {
    hide EndGranules;
    assert segs[..n] + segs[n..] == segs;
    EndGranulesAppend(segs[..n], segs[n..]);
  }

  lemma {:induction false} FlushGranules(segs: seq<Segment>, pages: seq<Page>, packets: seq<Packet>, n: nat, p: Page)
    requires GranulesKept(segs, pages, packets) && n <= |segs| && Sized(segs[..n])
    requires WellFormed(p) && Lens(p) == LensOf(segs[..n])
    requires Granulepos(p) == if pages == [] then 0 else EndGranule(segs[..n])
    ensures GranulesKept(segs[n..], pages + [p], packets)
  {
    hide WellFormed, Granulepos, Lens, PagesChunks, PageChunks, Ended, EndGranules, LensOf, EndGranule, PacketsDone,
      PagesEnded, PageGranule, Granules;
    var done := PagesEnded(pages);
    PagesChunksExtend(pages, p);
    EndedIsDone(segs[..n]);
    EndGranulesCut(segs, n);
    GranulesTaken(EndGranules(segs[..n]), EndGranules(segs), Granules(packets), done);
    OldPagesGranules(pages, p, packets);
    NewPageGranule(segs[..n], pages, packets, p);
  }

  lemma {:induction false} GranulesTaken(g: seq<int>, all: seq<int>, granules: seq<int>, done: nat)
    requires |g| <= |all| && g == all[..|g|] && done <= |granules| && all == granules[done..]
    ensures done + |g| <= |granules| && all[|g|..] == granules[done + |g|..]
    ensures g != [] ==> g[|g| - 1] == granules[done + |g| - 1]
  {
  }

  lemma {:induction false} NewPageGranule(front: seq<Segment>, pages: seq<Page>, packets: seq<Packet>, p: Page)
    requires AllWellFormed(pages) && AllWellFormed(pages + [p]) && WellFormed(p)
    requires Ended(Lens(p)) == |EndGranules(front)| && PagesEnded(pages + [p]) == PagesEnded(pages) + Ended(Lens(p)) <= |packets|
    requires Granulepos(p) == if pages == [] then 0 else EndGranule(front)
    requires var g := EndGranules(front); g != [] ==> g[|g| - 1] == Granules(packets)[PagesEnded(pages) + |g| - 1]
    ensures PageGranule(pages + [p], |pages|, packets)
  {
    hide WellFormed, Granulepos, Lens, Ended, EndGranules, EndGranule, PacketsDone, PagesEnded;
    assert (pages + [p])[..|pages|] == pages && (pages + [p])[..|pages| + 1] == pages + [p];
  }

  lemma {:induction false} OldPagesGranules(pages: seq<Page>, p: Page, packets: seq<Packet>)
    requires AllWellFormed(pages) && WellFormed(p)
    requires forall k :: 0 <= k < |pages| ==> PageGranule(pages, k, packets)
    ensures AllWellFormed(pages + [p])
    ensures forall k :: 0 <= k < |pages| ==> PageGranule(pages + [p], k, packets)
  {
    hide WellFormed, Granulepos, Lens, PagesEnded, Ended;
    var pages' := pages + [p];
    forall k | 0 <= k < |pages|
      ensures PageGranule(pages', k, packets)
    {
      assert PageGranule(pages, k, packets);
      assert pages'[..k] == pages[..k] && pages'[..k + 1] == pages[..k + 1] && pages'[k] == pages[k];
    }
  }

  /** A page that stops before the pending segments end stops on a packet boundary, or is full. */
  lemma {:induction false} CutShape(e: EncState, open: bool, nfill: int)
    requires Pending(e.segs, open) && e.segs != []
    ensures var n := PageSize(e, nfill);
            && 0 < n
            && (n == 255 || Ends(e.segs[n - 1]))
            && (!e.bos ==> forall i :: 0 <= i < n - 1 ==> !Ends(e.segs[i]))
  {
    hide Body, PacketsDone, Run, NominalCut, Sized, Ends;
    assert Ends(e.segs[|e.segs| - 1]);
    if !e.bos {
      FirstCut(e.segs, Min(255, |e.segs|));
    } else {
      LaterCut(e.segs, Min(255, |e.segs|), nfill);
    }
  }

  lemma {:induction false} FirstCut(segs: seq<Segment>, max: nat)
    requires 0 < max <= |segs|
    ensures var n := Run(segs[..max]);
            0 < n <= max && (n < max ==> Ends(segs[n - 1])) && forall i :: 0 <= i < n - 1 ==> !Ends(segs[i])
  {
    hide Ends;
    var n := Run(segs[..max]);
    assert n < max ==> segs[..max][n - 1] == segs[n - 1];
    assert forall i :: 0 <= i < n - 1 ==> segs[..max][i] == segs[i];
  }

  lemma {:induction false} LaterCut(segs: seq<Segment>, max: nat, nfill: int)
    requires 0 < max <= |segs|
    ensures var n := NominalCut(segs, 0, max, nfill); 0 < n <= max && (n < max ==> Ends(segs[n - 1]))
  {
    hide Body, PacketsDone, NominalCut;
  }

  lemma {:induction false} FlushShaped(e: EncState, pages: seq<Page>, nfill: int, p: Page)
    requires PagesShaped(pages) && Pending(e.segs, OpenAfter(pages)) && e.segs != []
    requires e.bos == (pages != []) && WellFormed(p)
    requires Lens(p) == LensOf(e.segs[..PageSize(e, nfill)])
    ensures PagesShaped(pages + [p])
  {
    hide WellFormed, Lens, OpenAfter, Pending, PageSize;
    CutShape(e, OpenAfter(pages), nfill);
    var pages' := pages + [p];
    forall k | 0 <= k < |pages'|
      ensures PageShape(pages', k)
    {
      if k < |pages| {
        assert PageShape(pages, k);
      }
    }
  }

  lemma {:induction false} FlushReached(e: EncState, pages: seq<Page>, packets: seq<Packet>, serialno: int, force: bool,
                                        nfill: int)
    requires Reached(e, pages, packets, serialno) && Encodable(packets) && Int32(serialno)
    requires Flush(e, force, nfill).1.Some?
    ensures var (e', page) := Flush(e, force, nfill);
            Reached(e', pages + [page.value], packets, serialno)
  {
    hide InSequence, Pending, Conserved, GranulesKept, PagesShaped;
    hide PagesChunks, AllChunks, PagesEnded, LensOf, NominalStop, NominalCut, Checksum, Body, Datas, EndGranule, MakePage,
      Granulepos, Pageno, Serialno, Continued, Bos, Eos, Version, Run;
    var n, p := PageSize(e, nfill), Flush(e, force, nfill).1.value;
    FlushEmits(e, force, nfill);
    TakenGranule(e.segs, n, pages, packets);
    FlushInSequence(e, pages, serialno, n, p);
    hide WellFormed, OpenAfter;
    FlushPending(e.segs, OpenAfter(pages), n);
    FlushConserved(e.segs, pages, packets, n, p);
    FlushGranules(e.segs, pages, packets, n, p);
    FlushShaped(e, pages, nfill, p);
  }

  /** The granule position put on a page is one of the packets', or -1. */
  lemma {:induction false} TakenGranule(segs: seq<Segment>, n: nat, pages: seq<Page>, packets: seq<Packet>)
    requires GranulesKept(segs, pages, packets) && Encodable(packets) && n <= |segs|
    ensures Int64(EndGranule(segs[..n]))
  {
    hide PagesEnded;
    assert segs[..n] + segs[n..] == segs;
    EndGranulesAppend(segs[..n], segs[n..]);
    var g := EndGranules(segs[..n]);
    if g != [] {
      assert g[|g| - 1] == EndGranules(segs)[|g| - 1] == Granules(packets)[PagesEnded(pages)..][|g| - 1];
    }
  }

  lemma {:induction false} FlushInSequence(e: EncState, pages: seq<Page>, serialno: int, n: nat, p: Page)
    requires AllWellFormed(pages) && InSequence(pages, serialno) && Pending(e.segs, OpenAfter(pages))
    requires e.bos == (pages != []) && (if pages == [] then e.pageno == 0 || e.pageno == -1 else e.pageno == |pages|)
    requires 0 < n <= |e.segs| && WellFormed(p) && Lens(p) == LensOf(e.segs[..n])
    requires p.header[..4] == CAPTURE && p.header[22..26] == Checksum(p.header, p.body) && Version(p) == 0
    requires Continued(p) == !e.segs[0].first && Bos(p) == !e.bos && Eos(p) == (e.eos && n == |e.segs|)
    requires Serialno(p) == serialno
    requires -1 <= e.pageno < TWO31 ==> Pageno(p) == if e.pageno == -1 then 0 else e.pageno
    ensures InSequence(pages + [p], serialno)
  {
    hide Checksum, InSequence, Pageno, Serialno, Version, Continued, Bos, Eos;
    var pages' := pages + [p];
    assert AllWellFormed(pages');
    assert pages'[..|pages|] == pages;
    assert FlaggedFirst(e.segs, OpenAfter(pages), 0);
    assert Continued(p) == OpenAfter(pages);
    assert Bos(p) == (|pages| == 0);
    assert Lens(p) != [];
    assert |pages| < TWO31 ==> Pageno(p) == |pages|;
    assert Eos(p) ==> !OpenEnded(p);
    assert PageInSequence(pages', |pages|, serialno);
    InSequenceExtend(pages, p, serialno);
  }

  lemma InitReached(serialno: int, reset: bool)
    ensures Reached(Init(serialno, reset), [], [], serialno) && Init(serialno, reset).segs == []
  {
  }

  /** Every run keeps the invariant. */
  lemma {:induction false} RunReached(serialno: int, reset: bool, ops: seq<Op>)
    requires Encodable(Submitted(ops)) && Int32(serialno)
    ensures var (e, pages) := Execute(Init(serialno, reset), ops);
            Reached(e, pages, Submitted(ops), serialno)
  {
    var e0 := Init(serialno, reset);
    hide Reached, Flush, PacketIn;
    if ops == [] {
      InitReached(serialno, reset);
    } else {
      var n := |ops| - 1;
      var (e, pages) := Execute(e0, ops[..n]);
      assert Encodable(Submitted(ops[..n])) by {
        assert Submitted(ops[..n]) <= Submitted(ops);
      }
      RunReached(serialno, reset, ops[..n]);
      assert pages + [] == pages && Submitted(ops[..n]) + [] == Submitted(ops[..n]);
      match ops[n]
      case Submit(p) =>
        SubmitReached(e, pages, Submitted(ops[..n]), serialno, p);
      case TryPage(nfill) =>
        var force := e.segs != [] && (e.eos || !e.bos);
        if Flush(e, force, nfill).1.Some? {
          FlushReached(e, pages, Submitted(ops[..n]), serialno, force, nfill);
        }
      case ForcePage(nfill) =>
        if Flush(e, true, nfill).1.Some? {
          FlushReached(e, pages, Submitted(ops[..n]), serialno, true, nfill);
        }
    }
  }

  // ----- Consequences -----

  function PacketData(packets: seq<Packet>): seq<byte> {
    if |packets| == 0 then [] else PacketData(packets[..|packets| - 1]) + packets[|packets| - 1].data
  }

  function PagesBody(pages: seq<Page>): seq<byte> {
    if |pages| == 0 then [] else PagesBody(pages[..|pages| - 1]) + pages[|pages| - 1].body
  }

  lemma {:induction false} ChunksOfPackets(packets: seq<Packet>)
    ensures Concat(AllChunks(packets)) == PacketData(packets)
  {
    if packets != [] {
      var n := |packets| - 1;
      ChunksOfPackets(packets[..n]);
      ChunksJoin(packets[n].data);
      ConcatAppend(AllChunks(packets[..n]), Chunks(packets[n].data));
    }
  }

  lemma {:induction false} ChunksOfPages(pages: seq<Page>)
    requires AllWellFormed(pages)
    ensures Concat(PagesChunks(pages)) == PagesBody(pages)
  {
    if pages != [] {
      var n := |pages| - 1;
      ChunksOfPages(pages[..n]);
      SplitSizes(Lens(pages[n]), pages[n].body);
      ConcatAppend(PagesChunks(pages[..n]), PageChunks(pages[n]));
    }
  }

  /** Nothing is lost, repeated or reordered: page bodies, then what is pending, are the packets' octets. */
  lemma {:induction false} BodiesConserved(serialno: int, reset: bool, ops: seq<Op>)
    requires Encodable(Submitted(ops)) && Int32(serialno)
    ensures var (e, pages) := Execute(Init(serialno, reset), ops);
            && PagesBody(pages) + Body(e.segs) == PacketData(Submitted(ops))
            && AllWellFormed(pages) && PagesEnded(pages) + PacketsDone(e.segs) == |Submitted(ops)|
  {
    hide Execute, Submitted, WellFormed, InSequence, Pending, PagesShaped, AllChunks, PagesChunks;
    RunReached(serialno, reset, ops);
    var (e, pages) := Execute(Init(serialno, reset), ops);
    ConcatAppend(PagesChunks(pages), Datas(e.segs));
    ChunksOfPackets(Submitted(ops));
    ChunksOfPages(pages);
  }

  /** A forced flush emits a page as long as any segment is pending, and takes at least one of them. */
  lemma {:induction false} FlushProgress(e: EncState, nfill: int)
    requires Sized(e.segs)
    ensures Flush(e, true, nfill).1.Some? <==> e.segs != []
    ensures e.segs != [] ==> |Flush(e, true, nfill).0.segs| < |e.segs|
  {
    if e.segs != [] {
      FlushEmits(e, true, nfill);
    }
  }

  /** From any point of any run, finitely many flushes put every submitted packet on a page. */
  lemma {:induction false} FlushesDrain(serialno: int, reset: bool, ops: seq<Op>, nfill: int) returns (flushes: nat)
    requires Encodable(Submitted(ops)) && Int32(serialno)
    ensures var ops' := ops + seq(flushes, _ => ForcePage(nfill));
            var (e, pages) := Execute(Init(serialno, reset), ops');
            && Submitted(ops') == Submitted(ops)
            && e.segs == [] && AllWellFormed(pages) && PagesEnded(pages) == |Submitted(ops)|
    decreases |Execute(Init(serialno, reset), ops).0.segs|
  {
    hide Flush;
    var e0 := Init(serialno, reset);
    var e := Execute(e0, ops).0;
    if e.segs == [] {
      flushes := 0;
      BodiesConserved(serialno, reset, ops);
      assert ops + seq(0, _ => ForcePage(nfill)) == ops;
    } else {
      var next := ops + [ForcePage(nfill)];
      assert next[..|ops|] == ops;
      FlushProgress(e, nfill);
      assert Submitted(next) == Submitted(ops);
      var more := FlushesDrain(serialno, reset, next, nfill);
      flushes := more + 1;
      assert next + seq(more, _ => ForcePage(nfill)) == ops + seq(flushes, _ => ForcePage(nfill));
    }
  }

  /** A page nobody forced is full, or stops on a packet boundary with four packets or more and
      more than `nfill` body octets. */
  lemma {:induction false} UnforcedPage(e: EncState, nfill: int)
    requires Sized(e.segs) && e.bos && !e.eos && PageOut(e, nfill).1.Some?
    ensures var p := PageOut(e, nfill).1.value;
            && WellFormed(p)
            && (|Lens(p)| == 255 || (!OpenEnded(p) && Ended(Lens(p)) >= 4 && |p.body| > nfill))
  {
    hide MakePage, Body, PacketsDone, Sum, Checksum, Ended;
    assert PageOut(e, nfill) == Flush(e, false, nfill);
    FlushEmits(e, false, nfill);
    var n := PageSize(e, nfill);
    EndedIsDone(e.segs[..n]);
    BodySize(e.segs[..n]);
    hide Flush, PageOut, PageSize, LensOf;
  }
}
