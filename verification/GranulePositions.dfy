/** Which packets arrive with the granule position they were submitted with. */
module GranulePositions {
  import opened Bytes
  import opened OggPage
  import opened Segments
  import opened Framing
  import opened Encoder
  import opened EncoderRuns
  import opened RoundTrip

  /** Packet `i` ends on page `k`. */
  predicate EndsOn(pages: seq<Page>, k: nat, i: nat)
    requires AllWellFormed(pages) && k < |pages|
  {
    PagesEnded(pages[..k]) <= i < PagesEnded(pages[..k + 1])
  }

  lemma {:induction false} PageOfPacket(pages: seq<Page>, i: nat) returns (k: nat)
    requires AllWellFormed(pages) && i < PagesEnded(pages)
    ensures k < |pages| && EndsOn(pages, k, i)
  {
    hide WellFormed, Lens, Ended;
    k := |pages| - 1;
    assert pages[..k + 1] == pages;
    if i < PagesEnded(pages[..k]) {
      var all := pages[..k];
      k := PageOfPacket(all, i);
      assert all[..k] == pages[..k] && all[..k + 1] == pages[..k + 1];
    }
  }

  lemma {:induction false} EndedGrows(pages: seq<Page>, k: nat)
    requires AllWellFormed(pages) && k <= |pages|
    ensures PagesEnded(pages[..k]) <= PagesEnded(pages)
  {
    hide WellFormed, Lens, Ended;
    if k == |pages| {
      assert pages[..k] == pages;
    } else {
      EndedGrows(pages[..|pages| - 1], k);
      assert pages[..|pages| - 1][..k] == pages[..k];
    }
  }

  lemma {:induction false} SeenCount(pages: seq<Page>, packets: seq<Packet>)
    requires AllWellFormed(pages)
    ensures |GranulesSeen(pages, packets)| == PagesEnded(pages)
  {
    hide WellFormed, Lens, Ended;
    if pages != [] {
      SeenCount(pages[..|pages| - 1], packets);
    }
  }

  /** What a packet arrives with: its own position if it is the last to end on its page, unless that is the first page,
      which has position 0; otherwise none. */
  lemma {:induction false} GranuleSeen(pages: seq<Page>, packets: seq<Packet>, k: nat, i: nat)
    requires AllWellFormed(pages) && PagesEnded(pages) <= |packets| && k < |pages| && EndsOn(pages, k, i)
    ensures i < |GranulesSeen(pages, packets)| && i < |packets|
    ensures GranulesSeen(pages, packets)[i]
            == if i + 1 < PagesEnded(pages[..k + 1]) then -1 else if k == 0 then 0 else packets[i].granulepos
    decreases |pages|
  {
    hide Sum, Lens, PagesEnded, GranulesSeen, PageGranules, Ended;
    var n := |pages| - 1;
    var all := pages[..n];
    SeenCount(pages, packets);
    SeenCount(all, packets);
    EndedGrows(pages, k + 1);
    EndedGrows(pages, n);
    GranulesSeenStep(pages, packets);
    assert pages[..n + 1] == pages;
    if k < n {
      assert all[..k] == pages[..k] && all[..k + 1] == pages[..k + 1];
      EndedGrows(all, k + 1);
      GranuleSeen(all, packets, k, i);
    } else {
      LastPage(pages);
      OnPage(Lens(pages[n]), if n == 0 then 0 else packets[PagesEnded(pages) - 1].granulepos, i - PagesEnded(all));
    }
  }

  lemma {:induction false} LastPage(pages: seq<Page>)
    requires AllWellFormed(pages) && pages != []
    ensures var n := |pages| - 1; PagesEnded(pages) == PagesEnded(pages[..n]) + Ended(Lens(pages[n]))
  {
  }

  lemma {:induction false} OnPage(lens: seq<byte>, granulepos: int, j: nat)
    requires j < Ended(lens)
    ensures |PageGranules(lens, granulepos)| == Ended(lens)
    ensures PageGranules(lens, granulepos)[j] == if j + 1 < Ended(lens) then -1 else granulepos
  {
    hide Ended;
  }

  /** A packet's own position arrives exactly if it is the last to end on its page and the page is not the first, or if it
      coincides with what arrives instead. */
  lemma {:induction false} OwnGranule(serialno: int, reset: bool, ops: seq<Op>, i: nat)
    requires Encodable(Submitted(ops)) && Int32(serialno)
    requires var pages := Execute(Init(serialno, reset), ops).1; AllWellFormed(pages) && i < PagesEnded(pages)
    ensures var packets, pages := Submitted(ops), Execute(Init(serialno, reset), ops).1;
            && i < |packets| && i < |GranulesSeen(pages, packets)|
            && exists k :: 0 <= k < |pages| && EndsOn(pages, k, i)
                 && (GranulesSeen(pages, packets)[i] == packets[i].granulepos
                     <==> if i + 1 < PagesEnded(pages[..k + 1]) then packets[i].granulepos == -1
                          else k > 0 || packets[i].granulepos == 0)
  {
    hide Execute, Submitted, WellFormed, PagesEnded, GranulesSeen, InSequence, Conserved, Pending, PagesShaped;
    RunReached(serialno, reset, ops);
    var packets, pages := Submitted(ops), Execute(Init(serialno, reset), ops).1;
    var k := PageOfPacket(pages, i);
    GranuleSeen(pages, packets, k, i);
  }

  // ----- A run that shows it -----

  lemma {:induction false} OneSegmentPacket(data: seq<byte>, previous: int, granulepos: int)
    requires |data| < 255
    ensures PacketSegments(data, previous, granulepos) == [Segment(data, true, false, false, granulepos)]
  {
  }

  /** Flushing one short packet, or two behind a first page, puts them all on one page. */
  lemma {:induction false} FlushShort(e: EncState)
    requires Sized(e.segs) && (|e.segs| == 1 || (|e.segs| == 2 && e.bos)) && forall i :: 0 <= i < |e.segs| ==> Ends(e.segs[i])
    ensures var (e', page) := Flush(e, true, 0);
            && page.Some? && e'.segs == [] && e'.bos && WellFormed(page.value) && Ended(Lens(page.value)) == |e.segs|
  {
    hide MakePage, WellFormed, Lens, Checksum, Split, Body, Granulepos, Serialno, Pageno, OggPage.Version, OggPage.Continued,
      Bos, Eos, CAPTURE;
    ShortSize(e);
    FlushEmits(e, true, 0);
    assert e.segs[..|e.segs|] == e.segs;
    EndedIsDone(e.segs);
    ShortDone(e.segs);
  }

  lemma {:induction false} ShortDone(segs: seq<Segment>)
    requires |segs| <= 2 && forall i :: 0 <= i < |segs| ==> Ends(segs[i])
    ensures PacketsDone(segs) == |segs|
  {
    if segs != [] {
      ShortDone(segs[..|segs| - 1]);
    }
  }

  lemma {:induction false} ShortSize(e: EncState)
    requires (|e.segs| == 1 || (|e.segs| == 2 && e.bos)) && forall i :: 0 <= i < |e.segs| ==> Ends(e.segs[i])
    ensures PageSize(e, 0) == |e.segs|
  {
    hide Body;
    if e.bos {
      var n := NominalCut(e.segs, 0, |e.segs|, 0);
      ShortDone(e.segs[..n]);
      assert !NominalStop(e.segs, n, 0);
    }
  }

  /** Three short packets, the first flushed alone and the others together: only the last keeps its position. */
  lemma {:induction false} PositionsLost(serialno: int, a: Packet, b: Packet, c: Packet)
    requires |a.data| < 255 && |b.data| < 255 && |c.data| < 255
    ensures var ops := [Submit(a), ForcePage(0), Submit(b), Submit(c), ForcePage(0)];
            var pages := Execute(Init(serialno, false), ops).1;
            && Submitted(ops) == [a, b, c]
            && AllWellFormed(pages) && GranulesSeen(pages, Submitted(ops)) == [0, -1, c.granulepos]
  {
    hide Flush, WellFormed, Lens, GranulesSeen, PacketSegments, Ended;
    var e0 := Init(serialno, false);
    var ops := [Submit(a), ForcePage(0), Submit(b), Submit(c), ForcePage(0)];
    RunOfFive(e0, ops);
    OneSegmentPacket(a.data, e0.granulepos, a.granulepos);
    var e1 := PacketIn(e0, a);
    FlushShort(e1);
    var (e2, p) := Flush(e1, true, 0);
    OneSegmentPacket(b.data, e2.granulepos, b.granulepos);
    OneSegmentPacket(c.data, b.granulepos, c.granulepos);
    var e4 := PacketIn(PacketIn(e2, b), c);
    assert e4.segs == PacketSegments(b.data, e2.granulepos, b.granulepos) + PacketSegments(c.data, b.granulepos, c.granulepos);
    FlushShort(e4);
    var (e5, q) := Flush(e4, true, 0);
    TwoPagesSeen(p.value, q.value, [a, b, c]);
  }

  lemma {:induction false} OneMoreCall(e: EncState, ops: seq<Op>, op: Op)
    requires Sized(e.segs)
    ensures var (e', pages) := Execute(e, ops);
            var (e'', page) := Apply(e', op);
            Execute(e, ops + [op]) == (e'', pages + Emitted(page))
    ensures Submitted(ops + [op]) == Submitted(ops) + if op.Submit? then [op.packet] else []
  {
    hide Apply;
    assert (ops + [op])[..|ops|] == ops;
  }

  /** A run of five calls, call by call. */
  lemma {:induction false} RunOfFive(e: EncState, ops: seq<Op>)
    requires Sized(e.segs) && |ops| == 5
    requires ops[0].Submit? && ops[1].ForcePage? && ops[2].Submit? && ops[3].Submit? && ops[4].ForcePage?
    ensures var e1 := Apply(e, ops[0]).0;
            var (e2, p) := Apply(e1, ops[1]);
            var (e5, q) := Apply(Apply(Apply(e2, ops[2]).0, ops[3]).0, ops[4]);
            Execute(e, ops) == (e5, Emitted(p) + Emitted(q))
    ensures Submitted(ops) == [ops[0].packet, ops[2].packet, ops[3].packet]
  {
    hide Flush, PacketIn, Execute, Submitted;
    NoCalls(e);
    OneMoreCall(e, [], ops[0]);
    OneMoreCall(e, [] + [ops[0]], ops[1]);
    OneMoreCall(e, [] + [ops[0]] + [ops[1]], ops[2]);
    OneMoreCall(e, [] + [ops[0]] + [ops[1]] + [ops[2]], ops[3]);
    OneMoreCall(e, [] + [ops[0]] + [ops[1]] + [ops[2]] + [ops[3]], ops[4]);
    assert ops == [] + [ops[0]] + [ops[1]] + [ops[2]] + [ops[3]] + [ops[4]];
    var (e2, p) := Apply(Apply(e, ops[0]).0, ops[1]);
    var (e5, q) := Apply(Apply(Apply(e2, ops[2]).0, ops[3]).0, ops[4]);
    assert [] + [] + Emitted(p) + [] + [] + Emitted(q) == Emitted(p) + Emitted(q);
  }

  lemma NoCalls(e: EncState)
    requires Sized(e.segs)
    ensures Execute(e, []) == (e, []) && Submitted([]) == []
  {
  }

  lemma {:induction false} TwoPagesSeen(p: Page, q: Page, packets: seq<Packet>)
    requires WellFormed(p) && WellFormed(q) && Ended(Lens(p)) == 1 && Ended(Lens(q)) == 2 && |packets| == 3
    ensures AllWellFormed([p] + [q]) && GranulesSeen([p] + [q], packets) == [0, -1, packets[2].granulepos]
  {
    hide Sum, Lens, Ended, PagesEnded, GranulesSeen, PageGranules;
    var pages := [p] + [q];
    assert pages[..1] == [p] && [p][..0] == [];
    NothingSeen(packets);
    LastPage([p]);
    LastPage(pages);
    GranulesSeenStep([p], packets);
    GranulesSeenStep(pages, packets);
    OnPage(Lens(p), 0, 0);
    OnPage(Lens(q), packets[2].granulepos, 0);
    OnPage(Lens(q), packets[2].granulepos, 1);
    assert PageGranules(Lens(p), 0) == [0];
    assert PageGranules(Lens(q), packets[2].granulepos) == [-1, packets[2].granulepos];
    assert [] + [0] + [-1, packets[2].granulepos] == [0, -1, packets[2].granulepos];
  }

  lemma NothingSeen(packets: seq<Packet>)
    ensures PagesEnded([]) == 0 && GranulesSeen([], packets) == []
  {
  }
}
