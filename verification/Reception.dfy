/** Whole receptions: any loss pattern, any interleaving of arriving pages and drained packets. */
module Reception {
  import opened Bytes
  import opened OggPage
  import opened Segments
  import opened Framing
  import opened Encoder
  import opened EncoderRuns
  import D = Decoder
  import opened Delivery
  import opened Loss

  /** An event takes whole packets off the front, and nothing else. */
  lemma {:induction false} EventTaken(d: D.DecState) returns (n: nat)
    requires D.Valid(d) && D.PacketOut(d).1.Some?
    ensures var d' := D.PacketOut(d).0;
            && n <= d.complete <= |d.segs| && d'.segs == d.segs[n..] && d'.complete == d.complete - n && d'.pageno == d.pageno
            && D.Valid(d')
  {
    hide Run, D.PacketOf, D.OpenFrom, D.MarkersPlaced, D.Boundary, Sized;
    D.PacketOutValid(d);
    D.RunWithinComplete(d);
    n := d.complete - D.PacketOut(d).0.complete;
  }

  /** Draining returns the next event and keeps the invariant. */
  lemma {:induction false} DrainStep(d: D.DecState, out: seq<D.Event>, pages: seq<Page>, delivered: seq<bool>, reset: bool)
    requires Tracks(d, out, pages, delivered, reset)
    ensures match D.PacketOut(d).1
            case None => D.PacketOut(d).0 == d && Events(d.segs) == []
            case Some(event) => Tracks(D.PacketOut(d).0, out + [event], pages, delivered, reset)
  {
    hide AllWellFormed, OpenPart, Tags, Account, NextPage, Events, D.PacketOut, D.Valid, InStep;
    PacketOutNext(d);
    var (d', event) := D.PacketOut(d);
    if event.Some? {
      var n := EventTaken(d);
      Assoc(out, [event.value], Events(d'.segs));
      if d.pageno == |pages| {
        DrainInStep(d.segs, d.complete, n, OpenPart(Tags(pages, delivered)));
      }
    }
  }

  lemma {:induction false} DrainInStep(segs: seq<Segment>, complete: nat, n: nat, open: seq<Tagged>)
    requires n <= complete <= |segs| && InStep(segs, complete, open)
    ensures InStep(segs[n..], complete - n, open)
  {
    hide AllOk, Segs;
    DropDrop(segs, n, complete - n);
  }

  datatype Action = Arrive | Drain

  /** The decoder, how many pages have arrived or been lost, and what was returned. */
  datatype Rx = Rx(d: D.DecState, next: nat, out: seq<D.Event>)

  /** One action: the next page is fed in if it is delivered, or `packetout` is called. */
  ghost function Act(rx: Rx, pages: seq<Page>, delivered: seq<bool>, action: Action): (r: Rx)
    requires AllWellFormed(pages) && |delivered| == |pages| && D.Valid(rx.d) && rx.next <= |pages|
    ensures D.Valid(r.d) && r.next <= |pages|
  {
    match action
    case Arrive =>
      if rx.next == |pages| then rx
      else if !delivered[rx.next] then rx.(next := rx.next + 1)
      else
        D.PageInValid(rx.d, pages[rx.next]);
        rx.(d := D.PageIn(rx.d, pages[rx.next]).0, next := rx.next + 1)
    case Drain =>
      D.PacketOutValid(rx.d);
      var (d', event) := D.PacketOut(rx.d);
      rx.(d := d', out := rx.out + if event.None? then [] else [event.value])
  }

  ghost function Receive(serialno: int, reset: bool, pages: seq<Page>, delivered: seq<bool>, actions: seq<Action>): (r: Rx)
    requires AllWellFormed(pages) && |delivered| == |pages|
    ensures D.Valid(r.d) && r.next <= |pages|
  {
    if |actions| == 0 then Rx(D.Init(serialno, reset), 0, [])
    else Act(Receive(serialno, reset, pages, delivered, actions[..|actions| - 1]), pages, delivered, actions[|actions| - 1])
  }

  lemma {:induction false} ActTracks(rx: Rx, serialno: int, reset: bool, pages: seq<Page>, delivered: seq<bool>, action: Action)
    requires InSequence(pages, serialno) && |pages| <= TWO31 && |delivered| == |pages|
    requires D.Valid(rx.d) && rx.next <= |pages|
    requires rx.d.serialno == serialno && Tracks(rx.d, rx.out, pages[..rx.next], delivered[..rx.next], reset)
    ensures var rx' := Act(rx, pages, delivered, action);
            rx'.d.serialno == serialno && Tracks(rx'.d, rx'.out, pages[..rx'.next], delivered[..rx'.next], reset)
  {
    hide Tracks, D.PageIn, D.PacketOut, D.Valid, PageInSequence, WellFormed;
    match action
    case Arrive =>
      if rx.next < |pages| {
        var k := rx.next;
        assert pages[..k + 1] == pages[..k] + [pages[k]] && delivered[..k + 1] == delivered[..k] + [delivered[k]];
        InSequencePrefix(pages, serialno, k + 1);
        if delivered[k] {
          DeliveredStep(rx.d, rx.out, pages[..k], delivered[..k], reset, pages[k]);
        } else {
          LostStep(rx.d, rx.out, pages[..k], delivered[..k], reset, pages[k]);
        }
      }
    case Drain =>
      DrainStep(rx.d, rx.out, pages[..rx.next], delivered[..rx.next], reset);
      assert rx.out + [] == rx.out;
  }

  lemma {:induction false} ReceiveTracks(serialno: int, reset: bool, pages: seq<Page>, delivered: seq<bool>, actions: seq<Action>)
    requires InSequence(pages, serialno) && |pages| <= TWO31 && |delivered| == |pages|
    ensures var rx := Receive(serialno, reset, pages, delivered, actions);
            rx.d.serialno == serialno && Tracks(rx.d, rx.out, pages[..rx.next], delivered[..rx.next], reset)
  {
    hide Tracks, Act, PageInSequence, WellFormed;
    if actions == [] {
      InitTracks(serialno, reset);
      assert pages[..0] == [] && delivered[..0] == [];
    } else {
      var n := |actions| - 1;
      ReceiveTracks(serialno, reset, pages, delivered, actions[..n]);
      ActTracks(Receive(serialno, reset, pages, delivered, actions[..n]), serialno, reset, pages, delivered, actions[n]);
    }
  }

  /** Loss exactness: once every page has arrived or been lost and the decoder is drained, it has returned the
      account of what was delivered: exactly the packets all of whose segments arrived, in order and with their
      flags and granule positions, and one gap for each maximal run of lost pages, placed before the packets
      that end on the page after it. */
  lemma {:induction false} LossExact(serialno: int, reset: bool, pages: seq<Page>, delivered: seq<bool>, actions: seq<Action>)
    requires InSequence(pages, serialno) && |pages| <= TWO31 && |delivered| == |pages|
    requires var rx := Receive(serialno, reset, pages, delivered, actions); rx.next == |pages| && D.PacketOut(rx.d).1.None?
    ensures var rx := Receive(serialno, reset, pages, delivered, actions);
            && rx.out == Account(pages, delivered, reset)
            && Packets(rx.out) == Survivors(Tags(pages, delivered))
            && Gaps(rx.out) == GapCount(delivered, reset)
  {
    hide PageInSequence, D.PacketOut, InStep, OpenPart, Tags, Survivors, GapCount, NextPage, Receive, WellFormed, Account,
      Packets, Gaps;
    var rx := Receive(serialno, reset, pages, delivered, actions);
    ReceiveTracks(serialno, reset, pages, delivered, actions);
    assert pages[..|pages|] == pages && delivered[..|pages|] == delivered;
    DrainStep(rx.d, rx.out, pages, delivered, reset);
    assert rx.out + [] == rx.out;
    AccountCounts(pages, delivered, reset);
  }

  // ----- In terms of the packets submitted -----

  function DataOf(events: seq<D.Event>): (s: seq<seq<byte>>)
    ensures |s| == |events|
  {
    seq(|events|, i requires 0 <= i < |events| => if events[i].Gap? then [] else events[i].data)
  }

  function Fates(ts: seq<Tagged>): (f: seq<bool>)
    ensures |f| == |ts|
    ensures forall i :: 0 <= i < |ts| ==> f[i] == ts[i].ok
  {
    seq(|ts|, i requires 0 <= i < |ts| => ts[i].ok)
  }

  function SegmentCount(p: Packet): (n: nat)
    ensures n > 0
  {
    |p.data| / 255 + 1
  }

  predicate AllTrue(f: seq<bool>) {
    forall i :: 0 <= i < |f| ==> f[i]
  }

  /** The packets all of whose segments have the fate `true`; `fates` has one flag per segment, in order. */
  function Intact(packets: seq<Packet>, fates: seq<bool>): seq<seq<byte>> {
    if packets == [] then [] else
      var n := SegmentCount(packets[0]);
      if n > |fates| then [] else
        (if AllTrue(fates[..n]) then [packets[0].data] else []) + Intact(packets[1..], fates[n..])
  }

  lemma {:induction false} AllChunksFront(p: Packet, packets: seq<Packet>)
    ensures AllChunks([p] + packets) == Chunks(p.data) + AllChunks(packets)
  {
    hide Chunks;
    var all := [p] + packets;
    if packets == [] {
      assert all == [p] && [p][..0] == [];
      assert AllChunks([p]) == AllChunks([]) + Chunks(p.data);
    } else {
      var n := |packets| - 1;
      AllChunksFront(p, packets[..n]);
      assert all[..|all| - 1] == [p] + packets[..n];
      Assoc(Chunks(p.data), AllChunks(packets[..n]), Chunks(packets[n].data));
    }
  }

  /** The segments of one packet form one run. */
  lemma {:induction false} PacketRun(ts: seq<Tagged>, data: seq<byte>)
    requires Datas(Segs(ts)) == Chunks(data)
    ensures ts != [] && Run(Segs(ts)) == |ts| && Ends(Segs(ts)[|ts| - 1])
    ensures Body(Segs(ts)) == data
  {
    ChunksJoin(data);
    var s := Segs(ts);
    assert forall i :: 0 <= i < |s| ==> s[i].data == Datas(s)[i];
    assert NoEnds(s[..|s| - 1]) && Ends(s[|s| - 1]);
    hide Chunks;
    SliceJoin(s, |s| - 1);
    RunAcross(s[..|s| - 1], s[|s| - 1..]);
  }

  lemma {:induction false} PacketSurvives(ts: seq<Tagged>, data: seq<byte>)
    requires Datas(Segs(ts)) == Chunks(data)
    ensures Closed(Segs(ts))
    ensures DataOf(Survivors(ts)) == if AllOk(ts) then [data] else []
  {
    PacketRun(ts, data);
    SurvivorsStep(ts, |ts|);
    assert ts[..|ts|] == ts && ts[|ts|..] == [];
    OpenSurvivors([]);
    assert Survivor(ts) + [] == Survivor(ts);
  }

  lemma {:induction false} DataOfAppend(a: seq<D.Event>, b: seq<D.Event>)
    ensures DataOf(a + b) == DataOf(a) + DataOf(b)
  {
  }

  /** The fate of each packet: did all its segments arrive? */
  function PacketFates(packets: seq<Packet>, fates: seq<bool>): (f: seq<bool>)
    ensures |f| == |packets|
  {
    if packets == [] then [] else
      var n := SegmentCount(packets[0]);
      if n > |fates| then seq(|packets|, _ => false) else [AllTrue(fates[..n])] + PacketFates(packets[1..], fates[n..])
  }

  /** The runs of tagged segments are the packets. */
  lemma {:induction false} RunFatesAre(ts: seq<Tagged>, packets: seq<Packet>)
    requires Datas(Segs(ts)) == AllChunks(packets)
    ensures RunFates(ts) == PacketFates(packets, Fates(ts))
    decreases |packets|
  {
    if packets == [] {
      assert ts == [];
    } else {
      hide AllChunks, Fates, RunFates, PacketFates, Segs, Datas, AllTrue, AllOk, Chunks;
      var n := SegmentCount(packets[0]);
      FrontPacket(ts, packets);
      SliceJoin(ts, n);
      PacketRun(ts[..n], packets[0].data);
      FrontFate(ts[..n], ts[n..]);
      RunFatesAre(ts[n..], packets[1..]);
      FatesStep(packets, ts, n);
    }
  }

  lemma {:induction false} FrontFate(run: seq<Tagged>, rest: seq<Tagged>)
    requires run != [] && Run(Segs(run)) == |run| && Ends(Segs(run)[|run| - 1])
    ensures RunFates(run + rest) == [AllOk(run)] + RunFates(rest)
  {
    SegsAppend(run, rest);
    RunPrefix(Segs(run), Segs(rest));
    assert (run + rest)[..|run|] == run && (run + rest)[|run|..] == rest;
    hide Run, AllOk;
  }

  lemma {:induction false} FatesStep(packets: seq<Packet>, ts: seq<Tagged>, n: nat)
    requires packets != [] && n == SegmentCount(packets[0]) <= |ts|
    ensures PacketFates(packets, Fates(ts)) == [AllOk(ts[..n])] + PacketFates(packets[1..], Fates(ts[n..]))
  {
    assert Fates(ts)[..n] == Fates(ts[..n]) && Fates(ts)[n..] == Fates(ts[n..]);
    assert AllTrue(Fates(ts[..n])) == AllOk(ts[..n]);
  }

  /** Grouping the segments of submitted packets gives back the packets. */
  lemma {:induction false} SurvivorsAreIntact(ts: seq<Tagged>, packets: seq<Packet>)
    requires Datas(Segs(ts)) == AllChunks(packets)
    ensures DataOf(Survivors(ts)) == Intact(packets, Fates(ts))
    decreases |packets|
  {
    if packets == [] {
      OpenSurvivors(ts);
    } else {
      hide Survivors, AllChunks, Fates, Intact, DataOf, Segs, Datas, AllTrue, AllOk, Chunks;
      var p, rest := packets[0], packets[1..];
      var n := SegmentCount(p);
      FrontPacket(ts, packets);
      SliceJoin(ts, n);
      PacketSurvives(ts[..n], p.data);
      SurvivorsAppend(ts[..n], ts[n..]);
      DataOfAppend(Survivors(ts[..n]), Survivors(ts[n..]));
      SurvivorsAreIntact(ts[n..], rest);
      IntactStep(packets, ts, n);
    }
  }

  lemma {:induction false} FrontPacket(ts: seq<Tagged>, packets: seq<Packet>)
    requires packets != [] && Datas(Segs(ts)) == AllChunks(packets)
    ensures var n := SegmentCount(packets[0]);
            && n <= |ts|
            && Datas(Segs(ts[..n])) == Chunks(packets[0].data)
            && Datas(Segs(ts[n..])) == AllChunks(packets[1..])
  {
    var p, rest := packets[0], packets[1..];
    SliceJoin(packets, 1);
    assert packets[..1] == [p];
    AllChunksFront(p, rest);
    SplitDatas(Segs(ts), Chunks(p.data), AllChunks(rest));
    SegsSlice(ts, SegmentCount(p));
  }

  lemma {:induction false} IntactStep(packets: seq<Packet>, ts: seq<Tagged>, n: nat)
    requires packets != [] && n == SegmentCount(packets[0]) <= |ts|
    ensures Intact(packets, Fates(ts))
            == (if AllOk(ts[..n]) then [packets[0].data] else []) + Intact(packets[1..], Fates(ts[n..]))
  {
    assert Fates(ts)[..n] == Fates(ts[..n]) && Fates(ts)[n..] == Fates(ts[n..]);
    assert AllTrue(Fates(ts[..n])) == AllOk(ts[..n]);
  }

  lemma {:induction false} SplitDatas(segs: seq<Segment>, a: seq<seq<byte>>, b: seq<seq<byte>>)
    requires Datas(segs) == a + b
    ensures Datas(segs[..|a|]) == a && Datas(segs[|a|..]) == b
  {
    assert |segs| == |a| + |b|;
    assert Datas(segs[..|a|]) == Datas(segs)[..|a|] && Datas(segs[|a|..]) == Datas(segs)[|a|..];
  }

  /** The outcome of an encoder run, known to be a page sequence. */
  ghost function Encoded(serialno: int, reset: bool, ops: seq<Op>): (r: (EncState, seq<Page>))
    requires Encodable(Submitted(ops)) && Int32(serialno)
    ensures InSequence(r.1, serialno) && Reached(r.0, r.1, Submitted(ops), serialno)
  {
    RunReached(serialno, reset, ops);
    Execute(Encoder.Init(serialno, reset), ops)
  }

  /** One flag per segment on the pages: is its page delivered? */
  function SegmentFates(pages: seq<Page>, delivered: seq<bool>): seq<bool>
    requires AllWellFormed(pages) && |delivered| == |pages|
  {
    if |pages| == 0 then [] else
      var n := |pages| - 1;
      SegmentFates(pages[..n], delivered[..n]) + seq(|Lens(pages[n])|, _ => delivered[n])
  }

  lemma {:induction false} FatesOfTags(pages: seq<Page>, delivered: seq<bool>)
    requires AllWellFormed(pages) && |delivered| == |pages|
    ensures Fates(Tags(pages, delivered)) == SegmentFates(pages, delivered)
  {
    hide WellFormed, MarkedSegments, Lens;
    if pages != [] {
      var n := |pages| - 1;
      FatesOfTags(pages[..n], delivered[..n]);
      FatesAppend(Tags(pages[..n], delivered[..n]), TagAll(MarkedSegments(pages[n]), delivered[n]));
      FatesAll(MarkedSegments(pages[n]), delivered[n]);
    }
  }

  lemma {:induction false} FatesAppend(a: seq<Tagged>, b: seq<Tagged>)
    ensures Fates(a + b) == Fates(a) + Fates(b)
  {
  }

  lemma {:induction false} FatesAll(segs: seq<Segment>, ok: bool)
    ensures Fates(TagAll(segs, ok)) == seq(|segs|, _ => ok)
  {
  }

  lemma {:induction false} DatasAppend(a: seq<Segment>, b: seq<Segment>)
    ensures Datas(a + b) == Datas(a) + Datas(b)
  {
  }

  lemma {:induction false} MarkedDatas(p: Page)
    requires WellFormed(p)
    ensures Datas(MarkedSegments(p)) == PageChunks(p)
  {
    var m, s := MarkedSegments(p), D.PageSegments(p);
    assert forall i :: 0 <= i < |m| ==> m[i].data == s[i].data;
  }

  /** The tagged segments carry the pages' data. */
  lemma {:induction false} TagsDatas(pages: seq<Page>, delivered: seq<bool>)
    requires AllWellFormed(pages) && |delivered| == |pages|
    ensures Datas(Segs(Tags(pages, delivered))) == PagesChunks(pages)
  {
    hide WellFormed, MarkedSegments, PageChunks, Segs, Datas, TagAll;
    if pages == [] {
      EmptyDatas();
    } else {
      var n := |pages| - 1;
      var m := MarkedSegments(pages[n]);
      TagsDatas(pages[..n], delivered[..n]);
      MarkedDatas(pages[n]);
      SegsOfTags(m, delivered[n], 0);
      SegsAppend(Tags(pages[..n], delivered[..n]), TagAll(m, delivered[n]));
      DatasAppend(Segs(Tags(pages[..n], delivered[..n])), m);
    }
  }

  lemma EmptyDatas()
    ensures Datas(Segs([])) == []
  {
  }

  lemma {:induction false} SurvivorsOfRun(e: EncState, pages: seq<Page>, packets: seq<Packet>, delivered: seq<bool>)
    requires Conserved(e.segs, pages, packets) && |delivered| == |pages|
    ensures DataOf(Survivors(Tags(pages, delivered)))
            == Intact(packets, SegmentFates(pages, delivered) + seq(|e.segs|, _ => false))
  {
    hide WellFormed, Tags, Segs, Datas, TagAll, Survivors, Intact, Fates, DataOf;
    var ts, x := Tags(pages, delivered), TagAll(e.segs, false);
    TagsDatas(pages, delivered);
    SegsOfTags(e.segs, false, 0);
    SegsAppend(ts, x);
    DatasAppend(Segs(ts), e.segs);
    LostSurvivors(ts, e.segs);
    SurvivorsAreIntact(ts + x, packets);
    FatesOfTags(pages, delivered);
    FatesAppend(ts, x);
    FatesAll(e.segs, false);
  }
}
