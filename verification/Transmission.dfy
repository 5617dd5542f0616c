/** The objects put together: an encoding stream, a page buffer and a decoding stream, driven the way
    applications drive them. */
module Transmission {
  import opened Bytes
  import opened OggPage
  import opened Segments
  import opened Lacings
  import opened StreamFields
  import opened StreamState
  import opened SyncState
  import E = Encoder
  import D = Decoder
  import S = Sync
  import N = EncoderRuns
  import X = Reception
  import R = RoundTrip
  import L = LastFlags
  import P = Pipeline

  // ----- Sending -----

  /** A run of an encoding stream on its object: the pages are those of the run on values. */
  method Send(serialno: int, ops: seq<E.Op>) returns (pages: seq<Page>, done: bool)
    ensures var (e, ps) := E.Execute(E.Init(serialno, false), ops); pages == ps && (done <==> e.segs == [])
  {
    hide SegmentsIn, E.PacketIn, E.Flush, E.PageOut;
    var s := new OggStreamState(serialno);
    pages := [];
    for i := 0 to |ops|
      invariant s.Valid() && s.View().Encoding()
      invariant fresh(s) && fresh(s.header) && fresh(s.bodyData) && fresh(s.lacingVals) && fresh(s.granuleVals)
      invariant (s.View().Enc(), pages) == E.Execute(E.Init(serialno, false), ops[..i])
    {
      assert ops[..i + 1][..i] == ops[..i];
      var page := Serve(s, ops[i]);
      pages := pages + E.Emitted(page);
    }
    assert ops[..|ops|] == ops;
    done := s.lacingFill == 0;
  }

  /** One call on an encoding stream. */
  method Serve(s: OggStreamState, op: E.Op) returns (page: Option<Page>)
    requires s.Valid() && s.View().Encoding()
    modifies s, s.header, s.bodyData, s.lacingVals, s.granuleVals
    ensures s.Valid() && s.View().Encoding() && Sized(old(s.View().Enc()).segs)
    ensures (s.View().Enc(), page) == E.Apply(old(s.View().Enc()), op)
    ensures (s.bodyData == old(s.bodyData) || fresh(s.bodyData)) && (s.lacingVals == old(s.lacingVals) || fresh(s.lacingVals))
    ensures s.granuleVals == old(s.granuleVals) || fresh(s.granuleVals)
  {
    hide SegmentsIn, E.PacketIn, E.Flush, E.PageOut;
    ghost var f := s.View();
    f.SegsSized();
    match op
    case Submit(p) =>
      ConcatOne(p.data);
      s.IovecIn([p.data], p.eos, p.granulepos);
      page := None;
    case TryPage(nfill) => page := s.PageOutFill(nfill);
    case ForcePage(nfill) => page := s.FlushI(true, nfill);
  }

  // ----- Receiving -----

  /** The two receiving objects are in the state `r`. */
  ghost predicate Linked(sync: OggSyncState, dec: OggStreamState, r: P.Receiver)
    reads sync, sync.data, dec, dec.bodyData, dec.lacingVals, dec.granuleVals
  {
    && sync.Valid() && sync.View() == r.sync && sync.data != dec.bodyData
    && dec.Valid() && dec.View().Decoding() && dec.View().Dec() == r.dec
  }

  /** Asking for a page leaves less to scan, unless more data is needed. */
  lemma {:induction false} PullShrinks(s: S.SyncView)
    ensures !S.PageOut(s).1.NeedData? ==> |S.PageOut(s).0.unread| < |s.unread|
    decreases |s.unread|
  {
    if S.Judge(s.unread).NotAPage? && s.unsynced {
      PullShrinks(S.SyncView(s.unread[S.NextO(s.unread, 1)..], true));
    }
  }

  lemma {:induction false} PullDone(r: P.Receiver)
    requires D.Valid(r.dec)
    ensures var (sync, pulled) := S.PageOut(r.sync);
            && P.Do(r, P.Pull).sync == sync && P.Do(r, P.Pull).out == r.out
            && (pulled.Got? ==> WellFormed(pulled.page))
            && P.Do(r, P.Pull).dec == (if pulled.Got? then D.PageIn(r.dec, pulled.page).0 else r.dec)
            && P.Do(r, P.Pull).losses == r.losses + if pulled.Lost? then 1 else 0
  {
    hide S.PageOut, D.PageIn, D.Valid, WellFormed;
    P.CapturedWellFormed(r.sync);
  }

  /** Asks for a page and feeds it to the decoder. */
  method PullPage(sync: OggSyncState, dec: OggStreamState, ghost r: P.Receiver) returns (pulled: S.Pulled, ghost r': P.Receiver)
    requires Linked(sync, dec, r)
    modifies sync, sync.data, dec, dec.bodyData, dec.lacingVals, dec.granuleVals
    ensures sync.data == old(sync.data) && (dec.bodyData == old(dec.bodyData) || fresh(dec.bodyData))
    ensures dec.lacingVals == old(dec.lacingVals) || fresh(dec.lacingVals)
    ensures (dec.granuleVals == old(dec.granuleVals) || fresh(dec.granuleVals))
    ensures D.Valid(r.dec) && r' == P.Do(r, P.Pull) && Linked(sync, dec, r') && pulled == S.PageOut(r.sync).1
  {
    hide D.Valid, D.PageIn, S.PageOut, P.Do, WellFormed, SegmentsIn, Cached;
    PullDone(r);
    r' := P.Do(r, P.Pull);
    pulled := sync.PageOut();
    match pulled
    case Got(page) => var _ := dec.PageIn(page);
    case Lost =>
    case NeedData =>
  }

  lemma {:induction false} DrainDone(r: P.Receiver)
    requires D.Valid(r.dec)
    ensures var (d, event) := D.PacketOut(r.dec);
            && P.Do(r, P.Drain) == r.(dec := d, out := r.out + if event.None? then [] else [event.value])
            && (event.Some? ==> d.complete < r.dec.complete)
  {
    D.PacketOutValid(r.dec);
    if r.dec.complete > 0 {
      D.RunWithinComplete(r.dec);
    }
    hide D.Valid, Run;
  }

  /** Asks for a packet. */
  method DrainPacket(sync: OggSyncState, dec: OggStreamState, ghost r: P.Receiver) returns (event: Option<D.Event>,
                     ghost r': P.Receiver)
    requires Linked(sync, dec, r)
    modifies dec`bodyReturned, dec`lacingReturned, dec`packetno
    ensures D.Valid(r.dec) && r' == P.Do(r, P.Drain) && Linked(sync, dec, r') && event == D.PacketOut(r.dec).1
  {
    hide D.Valid, D.PacketOut, P.Do, SegmentsIn, Cached;
    DrainDone(r);
    r' := P.Do(r, P.Drain);
    var number: int;
    event, number := dec.PacketOutI(true);
  }

  /** One more step of a run. */
  lemma {:induction false} StepTaken(serialno: int, steps: seq<P.Step>, step: P.Step)
    ensures P.Perform(serialno, false, steps + [step]) == P.Do(P.Perform(serialno, false, steps), step)
    ensures P.OctetsFed(steps + [step]) == P.OctetsFed(steps) + if step.Feed? then step.chunk else []
  {
    assert (steps + [step])[..|steps|] == steps;
    hide P.Do;
  }

  /** Takes every packet that is ready. */
  method DrainAll(sync: OggSyncState, dec: OggStreamState, serialno: int, ghost steps: seq<P.Step>)
    returns (out: seq<D.Event>, ghost steps': seq<P.Step>)
    requires Linked(sync, dec, P.Perform(serialno, false, steps))
    modifies dec`bodyReturned, dec`lacingReturned, dec`packetno
    ensures Linked(sync, dec, P.Perform(serialno, false, steps')) && P.OctetsFed(steps') == P.OctetsFed(steps)
    ensures P.Perform(serialno, false, steps').sync == P.Perform(serialno, false, steps).sync
    ensures P.Perform(serialno, false, steps').losses == P.Perform(serialno, false, steps).losses
    ensures P.Perform(serialno, false, steps').out == P.Perform(serialno, false, steps).out + out
    ensures D.PacketOut(P.Perform(serialno, false, steps').dec).1.None?
  {
    hide D.Valid, D.PacketOut, P.Do, P.Perform, P.OctetsFed, Linked;
    steps', out := steps, [];
    while true
      invariant Linked(sync, dec, P.Perform(serialno, false, steps')) && P.OctetsFed(steps') == P.OctetsFed(steps)
      invariant P.Perform(serialno, false, steps').sync == P.Perform(serialno, false, steps).sync
      invariant P.Perform(serialno, false, steps').losses == P.Perform(serialno, false, steps).losses
      invariant P.Perform(serialno, false, steps').out == P.Perform(serialno, false, steps).out + out
      decreases P.Perform(serialno, false, steps').dec.complete
    {
      ghost var r := P.Perform(serialno, false, steps');
      StepTaken(serialno, steps', P.Drain);
      var event, _ := DrainPacket(sync, dec, r);
      DrainDone(r);
      steps' := steps' + [P.Drain];
      if event.None? {
        NothingMore(r.dec);
        return;
      }
      out := out + [event.value];
    }
  }

  lemma {:induction false} NothingMore(d: D.DecState)
    requires D.Valid(d) && D.PacketOut(d).1.None?
    ensures D.PacketOut(d).0 == d
  {
  }

  lemma {:induction false} ExhaustedNow(serialno: int, steps: seq<P.Step>, r: P.Receiver)
    requires D.Valid(r.dec) && S.PageOut(r.sync).1.NeedData? && D.PacketOut(r.dec).1.None?
    ensures D.Valid(P.Do(r, P.Pull).dec) && P.Exhausted(P.Do(r, P.Pull))
  {
    hide D.Valid, D.PacketOut, S.PageOut, P.Do;
    PullDone(r);
    S.NeedDataMeansDrained(r.sync);
    StaysDrained(S.PageOut(r.sync).0);
  }

  lemma StaysDrained(s: S.SyncView)
    requires S.Judge(s.unread).Incomplete?
    ensures S.PageOut(s).1.NeedData?
  {
  }

  /** Takes every page and packet that is ready; also counts the losses of synchronisation reported. */
  method PullAll(sync: OggSyncState, dec: OggStreamState, serialno: int, ghost steps: seq<P.Step>)
    returns (out: seq<D.Event>, losses: nat, ghost steps': seq<P.Step>)
    requires Linked(sync, dec, P.Perform(serialno, false, steps))
    modifies sync, sync.data, dec, dec.bodyData, dec.lacingVals, dec.granuleVals
    ensures sync.data == old(sync.data) && (dec.bodyData == old(dec.bodyData) || fresh(dec.bodyData))
    ensures dec.lacingVals == old(dec.lacingVals) || fresh(dec.lacingVals)
    ensures (dec.granuleVals == old(dec.granuleVals) || fresh(dec.granuleVals))
    ensures var r, r' := P.Perform(serialno, false, steps), P.Perform(serialno, false, steps');
            && Linked(sync, dec, r') && P.OctetsFed(steps') == P.OctetsFed(steps) && P.Exhausted(r')
            && r'.out == r.out + out && r'.losses == r.losses + losses
  {
    hide D.Valid, D.PacketOut, P.Do, P.Perform, P.OctetsFed, P.Exhausted, Linked, S.PageOut;
    losses := 0;
    out, steps' := DrainAll(sync, dec, serialno, steps);
    while true
      invariant sync.data == old(sync.data) && (dec.bodyData == old(dec.bodyData) || fresh(dec.bodyData))
      invariant dec.lacingVals == old(dec.lacingVals) || fresh(dec.lacingVals)
      invariant (dec.granuleVals == old(dec.granuleVals) || fresh(dec.granuleVals))
      invariant Linked(sync, dec, P.Perform(serialno, false, steps')) && P.OctetsFed(steps') == P.OctetsFed(steps)
      invariant D.PacketOut(P.Perform(serialno, false, steps').dec).1.None?
      invariant P.Perform(serialno, false, steps').out == P.Perform(serialno, false, steps).out + out
      invariant P.Perform(serialno, false, steps').losses == P.Perform(serialno, false, steps).losses + losses
      decreases |P.Perform(serialno, false, steps').sync.unread|
    {
      ghost var r := P.Perform(serialno, false, steps');
      StepTaken(serialno, steps', P.Pull);
      PullShrinks(r.sync);
      var pulled, _ := PullPage(sync, dec, r);
      PullDone(r);
      steps' := steps' + [P.Pull];
      match pulled
      case NeedData =>
        ExhaustedNow(serialno, steps', r);
        return;
      case Lost =>
        losses := losses + 1;
      case Got(page) =>
        var more;
        more, steps' := DrainAll(sync, dec, serialno, steps');
        out := out + more;
    }
  }

  /** Passes a chunk on. */
  method FeedChunk(sync: OggSyncState, dec: OggStreamState, chunk: seq<byte>, ghost r: P.Receiver) returns (ghost r': P.Receiver)
    requires Linked(sync, dec, r)
    modifies sync`data, sync`fill, sync`returned, sync.data
    ensures D.Valid(r.dec) && r' == P.Do(r, P.Feed(chunk)) && Linked(sync, dec, r') && r'.out == r.out && r'.losses == r.losses
    ensures sync.data == old(sync.data) || fresh(sync.data)
  {
    hide D.Valid, SegmentsIn, Cached;
    r' := P.Do(r, P.Feed(chunk));
    sync.Deliver(chunk);
  }

  /** Receives a stream in chunks: after each, everything that is ready is taken. */
  method Receive(serialno: int, chunks: seq<seq<byte>>) returns (out: seq<D.Event>, losses: nat, ghost steps: seq<P.Step>)
    ensures var r := P.Perform(serialno, false, steps);
            && P.OctetsFed(steps) == Concat(chunks) && P.Exhausted(r) && out == r.out && losses == r.losses
  {
    hide D.Valid, D.PacketOut, P.Do, P.OctetsFed, P.Exhausted, Linked, S.PageOut;
    var sync := new OggSyncState();
    var dec := new OggStreamState(serialno);
    steps := [];
    LinkedStart(sync, dec, serialno);
    hide P.Perform;
    out, losses, steps := PullAll(sync, dec, serialno, []);
    for i := 0 to |chunks|
      invariant fresh(sync) && fresh(sync.data) && fresh(dec) && fresh(dec.bodyData) && fresh(dec.lacingVals)
          && fresh(dec.granuleVals)
      invariant Linked(sync, dec, P.Perform(serialno, false, steps)) && P.Exhausted(P.Perform(serialno, false, steps))
      invariant P.OctetsFed(steps) == Concat(chunks[..i])
      invariant out == P.Perform(serialno, false, steps).out && losses == P.Perform(serialno, false, steps).losses
    {
      assert chunks[..i + 1][..i] == chunks[..i];
      ghost var r := P.Perform(serialno, false, steps);
      StepTaken(serialno, steps, P.Feed(chunks[i]));
      var _ := FeedChunk(sync, dec, chunks[i], r);
      steps := steps + [P.Feed(chunks[i])];
      var more, n;
      more, n, steps := PullAll(sync, dec, serialno, steps);
      out, losses := out + more, losses + n;
    }
    assert chunks[..|chunks|] == chunks;
  }

  lemma {:induction false} LinkedStart(sync: OggSyncState, dec: OggStreamState, serialno: int)
    requires sync.Valid() && sync.View() == S.SyncView([], false) && sync.data != dec.bodyData
    requires dec.Valid() && dec.View().Decoding() && dec.View().Dec() == D.Init(serialno, false)
    ensures Linked(sync, dec, P.Perform(serialno, false, [])) && P.OctetsFed([]) == [] && P.Perform(serialno, false, []).out == []
    ensures P.Perform(serialno, false, []).losses == 0
  {
  }

  // ----- Both ends -----

  /** The pages' octets, in order. */
  method Serialise(pages: seq<Page>) returns (octets: seq<byte>)
    ensures octets == P.Wire(pages, R.AllArrive(|pages|))
  {
    octets := [];
    var i := |pages|;
    while i > 0
      invariant 0 <= i <= |pages| && octets == P.Wire(pages[i..], R.AllArrive(|pages| - i))
    {
      i := i - 1;
      assert pages[i..][1..] == pages[i + 1..];
      assert R.AllArrive(|pages| - i)[1..] == R.AllArrive(|pages| - i - 1);
      octets := pages[i].header + pages[i].body + octets;
    }
    assert pages[0..] == pages;
  }

  /** Cuts a string into pieces of the given sizes, and the rest. */
  method Cut(octets: seq<byte>, sizes: seq<nat>) returns (chunks: seq<seq<byte>>)
    ensures Concat(chunks) == octets
  {
    chunks := [];
    var at := 0;
    for i := 0 to |sizes|
      invariant at <= |octets| && Concat(chunks) == octets[..at]
    {
      var next := if at + sizes[i] <= |octets| then at + sizes[i] else |octets|;
      ConcatAppend(chunks, [octets[at..next]]);
      ConcatOne(octets[at..next]);
      assert octets[..at] + octets[at..next] == octets[..next];
      chunks := chunks + [octets[at..next]];
      at := next;
    }
    ConcatAppend(chunks, [octets[at..]]);
    ConcatOne(octets[at..]);
    SliceJoin(octets, at);
    chunks := chunks + [octets[at..]];
  }

  /** Packets go into the encoding stream, its pages' octets into the page buffer in pieces of any sizes, and
      the pages found there into a decoding stream. When the encoder was left with nothing pending, the packets
      that come out are those that went in, and synchronisation is never reported lost. */
  method Transmit(serialno: int, ops: seq<E.Op>, sizes: seq<nat>) returns (out: seq<D.Event>, losses: nat, done: bool)
    requires N.Encodable(E.Submitted(ops)) && Int32(serialno)
    requires |E.Execute(E.Init(serialno, false), ops).1| <= TWO31
    ensures done <==> E.Execute(E.Init(serialno, false), ops).0.segs == []
    ensures done ==>
              var (packets, pages) := (E.Submitted(ops), X.Encoded(serialno, false, ops).1);
              && losses == 0 && |R.GranulesSeen(pages, packets)| == |L.LastsSeen(pages)| == |packets|
              && out == R.Returned(packets, true, L.LastsSeen(pages), R.GranulesSeen(pages, packets))
  {
    hide N.Reached, E.Execute, P.Perform, P.OctetsFed, P.Exhausted, P.Wire, R.GranulesSeen, R.Returned, L.LastsSeen;
    var pages: seq<Page>;
    pages, done := Send(serialno, ops);
    var octets := Serialise(pages);
    var chunks := Cut(octets, sizes);
    ghost var steps;
    out, losses, steps := Receive(serialno, chunks);
    if done {
      P.RoundTripTheorem(serialno, false, ops, false, steps);
    }
  }
}
