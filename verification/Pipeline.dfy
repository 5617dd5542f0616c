/** Encoder, octet stream, page capture and decoder together. */
module Pipeline {
  import opened Bytes
  import opened OggPage
  import opened Framing
  import opened Encoder
  import opened EncoderRuns
  import D = Decoder
  import opened Delivery
  import opened Loss
  import opened Reception
  import opened RoundTrip
  import opened LastFlags
  import S = Sync

  /** What the receiving application does next: pass on some octets, ask for a page (and feed it to the
      decoder), or ask for a packet. */
  datatype Step = Feed(chunk: seq<byte>) | Pull | Drain

  /** The receiving side: page capture, decoder, what was returned, and the losses of synchronisation reported. */
  datatype Receiver = Receiver(sync: S.SyncView, dec: D.DecState, out: seq<D.Event>, losses: nat)

  lemma {:induction false} CapturedWellFormed(s: S.SyncView)
    ensures S.PageOut(s).1.Got? ==> WellFormed(S.PageOut(s).1.page)
    decreases |s.unread|
  {
    hide Checksum, CAPTURE, Sum;
    match S.Judge(s.unread)
    case Incomplete =>
    case PageHere(n) =>
      var u, h := s.unread, S.HeaderSize(s.unread);
      assert u[..h][27..] == u[27..h];
    case NotAPage =>
      if s.unsynced {
        CapturedWellFormed(S.SyncView(s.unread[S.NextO(s.unread, 1)..], true));
      }
  }

  ghost function Do(r: Receiver, step: Step): (r': Receiver)
    requires D.Valid(r.dec)
    ensures D.Valid(r'.dec)
  {
    match step
    case Feed(c) => r.(sync := r.sync.(unread := r.sync.unread + c))
    case Pull =>
      CapturedWellFormed(r.sync);
      var (sync, pulled) := S.PageOut(r.sync);
      (match pulled
       case Got(page) => D.PageInValid(r.dec, page); r.(sync := sync, dec := D.PageIn(r.dec, page).0)
       case Lost => r.(sync := sync, losses := r.losses + 1)
       case NeedData => r.(sync := sync))
    case Drain =>
      D.PacketOutValid(r.dec);
      var (d', event) := D.PacketOut(r.dec);
      r.(dec := d', out := r.out + if event.None? then [] else [event.value])
  }

  ghost function Perform(serialno: int, reset: bool, steps: seq<Step>): (r: Receiver)
    ensures D.Valid(r.dec)
  {
    if |steps| == 0 then Receiver(S.SyncView([], false), D.Init(serialno, reset), [], 0)
    else Do(Perform(serialno, reset, steps[..|steps| - 1]), steps[|steps| - 1])
  }

  /** In every run of a receiver the packet counter counts what was returned, packets and gaps alike. */
  lemma {:induction false} ReturnedCounted(serialno: int, reset: bool, steps: seq<Step>)
    ensures var r := Perform(serialno, reset, steps); r.dec.serialno == serialno && r.dec.packetno == |r.out|
  {
    hide D.Valid;
    if steps != [] {
      var r := Perform(serialno, reset, steps[..|steps| - 1]);
      ReturnedCounted(serialno, reset, steps[..|steps| - 1]);
      StepCounted(r, steps[|steps| - 1]);
    }
  }

  lemma {:induction false} StepCounted(r: Receiver, step: Step)
    requires D.Valid(r.dec)
    ensures var r' := Do(r, step);
            r'.dec.serialno == r.dec.serialno && r'.dec.packetno - r.dec.packetno == |r'.out| - |r.out|
  {
    hide D.Valid, D.PageIn, D.PacketOf, S.PageOut, S.PageAt;
    if step.Pull? && S.PageOut(r.sync).1.Got? {
      CapturedWellFormed(r.sync);
      CompleteBound(r.dec);
      D.PageRefused(r.dec, S.PageOut(r.sync).1.page);
    }
  }

  lemma CompleteBound(d: D.DecState)
    requires D.Valid(d)
    ensures d.complete <= |d.segs|
  {
  }

  function OctetsFed(steps: seq<Step>): seq<byte> {
    if |steps| == 0 then [] else
      OctetsFed(steps[..|steps| - 1]) + match steps[|steps| - 1] case Feed(c) => c case _ => []
  }

  /** The octets of the pages that are delivered. */
  function Wire(pages: seq<Page>, delivered: seq<bool>): seq<byte>
    requires |delivered| == |pages|
  {
    if pages == [] then []
    else (if delivered[0] then S.Octets(pages[0]) else []) + Wire(pages[1..], delivered[1..])
  }

  /** The receiver has dealt with the first `k` pages, and the rest of the wire is still to come. */
  ghost predicate OnTrack(r: Receiver, rest: seq<byte>, k: nat, pages: seq<Page>, delivered: seq<bool>, serialno: int,
                          reset: bool) {
    && k <= |pages| == |delivered|
    && r.losses == 0 && r.dec.serialno == serialno
    && Tracks(r.dec, r.out, pages[..k], delivered[..k], reset)
    && r.sync.unread + rest == Wire(pages[k..], delivered[k..])
  }

  lemma {:induction false} WireStep(pages: seq<Page>, delivered: seq<bool>, k: nat)
    requires k < |pages| == |delivered|
    ensures Wire(pages[k..], delivered[k..])
            == (if delivered[k] then S.Octets(pages[k]) else []) + Wire(pages[k + 1..], delivered[k + 1..])
  {
    assert pages[k..][1..] == pages[k + 1..] && delivered[k..][1..] == delivered[k + 1..];
  }

  lemma {:induction false} NextLost(r: Receiver, rest: seq<byte>, k: nat, pages: seq<Page>, delivered: seq<bool>,
                                    serialno: int, reset: bool)
    requires InSequence(pages, serialno) && OnTrack(r, rest, k, pages, delivered, serialno, reset)
    requires k < |pages| && !delivered[k]
    ensures OnTrack(r, rest, k + 1, pages, delivered, serialno, reset)
  {
    hide Tracks, WellFormed, PageInSequence, S.Octets;
    WireStep(pages, delivered, k);
    assert pages[..k + 1] == pages[..k] + [pages[k]] && delivered[..k + 1] == delivered[..k] + [delivered[k]];
    LostStep(r.dec, r.out, pages[..k], delivered[..k], reset, pages[k]);
    assert [] + Wire(pages[k + 1..], delivered[k + 1..]) == Wire(pages[k + 1..], delivered[k + 1..]);
  }

  lemma {:induction false} CaptureNext(s: S.SyncView, rest: seq<byte>, p: Page, tail: seq<byte>)
    requires S.Genuine(p) && s.unread + rest == S.Octets(p) + tail
    ensures var (s', pulled) := S.PageOut(s);
            if S.Judge(s.unread).Incomplete? then s' == s && pulled == S.NeedData && rest != []
            else pulled == S.Got(p) && s'.unread + rest == tail
  {
    hide S.Genuine, S.Octets, S.Judge, S.PageAt;
    var u, n := s.unread, |S.Octets(p)|;
    assert u <= S.Octets(p) + tail;
    S.GenuinePrefix(p, tail, u);
    if S.Judge(u).Incomplete? {
      S.GenuineJudged(p, tail);
      assert rest == [] ==> u + rest == u;
    } else {
      SliceAppend(u, rest, n);
      DropAppend(S.Octets(p), tail, 0);
      SliceAll(tail, []);
    }
  }

  lemma {:induction false} TracksNext(d: D.DecState, out: seq<D.Event>, k: nat, pages: seq<Page>, delivered: seq<bool>,
                                      serialno: int, reset: bool)
    requires InSequence(pages, serialno) && k < |pages| == |delivered| && |pages| <= TWO31
    requires d.serialno == serialno && Tracks(d, out, pages[..k], delivered[..k], reset) && delivered[k]
    ensures D.Valid(d) && WellFormed(pages[k])
    ensures Tracks(D.PageIn(d, pages[k]).0, out, pages[..k + 1], delivered[..k + 1], reset)
  {
    hide PageInSequence, WellFormed, D.PageIn, Tracks, D.Valid;
    TracksValid(d, out, pages[..k], delivered[..k], reset);
    InSequencePrefix(pages, serialno, k + 1);
    assert pages[..k + 1] == pages[..k] + [pages[k]] && delivered[..k + 1] == delivered[..k] + [true];
    DeliveredStep(d, out, pages[..k], delivered[..k], reset, pages[k]);
  }

  lemma {:induction false} DoPull(r: Receiver)
    requires D.Valid(r.dec)
    ensures var (sync, pulled) := S.PageOut(r.sync);
            && (pulled.Got? ==> WellFormed(pulled.page) && Do(r, Pull) == r.(sync := sync, dec := D.PageIn(r.dec, pulled.page).0))
            && (pulled.NeedData? ==> Do(r, Pull) == r.(sync := sync))
  {
    hide S.PageOut, D.PageIn, D.Valid, WellFormed;
    CapturedWellFormed(r.sync);
  }

  lemma {:induction false} GenuineAt(pages: seq<Page>, k: nat, serialno: int)
    requires InSequence(pages, serialno) && k < |pages|
    ensures S.Genuine(pages[k])
  {
    assert PageInSequence(pages, k, serialno);
  }

  lemma {:induction false} NextArrives(r: Receiver, rest: seq<byte>, k: nat, pages: seq<Page>, delivered: seq<bool>,
                                       serialno: int, reset: bool)
    requires InSequence(pages, serialno) && OnTrack(r, rest, k, pages, delivered, serialno, reset)
    requires k < |pages| <= TWO31 && delivered[k] && D.Valid(r.dec)
    ensures var r' := Do(r, Pull);
            if S.Judge(r.sync.unread).Incomplete? then r' == r && rest != []
            else S.PageOut(r.sync).1.Got? && OnTrack(r', rest, k + 1, pages, delivered, serialno, reset)
  {
    GenuineAt(pages, k, serialno);
    hide Tracks, WellFormed, PageInSequence, S.Octets, S.Judge, S.Genuine, S.PageOut, D.Valid, D.PageIn, InSequence, Do,
      S.PageAt, Wire;
    DoPull(r);
    WireStep(pages, delivered, k);
    CaptureNext(r.sync, rest, pages[k], Wire(pages[k + 1..], delivered[k + 1..]));
    TracksNext(r.dec, r.out, k, pages, delivered, serialno, reset);
  }

  lemma {:induction false} TrackEnd(r: Receiver, rest: seq<byte>, k: nat, pages: seq<Page>, delivered: seq<bool>,
                                    serialno: int, reset: bool)
    requires InSequence(pages, serialno) && OnTrack(r, rest, k, pages, delivered, serialno, reset)
    ensures k <= |pages| == |delivered| && (k == |pages| ==> r.sync.unread == [])
  {
    hide InSequence, Tracks;
  }

  lemma {:induction false} NothingToPull(r: Receiver)
    requires D.Valid(r.dec) && r.sync.unread == []
    ensures Do(r, Pull) == r
  {
    hide D.Valid;
  }

  /** A request for a page: pages lost in between are passed over, the next delivered one is captured as soon
      as all of it has arrived, and synchronisation is never lost. */
  lemma {:induction false} PullOnTrack(r: Receiver, rest: seq<byte>, k: nat, pages: seq<Page>, delivered: seq<bool>,
                                       serialno: int, reset: bool) returns (k': nat)
    requires InSequence(pages, serialno) && OnTrack(r, rest, k, pages, delivered, serialno, reset)
    requires |pages| <= TWO31 && D.Valid(r.dec)
    ensures OnTrack(Do(r, Pull), rest, k', pages, delivered, serialno, reset)
    ensures S.PageOut(r.sync).1.NeedData? && rest == [] ==> k' == |pages|
    decreases |pages| - k
  {
    hide InSequence, OnTrack, Do, S.PageOut, S.Judge, D.Valid;
    TrackEnd(r, rest, k, pages, delivered, serialno, reset);
    if k == |pages| {
      NothingToPull(r);
      k' := k;
    } else if delivered[k] {
      NextArrives(r, rest, k, pages, delivered, serialno, reset);
      k' := if S.Judge(r.sync.unread).Incomplete? then k else k + 1;
    } else {
      NextLost(r, rest, k, pages, delivered, serialno, reset);
      k' := PullOnTrack(r, rest, k + 1, pages, delivered, serialno, reset);
    }
  }

  lemma {:induction false} DrainOnTrack(r: Receiver, rest: seq<byte>, k: nat, pages: seq<Page>, delivered: seq<bool>,
                                        serialno: int, reset: bool)
    requires AllWellFormed(pages) && OnTrack(r, rest, k, pages, delivered, serialno, reset) && D.Valid(r.dec)
    ensures OnTrack(Do(r, Step.Drain), rest, k, pages, delivered, serialno, reset)
  {
    hide Tracks, WellFormed, D.Valid, D.PacketOut, Wire;
    DrainStep(r.dec, r.out, pages[..k], delivered[..k], reset);
    assert r.out + [] == r.out;
  }

  /** Every run of the receiver on a prefix of the wire is on track. */
  lemma {:induction false} RunOnTrack(steps: seq<Step>, rest: seq<byte>, pages: seq<Page>, delivered: seq<bool>,
                                      serialno: int, reset: bool) returns (k: nat)
    requires InSequence(pages, serialno) && |pages| == |delivered| && |pages| <= TWO31
    requires OctetsFed(steps) + rest == Wire(pages, delivered)
    ensures OnTrack(Perform(serialno, reset, steps), rest, k, pages, delivered, serialno, reset)
    decreases |steps|
  {
    hide Tracks, WellFormed, PageInSequence, D.Valid, Wire, S.PageOut;
    if steps == [] {
      k := 0;
      InitTracks(serialno, reset);
      assert pages[..0] == [] && delivered[..0] == [] && pages[0..] == pages && delivered[0..] == delivered;
    } else {
      var n := |steps| - 1;
      var r := Perform(serialno, reset, steps[..n]);
      match steps[n]
      case Feed(c) =>
        Assoc(OctetsFed(steps[..n]), c, rest);
        k := RunOnTrack(steps[..n], c + rest, pages, delivered, serialno, reset);
        Assoc(r.sync.unread, c, rest);
      case Pull =>
        assert OctetsFed(steps[..n]) + [] == OctetsFed(steps[..n]);
        k := RunOnTrack(steps[..n], rest, pages, delivered, serialno, reset);
        k := PullOnTrack(r, rest, k, pages, delivered, serialno, reset);
      case Drain =>
        assert OctetsFed(steps[..n]) + [] == OctetsFed(steps[..n]);
        k := RunOnTrack(steps[..n], rest, pages, delivered, serialno, reset);
        DrainOnTrack(r, rest, k, pages, delivered, serialno, reset);
    }
  }

  /** The receiver has nothing more to give: `pageout` asks for data and `packetout` has no packet. */
  ghost predicate Exhausted(r: Receiver)
    requires D.Valid(r.dec)
  {
    S.PageOut(r.sync).1.NeedData? && D.PacketOut(r.dec).1.None?
  }

  lemma {:induction false} FinishedTracks(steps: seq<Step>, pages: seq<Page>, delivered: seq<bool>, serialno: int, reset: bool)
    requires InSequence(pages, serialno) && |pages| == |delivered| && |pages| <= TWO31
    requires OctetsFed(steps) == Wire(pages, delivered) && Exhausted(Perform(serialno, reset, steps))
    ensures var r := Perform(serialno, reset, steps);
            && r.losses == 0 && r.out == Account(pages, delivered, reset)
            && Packets(r.out) == Survivors(Tags(pages, delivered)) && Gaps(r.out) == GapCount(delivered, reset)
  {
    hide WellFormed, PageInSequence, D.Valid, Wire, S.PageOut, D.PacketOut, OctetsFed, Perform, InStep, OpenPart, Tags,
      Survivors, GapCount, Account, Packets, Gaps;
    var r := Perform(serialno, reset, steps);
    assert OctetsFed(steps) + [] == OctetsFed(steps);
    var k := RunOnTrack(steps, [], pages, delivered, serialno, reset);
    k := PullOnTrack(r, [], k, pages, delivered, serialno, reset);
    assert pages[..k] == pages && delivered[..k] == delivered;
    DrainStep(r.dec, r.out, pages, delivered, reset);
    assert r.out + [] == r.out;
    AccountCounts(pages, delivered, reset);
  }

  /** From packets to packets through a lossy channel: the encoder's pages are serialised, any of them are
      lost, the octets of the others arrive in any chunks, and captures and drains are interleaved at will.
      The receiver returns the account of the pages that arrived: exactly the packets all of whose segments
      arrived, in order and as they would have come anyway, and a gap where pages are missing. It never reports
      a loss of synchronisation. */
  lemma {:induction false} LossyPipeline(serialno: int, encReset: bool, ops: seq<Op>, delivered: seq<bool>,
                                         decReset: bool, steps: seq<Step>)
    requires Encodable(Submitted(ops)) && Int32(serialno)
    requires |delivered| == |Encoded(serialno, encReset, ops).1| <= TWO31
    requires OctetsFed(steps) == Wire(Encoded(serialno, encReset, ops).1, delivered)
    requires Exhausted(Perform(serialno, decReset, steps))
    ensures var packets, (e, pages) := Submitted(ops), Encoded(serialno, encReset, ops);
            var r := Perform(serialno, decReset, steps);
            && r.losses == 0 && r.out == Account(pages, delivered, decReset) && Gaps(r.out) == GapCount(delivered, decReset)
            && DataOf(Packets(r.out)) == Intact(packets, SegmentFates(pages, delivered) + seq(|e.segs|, _ => false))
            && |GranulesDue(e, pages, packets)| == |LastsDue(e, pages)| == |packets|
            && Packets(r.out) == Kept(Due(e, pages, packets), PacketsArrived(e, pages, packets, delivered))
  {
    var (e, pages) := Encoded(serialno, encReset, ops);
    hide Wire, Perform, OctetsFed, Exhausted, Encoded, InSequence, Intact, SegmentFates, Conserved, GranulesDue, Due,
      PacketsArrived, Kept, Account, Packets, Gaps, GapCount, Survivors, Tags, DataOf, LastsDue, Submitted;
    FinishedTracks(steps, pages, delivered, serialno, decReset);
    SurvivorsOfRun(e, pages, Submitted(ops), delivered);
    LossReturns(serialno, encReset, ops, delivered);
  }

  lemma {:induction false} NoGaps(events: seq<D.Event>)
    requires Gaps(events) == 0
    ensures Packets(events) == events
  {
    if events != [] {
      NoGaps(events[..|events| - 1]);
    }
  }

  lemma {:induction false} NothingMissing(n: nat, reset: bool)
    ensures GapCount(AllArrive(n), reset) == 0
  {
    if n > 0 {
      NothingMissing(n - 1, reset);
      assert AllArrive(n)[..n - 1] == AllArrive(n - 1);
    }
  }

  /** The whole round trip: with every page of a flushed stream delivered, whatever the packets' lengths, the
      encoder's calls, the chunks and the receiver's calls, what comes out is what went in. The first packet alone is
      flagged as the stream's first, and `LastFlags.LastExact` says which come as its last. */
  lemma {:induction false} RoundTripTheorem(serialno: int, encReset: bool, ops: seq<Op>, decReset: bool, steps: seq<Step>)
    requires Encodable(Submitted(ops)) && Int32(serialno)
    requires var (e, pages) := Encoded(serialno, encReset, ops);
             e.segs == [] && |pages| <= TWO31 && OctetsFed(steps) == Wire(pages, AllArrive(|pages|))
    requires Exhausted(Perform(serialno, decReset, steps))
    ensures var (packets, pages) := (Submitted(ops), Encoded(serialno, encReset, ops).1);
            var r := Perform(serialno, decReset, steps);
            && r.losses == 0
            && |GranulesSeen(pages, packets)| == |LastsSeen(pages)| == |packets|
            && r.out == Returned(packets, true, LastsSeen(pages), GranulesSeen(pages, packets))
  {
    var pages := Encoded(serialno, encReset, ops).1;
    var r := Perform(serialno, decReset, steps);
    RunReturns(serialno, encReset, ops);
    hide Wire, Perform, OctetsFed, Exhausted, Encoded, InSequence, GranulesSeen, LastsSeen, Returned, Survivors, Tags,
      Packets, Gaps;
    FinishedTracks(steps, pages, AllArrive(|pages|), serialno, decReset);
    NothingMissing(|pages|, decReset);
    NoGaps(r.out);
  }
}
