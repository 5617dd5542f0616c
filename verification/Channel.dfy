/** Channels that damage pages, insert garbage and carry other streams. */
module Channel {
  import opened Bytes
  import opened OggPage
  import opened Framing
  import opened Encoder
  import opened EncoderRuns
  import D = Decoder
  import opened Delivery
  import opened Loss
  import opened Reception
  import opened RoundTrip
  import opened LastFlags
  import opened Pipeline
  import S = Sync

  // ----- What lies on the wire -----

  /** A page as it was written, octets that are no page, or a page of which four consecutive octets were hit. */
  datatype Parcel =
    | Intact(page: Page)
    | Noise(octets: seq<byte>)
    | Damaged(page: Page, octets: seq<byte>, window: nat)

  function OctetsOf(parcel: Parcel): seq<byte> {
    match parcel
    case Intact(p) => S.Octets(p)
    case Noise(octets) => octets
    case Damaged(_, octets, _) => octets
  }

  function Carried(parcels: seq<Parcel>): seq<byte> {
    if parcels == [] then [] else OctetsOf(parcels[0]) + Carried(parcels[1..])
  }

  /** The pages that arrive as they were written. */
  function PagesIn(parcels: seq<Parcel>): seq<Page> {
    if parcels == [] then []
    else (if parcels[0].Intact? then [parcels[0].page] else []) + PagesIn(parcels[1..])
  }

  predicate CaptureAt(u: seq<byte>, i: nat) {
    i + 4 <= |u| && u[i..i + 4] == CAPTURE
  }

  /** From position `from` on, no capture pattern begins inside the octets, not even one that ends in what follows. */
  predicate Quiet(octets: seq<byte>, from: nat, rest: seq<byte>) {
    forall i :: from <= i < |octets| ==> !CaptureAt(octets + rest, i)
  }

  /** Damage that `Sync.BurstRejected` is about. */
  predicate Rejectable(p: Page, w: seq<byte>, k: nat) {
    && S.Genuine(p) && S.DiffersInWindow(S.Octets(p), w, k) && (k + 4 <= 22 || k == 22 || k >= 26)
    && w[..4] == CAPTURE && |w| >= HEADER_BASE && |w| >= S.HeaderSize(w) && S.PageSize(w) == |w|
  }

  /** Nothing on the wire looks like a page by accident. */
  predicate Clean(parcels: seq<Parcel>) {
    parcels == [] ||
    (&& Clean(parcels[1..])
     && match parcels[0]
        case Intact(p) => S.Genuine(p)
        case Noise(octets) => Quiet(octets, 0, Carried(parcels[1..]))
        case Damaged(p, w, k) => Rejectable(p, w, k) && Quiet(w, 1, Carried(parcels[1..])))
  }

  lemma {:induction false} QuietNext(octets: seq<byte>, from: nat, rest: seq<byte>)
    requires octets != [] && Quiet(octets, from, rest)
    ensures Quiet(octets[1..], if from > 0 then from - 1 else 0, rest)
    ensures (octets + rest)[1..] == octets[1..] + rest
  {
    var u, w := octets + rest, octets[1..] + rest;
    assert u[1..] == w;
    forall i | (if from > 0 then from - 1 else 0) <= i < |octets| - 1
      ensures !CaptureAt(w, i)
    {
      assert !CaptureAt(u, i + 1);
      assert i + 4 <= |w| ==> w[i..i + 4] == u[i + 1..i + 1 + 4];
    }
  }

  /** The scan passes over octets in which no capture pattern begins. */
  lemma {:induction false} QuietScan(octets: seq<byte>, rest: seq<byte>)
    requires Quiet(octets, 0, rest)
    ensures S.Scan(octets + rest) == S.Scan(rest)
  {
    hide S.Scan, S.PageSize, S.PageAt, Checksum;
    var u := octets + rest;
    if octets == [] {
      assert u == rest;
    } else if |u| < HEADER_BASE {
      ShortScan(u);
      ShortScan(rest);
    } else {
      assert !CaptureAt(u, 0) && u[0..4] == u[..4];
      NoPageScan(u);
      QuietNext(octets, 0, rest);
      QuietScan(octets[1..], rest);
    }
  }

  lemma {:induction false} ShortScan(u: seq<byte>)
    requires |u| < HEADER_BASE
    ensures S.Scan(u) == []
  {
  }

  lemma {:induction false} NoPageScan(u: seq<byte>)
    requires S.Judge(u).NotAPage?
    ensures S.Scan(u) == S.Scan(u[1..])
  {
    hide S.Judge;
  }

  /** And over a damaged page. */
  lemma {:induction false} DamagedScan(p: Page, w: seq<byte>, k: nat, rest: seq<byte>)
    requires Rejectable(p, w, k) && Quiet(w, 1, rest)
    ensures S.Scan(w + rest) == S.Scan(rest)
  {
    hide S.Scan, S.Judge, S.Genuine, S.Octets, S.PageSize, S.HeaderSize, S.DiffersInWindow, Quiet;
    S.BurstRejected(p, w, k, rest);
    NoPageScan(w + rest);
    QuietNext(w, 1, rest);
    QuietScan(w[1..], rest);
  }

  lemma {:induction false} IntactScan(p: Page, rest: seq<byte>)
    requires S.Genuine(p)
    ensures S.Scan(S.Octets(p) + rest) == [p] + S.Scan(rest)
  {
    hide S.Judge, S.Genuine, S.Octets, S.PageAt;
    S.GenuineJudged(p, rest);
  }

  /** A scan of the wire finds exactly the pages that arrive as they were written. */
  lemma {:induction false} CleanScan(parcels: seq<Parcel>)
    requires Clean(parcels)
    ensures S.Scan(Carried(parcels)) == PagesIn(parcels)
  {
    hide S.Scan, S.Genuine, S.Octets, Quiet, Rejectable;
    if parcels == [] {
      ShortScan([]);
    } else {
      var rest := Carried(parcels[1..]);
      CleanScan(parcels[1..]);
      match parcels[0]
      case Intact(p) => IntactScan(p, rest);
      case Noise(octets) => QuietScan(octets, rest);
      case Damaged(p, w, k) => DamagedScan(p, w, k, rest);
    }
  }

  lemma {:induction false} ScanWellFormed(u: seq<byte>)
    ensures AllWellFormed(S.Scan(u))
    decreases |u|
  {
    match S.Judge(u)
    case Incomplete =>
    case PageHere(n) =>
      ScanWellFormed(u[n..]);
      PageHereWellFormed(u);
    case NotAPage => ScanWellFormed(u[1..]);
  }

  lemma {:induction false} PageHereWellFormed(u: seq<byte>)
    requires S.Judge(u).PageHere?
    ensures WellFormed(S.PageAt(u))
  {
    hide Checksum, CAPTURE, Sum;
    var h := S.HeaderSize(u);
    assert u[..h][27..] == u[27..h];
  }

  // ----- What the receiver captures -----

  /** The pages captured in a run. */
  ghost function Captured(serialno: int, reset: bool, steps: seq<Step>): seq<Page> {
    if |steps| == 0 then [] else
      var n := |steps| - 1;
      Captured(serialno, reset, steps[..n])
        + if steps[n].Pull? then S.PagesOf(S.PageOut(Perform(serialno, reset, steps[..n]).sync).1) else []
  }

  lemma {:induction false} CapturedScan(serialno: int, reset: bool, steps: seq<Step>, v: seq<byte>)
    ensures S.Scan(OctetsFed(steps) + v)
            == Captured(serialno, reset, steps) + S.Scan(Perform(serialno, reset, steps).sync.unread + v)
    decreases |steps|
  {
    hide S.Scan, S.PageOut, D.Valid, Do;
    if steps == [] {
      assert [] + S.Scan([] + v) == S.Scan([] + v);
    } else {
      var n := |steps| - 1;
      var r, found := Perform(serialno, reset, steps[..n]), Captured(serialno, reset, steps[..n]);
      StepSync(r, steps[n]);
      match steps[n]
      case Feed(c) =>
        CapturedScan(serialno, reset, steps[..n], c + v);
        Assoc(OctetsFed(steps[..n]), c, v);
        Assoc(r.sync.unread, c, v);
        assert found + [] == found;
      case Pull =>
        CapturedScan(serialno, reset, steps[..n], v);
        S.PageOutScan(r.sync, v);
        Assoc(found, S.PagesOf(S.PageOut(r.sync).1), S.Scan(S.PageOut(r.sync).0.unread + v));
        assert OctetsFed(steps[..n]) + [] == OctetsFed(steps[..n]);
      case Drain =>
        CapturedScan(serialno, reset, steps[..n], v);
        assert OctetsFed(steps[..n]) + [] == OctetsFed(steps[..n]) && found + [] == found;
    }
  }

  lemma {:induction false} StepSync(r: Receiver, step: Step)
    requires D.Valid(r.dec)
    ensures Do(r, step).sync == match step
                                case Feed(c) => r.sync.(unread := r.sync.unread + c)
                                case Pull => S.PageOut(r.sync).0
                                case Drain => r.sync
  {
    hide S.PageOut, D.PageIn, D.PacketOut, D.Valid, WellFormed;
  }

  /** Once the receiver is exhausted it has captured what the scan finds. */
  lemma {:induction false} CapturedAll(serialno: int, reset: bool, steps: seq<Step>)
    requires Exhausted(Perform(serialno, reset, steps))
    ensures Captured(serialno, reset, steps) == S.Scan(OctetsFed(steps))
  {
    hide S.Scan, S.PageOut, D.PacketOut, D.Valid, OctetsFed, Perform, Captured;
    var s := Perform(serialno, reset, steps).sync;
    CapturedScan(serialno, reset, steps, []);
    S.PageOutScan(s, []);
    S.NeedDataMeansDrained(s);
    assert OctetsFed(steps) + [] == OctetsFed(steps) && s.unread + [] == s.unread;
    assert S.PageOut(s).0.unread + [] == S.PageOut(s).0.unread;
    assert Captured(serialno, reset, steps) + [] == Captured(serialno, reset, steps);
  }

  // ----- Which of them the decoder takes -----

  /** A page of the stream with this serial number. */
  predicate Mine(p: Page, serialno: int)
    requires HasHeader(p)
  {
    Serialno(p) == serialno && Version(p) == 0
  }

  ghost function Own(pages: seq<Page>, serialno: int): seq<Page>
    requires AllWellFormed(pages)
  {
    if |pages| == 0 then [] else
      var n := |pages| - 1;
      Own(pages[..n], serialno) + if Mine(pages[n], serialno) then [pages[n]] else []
  }

  lemma {:induction false} OwnExtend(pages: seq<Page>, p: Page, serialno: int)
    requires AllWellFormed(pages) && WellFormed(p)
    ensures AllWellFormed(pages + [p])
    ensures Own(pages + [p], serialno) == Own(pages, serialno) + if Mine(p, serialno) then [p] else []
  {
    hide WellFormed, Mine;
    assert (pages + [p])[..|pages|] == pages;
  }

  function Arriving(pages: seq<Page>, delivered: seq<bool>): seq<Page>
    requires |delivered| == |pages|
  {
    if pages == [] then []
    else (if delivered[0] then [pages[0]] else []) + Arriving(pages[1..], delivered[1..])
  }

  lemma {:induction false} ArrivingStep(pages: seq<Page>, delivered: seq<bool>, k: nat)
    requires k < |pages| == |delivered|
    ensures Arriving(pages[k..], delivered[k..])
            == (if delivered[k] then [pages[k]] else []) + Arriving(pages[k + 1..], delivered[k + 1..])
  {
    assert pages[k..][1..] == pages[k + 1..] && delivered[k..][1..] == delivered[k + 1..];
  }

  /** The decoder has dealt with the first `k` pages, and `future` is what is still to arrive of the others. */
  ghost predicate Follows(d: D.DecState, out: seq<D.Event>, k: nat, pages: seq<Page>, delivered: seq<bool>, serialno: int,
                          reset: bool, future: seq<Page>) {
    && k <= |pages| == |delivered| && d.serialno == serialno
    && Tracks(d, out, pages[..k], delivered[..k], reset)
    && future == Arriving(pages[k..], delivered[k..])
  }

  lemma {:induction false} PassLost(d: D.DecState, out: seq<D.Event>, k: nat, pages: seq<Page>, delivered: seq<bool>,
                                    serialno: int, reset: bool, future: seq<Page>)
    requires InSequence(pages, serialno) && Follows(d, out, k, pages, delivered, serialno, reset, future)
    requires k < |pages| && !delivered[k]
    ensures Follows(d, out, k + 1, pages, delivered, serialno, reset, future)
  {
    hide Tracks, WellFormed, PageInSequence;
    ArrivingStep(pages, delivered, k);
    assert pages[..k + 1] == pages[..k] + [pages[k]] && delivered[..k + 1] == delivered[..k] + [delivered[k]];
    LostStep(d, out, pages[..k], delivered[..k], reset, pages[k]);
    assert [] + Arriving(pages[k + 1..], delivered[k + 1..]) == Arriving(pages[k + 1..], delivered[k + 1..]);
  }

  lemma {:induction false} ArrivingSize(pages: seq<Page>, delivered: seq<bool>)
    requires |delivered| == |pages|
    ensures |Arriving(pages, delivered)| <= |pages|
  {
    if pages != [] {
      ArrivingSize(pages[1..], delivered[1..]);
    }
  }

  lemma {:induction false} MoreToCome(k: nat, pages: seq<Page>, delivered: seq<bool>, p: Page, future: seq<Page>)
    requires k <= |pages| == |delivered| && [p] + future == Arriving(pages[k..], delivered[k..])
    ensures k < |pages|
  {
    hide Arriving;
    ArrivingSize(pages[k..], delivered[k..]);
    assert |[p] + future| > 0;
  }

  /** The next page to arrive is decoded, the lost ones before it are passed over. */
  lemma {:induction false} TakeNext(d: D.DecState, out: seq<D.Event>, k: nat, pages: seq<Page>, delivered: seq<bool>,
                                    serialno: int, reset: bool, p: Page, future: seq<Page>) returns (k': nat)
    requires InSequence(pages, serialno) && |pages| <= TWO31
    requires Follows(d, out, k, pages, delivered, serialno, reset, [p] + future)
    ensures D.Valid(d) && WellFormed(p) && Follows(D.PageIn(d, p).0, out, k', pages, delivered, serialno, reset, future)
    decreases |pages| - k
  {
    hide Tracks, WellFormed, PageInSequence, D.PageIn, D.Valid;
    MoreToCome(k, pages, delivered, p, future);
    if delivered[k] {
      ArrivingStep(pages, delivered, k);
      var rest := Arriving(pages[k + 1..], delivered[k + 1..]);
      assert ([p] + future)[0] == ([pages[k]] + rest)[0] && ([p] + future)[1..] == future && ([pages[k]] + rest)[1..] == rest;
      TracksNext(d, out, k, pages, delivered, serialno, reset);
      k' := k + 1;
    } else {
      PassLost(d, out, k, pages, delivered, serialno, reset, [p] + future);
      k' := TakeNext(d, out, k + 1, pages, delivered, serialno, reset, p, future);
    }
  }

  /** With nothing more to arrive, all pages are dealt with. */
  lemma {:induction false} PassAllLost(d: D.DecState, out: seq<D.Event>, k: nat, pages: seq<Page>, delivered: seq<bool>,
                                       serialno: int, reset: bool)
    requires InSequence(pages, serialno) && Follows(d, out, k, pages, delivered, serialno, reset, [])
    ensures Tracks(d, out, pages, delivered, reset)
    decreases |pages| - k
  {
    hide Tracks, WellFormed, PageInSequence;
    if k == |pages| {
      assert pages[..k] == pages && delivered[..k] == delivered;
    } else {
      ArrivingStep(pages, delivered, k);
      PassLost(d, out, k, pages, delivered, serialno, reset, []);
      PassAllLost(d, out, k + 1, pages, delivered, serialno, reset);
    }
  }

  lemma {:induction false} CapturedAreWellFormed(serialno: int, reset: bool, steps: seq<Step>)
    ensures AllWellFormed(Captured(serialno, reset, steps))
  {
    hide WellFormed, S.PageOut, Perform;
    if steps != [] {
      var n := |steps| - 1;
      CapturedAreWellFormed(serialno, reset, steps[..n]);
      CapturedWellFormed(Perform(serialno, reset, steps[..n]).sync);
    }
  }

  /** A page of another stream leaves the decoder as it was. */
  lemma {:induction false} NotMine(d: D.DecState, p: Page)
    requires WellFormed(p) && d.complete <= |d.segs| && !Mine(p, d.serialno)
    ensures D.PageIn(d, p).0 == d
  {
    hide WellFormed;
  }

  /** Whatever else is captured in between, the decoder follows its own pages. */
  lemma {:induction false} RunFollows(steps: seq<Step>, serialno: int, reset: bool, pages: seq<Page>, delivered: seq<bool>,
                                      future: seq<Page>) returns (k: nat)
    requires InSequence(pages, serialno) && |pages| == |delivered| && |pages| <= TWO31
    requires AllWellFormed(Captured(serialno, reset, steps))
    requires Own(Captured(serialno, reset, steps), serialno) + future == Arriving(pages, delivered)
    ensures var r := Perform(serialno, reset, steps);
            Follows(r.dec, r.out, k, pages, delivered, serialno, reset, future)
    decreases |steps|
  {
    hide Tracks, WellFormed, PageInSequence, D.Valid, S.PageOut, D.PageIn, D.PacketOut, Own, Mine, Arriving, Do;
    if steps == [] {
      k := 0;
      NothingCaptured(serialno, reset, pages, delivered, future);
    } else {
      var n := |steps| - 1;
      var r, found := Perform(serialno, reset, steps[..n]), Captured(serialno, reset, steps[..n]);
      CapturedAreWellFormed(serialno, reset, steps[..n]);
      match steps[n]
      case Feed(c) =>
        assert found + [] == found;
        k := RunFollows(steps[..n], serialno, reset, pages, delivered, future);
        FeedKeeps(r, c);
      case Drain =>
        assert found + [] == found;
        k := RunFollows(steps[..n], serialno, reset, pages, delivered, future);
        DrainFollows(r, k, pages, delivered, serialno, reset, future);
      case Pull =>
        PullKeeps(r);
        match S.PageOut(r.sync).1 {
          case Got(p) =>
            OwnExtend(found, p, serialno);
            if Mine(p, serialno) {
              Assoc(Own(found, serialno), [p], future);
              k := RunFollows(steps[..n], serialno, reset, pages, delivered, [p] + future);
              k := TakeNext(r.dec, r.out, k, pages, delivered, serialno, reset, p, future);
            } else {
              assert Own(found, serialno) + [] == Own(found, serialno);
              k := RunFollows(steps[..n], serialno, reset, pages, delivered, future);
              ValidComplete(r.dec);
              NotMine(r.dec, p);
            }
          case _ =>
            assert found + [] == found;
            k := RunFollows(steps[..n], serialno, reset, pages, delivered, future);
        }
    }
  }

  lemma {:induction false} ValidComplete(d: D.DecState)
    requires D.Valid(d)
    ensures d.complete <= |d.segs|
  {
  }

  lemma {:induction false} NothingCaptured(serialno: int, reset: bool, pages: seq<Page>, delivered: seq<bool>, future: seq<Page>)
    requires |pages| == |delivered| && Own([], serialno) + future == Arriving(pages, delivered)
    ensures Follows(D.Init(serialno, reset), [], 0, pages, delivered, serialno, reset, future)
  {
    hide Tracks;
    InitTracks(serialno, reset);
    assert pages[..0] == [] && delivered[..0] == [] && pages[0..] == pages && delivered[0..] == delivered;
    assert [] + future == future;
  }

  lemma {:induction false} FeedKeeps(r: Receiver, c: seq<byte>)
    requires D.Valid(r.dec)
    ensures Do(r, Step.Feed(c)).dec == r.dec && Do(r, Step.Feed(c)).out == r.out
  {
    hide D.Valid;
  }

  lemma {:induction false} PullKeeps(r: Receiver)
    requires D.Valid(r.dec)
    ensures var (r', pulled) := (Do(r, Step.Pull), S.PageOut(r.sync).1);
            && r'.out == r.out
            && if pulled.Got? then
                 HasHeader(pulled.page) && WellFormed(pulled.page) && r'.dec == D.PageIn(r.dec, pulled.page).0
               else
                 r'.dec == r.dec
  {
    hide S.PageOut, D.PageIn, D.Valid, Sum, Lens;
    CapturedWellFormed(r.sync);
  }

  lemma {:induction false} DrainFollows(r: Receiver, k: nat, pages: seq<Page>, delivered: seq<bool>, serialno: int, reset: bool,
                                        future: seq<Page>)
    requires D.Valid(r.dec) && Follows(r.dec, r.out, k, pages, delivered, serialno, reset, future)
    ensures var r' := Do(r, Step.Drain); Follows(r'.dec, r'.out, k, pages, delivered, serialno, reset, future)
  {
    hide Tracks, WellFormed, D.Valid, D.PacketOut, Arriving;
    DrainStep(r.dec, r.out, pages[..k], delivered[..k], reset);
    assert r.out + [] == r.out;
  }

  /** What a receiver returns depends on its own pages among those that a scan of all octets finds, and on nothing else:
      not on garbage, damaged pages or other streams between them, on chunks, or on the order of calls. */
  lemma {:induction false} ScanDecides(serialno: int, reset: bool, steps: seq<Step>, pages: seq<Page>, delivered: seq<bool>)
    requires InSequence(pages, serialno) && |pages| == |delivered| && |pages| <= TWO31
    requires AllWellFormed(S.Scan(OctetsFed(steps)))
    requires Own(S.Scan(OctetsFed(steps)), serialno) == Arriving(pages, delivered)
    requires Exhausted(Perform(serialno, reset, steps))
    ensures Perform(serialno, reset, steps).out == Account(pages, delivered, reset)
  {
    hide WellFormed, PageInSequence, D.Valid, S.PageOut, D.PacketOut, OctetsFed, Perform, InStep, OpenPart, Tags, Account,
      Captured, Own, Arriving, S.Scan, NextPage;
    var r := Perform(serialno, reset, steps);
    CapturedAll(serialno, reset, steps);
    var own := Own(Captured(serialno, reset, steps), serialno);
    assert own + [] == own;
    var k := RunFollows(steps, serialno, reset, pages, delivered, []);
    PassAllLost(r.dec, r.out, k, pages, delivered, serialno, reset);
    DrainStep(r.dec, r.out, pages, delivered, reset);
    assert r.out + [] == r.out;
  }

  // ----- The encoder's pages on such a wire -----

  /** Every page of the wire has a header to tell its stream by. */
  lemma {:induction false} CleanWellFormed(parcels: seq<Parcel>)
    requires Clean(parcels)
    ensures AllWellFormed(PagesIn(parcels))
  {
    hide S.Scan, Clean;
    CleanScan(parcels);
    ScanWellFormed(Carried(parcels));
  }

  /** From packets to packets through a channel that loses pages, damages them, inserts garbage and interleaves other
      streams: damaged pages count as lost, and nothing else matters. The packets returned are exactly those all of
      whose segments lie on pages that arrived as they were written, with the flags and granule positions they would
      have come with anyway; the gaps are where pages are missing. */
  lemma {:induction false} NoisyPipeline(serialno: int, encReset: bool, ops: seq<Op>, delivered: seq<bool>, decReset: bool,
                                         steps: seq<Step>, parcels: seq<Parcel>)
    requires Encodable(Submitted(ops)) && Int32(serialno)
    requires |delivered| == |Encoded(serialno, encReset, ops).1| <= TWO31
    requires Clean(parcels) && AllWellFormed(PagesIn(parcels)) && OctetsFed(steps) == Carried(parcels)
    requires Own(PagesIn(parcels), serialno) == Arriving(Encoded(serialno, encReset, ops).1, delivered)
    requires Exhausted(Perform(serialno, decReset, steps))
    ensures var packets, (e, pages) := Submitted(ops), Encoded(serialno, encReset, ops);
            var out := Perform(serialno, decReset, steps).out;
            && out == Account(pages, delivered, decReset) && Gaps(out) == GapCount(delivered, decReset)
            && |GranulesDue(e, pages, packets)| == |LastsDue(e, pages)| == |packets|
            && Packets(out) == Kept(Due(e, pages, packets), PacketsArrived(e, pages, packets, delivered))
  {
    hide Perform, OctetsFed, Exhausted, Encoded, InSequence, GranulesDue, Due, PacketsArrived, Kept, Account, Packets, Gaps,
      GapCount, Survivors, Tags, LastsDue, Submitted, Clean, Carried, PagesIn, Own, Arriving, S.Scan;
    var pages := Encoded(serialno, encReset, ops).1;
    CleanScan(parcels);
    ScanDecides(serialno, decReset, steps, pages, delivered);
    AccountCounts(pages, delivered, decReset);
    LossReturns(serialno, encReset, ops, delivered);
  }

  /** So damage is loss: the same comes out as over a wire from which those pages were removed. */
  lemma {:induction false} DamageIsLoss(serialno: int, reset: bool, pages: seq<Page>, delivered: seq<bool>, parcels: seq<Parcel>,
                                        noisy: seq<Step>, lossy: seq<Step>)
    requires InSequence(pages, serialno) && |pages| == |delivered| && |pages| <= TWO31
    requires Clean(parcels) && AllWellFormed(PagesIn(parcels)) && Own(PagesIn(parcels), serialno) == Arriving(pages, delivered)
    requires OctetsFed(noisy) == Carried(parcels) && Exhausted(Perform(serialno, reset, noisy))
    requires OctetsFed(lossy) == Wire(pages, delivered) && Exhausted(Perform(serialno, reset, lossy))
    ensures Perform(serialno, reset, noisy).out == Perform(serialno, reset, lossy).out
  {
    hide Perform, OctetsFed, Exhausted, InSequence, Account, Packets, Gaps, GapCount, Survivors, Tags, Clean, Carried, PagesIn,
      Own, Arriving, S.Scan, Wire;
    CleanScan(parcels);
    ScanDecides(serialno, reset, noisy, pages, delivered);
    FinishedTracks(lossy, pages, delivered, serialno, reset);
  }
}
