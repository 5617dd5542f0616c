/** The end-of-stream flag: which packets come back as the stream's last. */
module LastFlags {
  import opened Bytes
  import opened OggPage
  import opened Segments
  import opened Framing
  import opened Encoder
  import opened EncoderRuns

  // ----- What the pages say -----

  /** The flags a page gives to the packets that end on it: the last of them gets the page's own. */
  function PageLasts(p: Page): (l: seq<bool>)
    requires HasHeader(p)
    ensures |l| == Ended(Lens(p))
  {
    var n := Ended(Lens(p));
    if n == 0 then [] else seq(n - 1, _ => false) + [Eos(p)]
  }

  /** The flags with which packets arrive. */
  function LastsSeen(pages: seq<Page>): (l: seq<bool>)
    requires AllWellFormed(pages)
    ensures |l| == PagesEnded(pages)
  {
    if |pages| == 0 then [] else LastsSeen(pages[..|pages| - 1]) + PageLasts(pages[|pages| - 1])
  }

  function Unflagged(n: nat): (l: seq<bool>)
    ensures |l| == n && forall i :: 0 <= i < n ==> !l[i]
  {
    seq(n, _ => false)
  }

  lemma {:induction false} LastsSeenExtend(pages: seq<Page>, p: Page)
    requires AllWellFormed(pages) && WellFormed(p)
    ensures AllWellFormed(pages + [p]) && LastsSeen(pages + [p]) == LastsSeen(pages) + PageLasts(p)
  {
    hide WellFormed, PageLasts;
    assert (pages + [p])[..|pages|] == pages;
  }

  // ----- What the calls say -----

  predicate AnyEos(packets: seq<Packet>) {
    exists i :: 0 <= i < |packets| && packets[i].eos
  }

  lemma {:induction false} AnyEosNext(packets: seq<Packet>, p: Packet)
    ensures AnyEos(packets + [p]) == (AnyEos(packets) || p.eos)
  {
    var all := packets + [p];
    if AnyEos(packets) {
      var i :| 0 <= i < |packets| && packets[i].eos;
      assert all[i].eos;
    }
    if p.eos {
      assert all[|packets|].eos;
    }
    if AnyEos(all) && !p.eos {
      var i :| 0 <= i < |all| && all[i].eos;
      assert packets[i].eos;
    }
  }

  /** One flag for each packet submitted: when a page leaves nothing pending after the end was announced, the packet
      submitted last is flagged. */
  function Lasts(e: EncState, ops: seq<Op>): (l: seq<bool>)
    requires Sized(e.segs)
    ensures |l| == |Submitted(ops)|
  {
    if |ops| == 0 then [] else
      var n := |ops| - 1;
      var e' := Execute(e, ops[..n]).0;
      var (e'', page) := Apply(e', ops[n]);
      var l := Lasts(e, ops[..n]);
      if ops[n].Submit? then l + [false]
      else if page.Some? && e'.eos && e''.segs == [] && l != [] then l[|l| - 1 := true]
      else l
  }

  /** What pages and pending segments say agrees with what the calls say. */
  ghost predicate LastsKept(e: EncState, pages: seq<Page>, lasts: seq<bool>) {
    AllWellFormed(pages) && LastsSeen(pages) + Unflagged(PacketsDone(e.segs)) == lasts
  }

  lemma {:induction false} DoneAppend(a: seq<Segment>, b: seq<Segment>)
    ensures PacketsDone(a + b) == PacketsDone(a) + PacketsDone(b)
  {
    hide EndGranules, PacketsDone;
    EndGranulesAppend(a, b);
    assert |EndGranules(a + b)| == |EndGranules(a)| + |EndGranules(b)|;
  }

  lemma {:induction false} SubmitLasts(e: EncState, pages: seq<Page>, lasts: seq<bool>, p: Packet)
    requires LastsKept(e, pages, lasts)
    ensures LastsKept(PacketIn(e, p), pages, lasts + [false])
  {
    hide LastsSeen, PacketsDone, PacketSegments, WellFormed, EndGranules;
    var s := PacketSegments(p.data, e.granulepos, p.granulepos);
    DoneAppend(e.segs, s);
    PacketEndGranules(p.data, e.granulepos, p.granulepos);
    assert |EndGranules(s)| == 1;
    assert Unflagged(PacketsDone(e.segs) + 1) == Unflagged(PacketsDone(e.segs)) + [false];
  }

  lemma {:induction false} SomeDone(segs: seq<Segment>)
    requires segs != [] && Closed(segs)
    ensures PacketsDone(segs) > 0
  {
  }

  lemma {:induction false} FlushLasts(e: EncState, pages: seq<Page>, lasts: seq<bool>, force: bool, nfill: int)
    requires LastsKept(e, pages, lasts) && Sized(e.segs) && Closed(e.segs) && Flush(e, force, nfill).1.Some?
    ensures var (e', page) := Flush(e, force, nfill);
            && lasts != []
            && LastsKept(e', pages + [page.value], if e.eos && e'.segs == [] then lasts[|lasts| - 1 := true] else lasts)
  {
    hide LastsSeen, PacketsDone, Sum, PageLasts, Ended, Lens, Eos, PageSize, Closed, MakePage, EndGranule, LensOf,
      Body, Checksum, Split, NominalStop, OggPage.Version, OggPage.Continued, Bos, Serialno, Pageno, Granulepos, CAPTURE;
    FlushEmits(e, force, nfill);
    var n, p := PageSize(e, nfill), Flush(e, force, nfill).1.value;
    LastsSeenExtend(pages, p);
    SliceJoin(e.segs, n);
    DoneAppend(e.segs[..n], e.segs[n..]);
    EndedIsDone(e.segs[..n]);
    SomeDone(e.segs);
    NoneDone();
    if Eos(p) {
      assert e.segs[..n] == e.segs && e.segs[n..] == [];
    }
    FlagsMoved(LastsSeen(pages), p, PacketsDone(e.segs[n..]), lasts);
  }

  lemma NoneDone()
    ensures PacketsDone([]) == 0
  {
  }

  /** Flags move from pending to seen; the page's own flag is new. */
  lemma {:induction false} FlagsMoved(seen: seq<bool>, p: Page, left: nat, lasts: seq<bool>)
    requires HasHeader(p) && seen + Unflagged(Ended(Lens(p)) + left) == lasts && (Eos(p) ==> left == 0 && Ended(Lens(p)) > 0)
    ensures seen + PageLasts(p) + Unflagged(left)
            == if Eos(p) && |lasts| > 0 then lasts[|lasts| - 1 := true] else lasts
  {
    hide Ended, Lens, Eos;
  }

  /** In every run the flags on pages are those that the calls say. */
  lemma {:induction false} RunLasts(serialno: int, reset: bool, ops: seq<Op>)
    requires Encodable(Submitted(ops)) && Int32(serialno)
    ensures var (e, pages) := Execute(Init(serialno, reset), ops);
            LastsKept(e, pages, Lasts(Init(serialno, reset), ops)) && e.eos == AnyEos(Submitted(ops))
  {
    hide LastsKept, Flush, WellFormed, Closed, AnyEos, PacketIn;
    var e0 := Init(serialno, reset);
    if ops == [] {
      NoLasts(serialno, reset);
    } else {
      var n := |ops| - 1;
      var (e, pages) := Execute(e0, ops[..n]);
      var packets, lasts := Submitted(ops[..n]), Lasts(e0, ops[..n]);
      assert packets <= Submitted(ops);
      RunLasts(serialno, reset, ops[..n]);
      WholePackets(serialno, reset, ops[..n]);
      assert pages + [] == pages && packets + [] == packets;
      match ops[n]
      case Submit(p) =>
        AnyEosNext(packets, p);
        SubmitLasts(e, pages, lasts, p);
        SubmittedEos(e, p);
      case TryPage(nfill) => FlushedLasts(e, pages, lasts, e.segs != [] && (e.eos || !e.bos), nfill);
      case ForcePage(nfill) => FlushedLasts(e, pages, lasts, true, nfill);
    }
  }

  lemma SubmittedEos(e: EncState, p: Packet)
    ensures PacketIn(e, p).eos == (e.eos || p.eos)
  {
  }

  lemma {:induction false} FlushedLasts(e: EncState, pages: seq<Page>, lasts: seq<bool>, force: bool, nfill: int)
    requires LastsKept(e, pages, lasts) && Sized(e.segs) && Closed(e.segs)
    ensures var (e', page) := Flush(e, force, nfill);
            && e'.eos == e.eos
            && LastsKept(e', pages + Emitted(page),
                         if page.Some? && e.eos && e'.segs == [] && lasts != [] then lasts[|lasts| - 1 := true] else lasts)
  {
    hide LastsKept, WellFormed, Closed, MakePage, PageSize, EndGranule, LensOf, Body;
    assert pages + [] == pages;
    if Flush(e, force, nfill).1.Some? {
      FlushLasts(e, pages, lasts, force, nfill);
    }
  }

  lemma NoLasts(serialno: int, reset: bool)
    ensures LastsKept(Init(serialno, reset), [], []) && !AnyEos([])
  {
  }

  lemma {:induction false} WholePackets(serialno: int, reset: bool, ops: seq<Op>)
    requires Encodable(Submitted(ops)) && Int32(serialno)
    ensures Closed(Execute(Init(serialno, reset), ops).0.segs)
  {
    hide Execute, Closed, InSequence, Conserved, GranulesKept, PagesShaped, FlaggedFirst, Submitted;
    RunReached(serialno, reset, ops);
  }

  // ----- Exactly which packets -----

  /** At some moment all of the first `m` packets are on pages, and no other has been submitted. */
  ghost predicate Emptied(e: EncState, ops: seq<Op>, m: nat)
    requires Sized(e.segs)
  {
    exists t :: 0 <= t <= |ops| && EmptyAt(e, ops, t, m)
  }

  predicate EmptyAt(e: EncState, ops: seq<Op>, t: nat, m: nat)
    requires Sized(e.segs) && t <= |ops|
  {
    |Submitted(ops[..t])| == m && Execute(e, ops[..t]).0.segs == []
  }

  lemma {:induction false} EmptiedNext(e: EncState, ops: seq<Op>, m: nat)
    requires Sized(e.segs) && ops != []
    ensures Emptied(e, ops, m) <==> Emptied(e, ops[..|ops| - 1], m) || (|Submitted(ops)| == m && Execute(e, ops).0.segs == [])
  {
    hide Execute, Submitted;
    var n := |ops| - 1;
    assert ops[..|ops|] == ops;
    if Emptied(e, ops, m) {
      var t :| 0 <= t <= |ops| && EmptyAt(e, ops, t, m);
      if t <= n {
        assert ops[..n][..t] == ops[..t];
        assert EmptyAt(e, ops[..n], t, m);
      }
    }
    if Emptied(e, ops[..n], m) {
      var t :| 0 <= t <= n && EmptyAt(e, ops[..n], t, m);
      assert ops[..n][..t] == ops[..t];
      assert EmptyAt(e, ops, t, m);
    }
    if |Submitted(ops)| == m && Execute(e, ops).0.segs == [] {
      assert EmptyAt(e, ops, |ops|, m);
    }
  }

  lemma {:induction false} NotYetSubmitted(e: EncState, ops: seq<Op>, m: nat)
    requires Sized(e.segs) && m > |Submitted(ops)|
    ensures !Emptied(e, ops, m)
  {
    if Emptied(e, ops, m) {
      var t :| 0 <= t <= |ops| && EmptyAt(e, ops, t, m);
      SubmittedGrows(ops, t);
    }
  }

  lemma {:induction false} SubmittedGrows(ops: seq<Op>, t: nat)
    requires t <= |ops|
    ensures |Submitted(ops[..t])| <= |Submitted(ops)| && Submitted(ops[..t]) <= Submitted(ops)
    decreases |ops|
  {
    if t == |ops| {
      assert ops[..t] == ops;
    } else {
      SubmittedGrows(ops[..|ops| - 1], t);
      assert ops[..|ops| - 1][..t] == ops[..t];
    }
  }

  /** A packet is flagged exactly if the end has been announced with it or before it, and at some moment it was the
      last submitted and nothing was pending. */
  lemma {:induction false} LastExact(serialno: int, reset: bool, ops: seq<Op>, i: nat)
    requires Encodable(Submitted(ops)) && Int32(serialno) && i < |Submitted(ops)|
    ensures Lasts(Init(serialno, reset), ops)[i]
            <==> AnyEos(Submitted(ops)[..i + 1]) && Emptied(Init(serialno, reset), ops, i + 1)
    decreases |ops|
  {
    hide Execute, Apply, Emptied, AnyEos, Lasts, Submitted;
    var e0, n := Init(serialno, reset), |ops| - 1;
    StepFacts(e0, ops);
    var packets := Submitted(ops[..n]);
    SubmittedGrows(ops, n);
    EmptiedNext(e0, ops, i + 1);
    if i < |packets| {
      assert packets[..i + 1] == Submitted(ops)[..i + 1];
      LastExact(serialno, reset, ops[..n], i);
      if i == |packets| - 1 && !ops[n].Submit? {
        RunLasts(serialno, reset, ops[..n]);
        assert packets[..i + 1] == packets == Submitted(ops);
        LastFlagStep(e0, ops);
        if Execute(e0, ops[..n]).0.segs == [] {
          EmptyNow(e0, ops[..n]);
        }
      }
    } else {
      NotYetSubmitted(e0, ops[..n], i + 1);
    }
  }

  /** One more call: how it changes the flags, and what is pending after a submission. */
  lemma {:induction false} StepFacts(e: EncState, ops: seq<Op>)
    requires Sized(e.segs) && Submitted(ops) != []
    ensures ops != []
    ensures var n := |ops| - 1;
            var l, l' := Lasts(e, ops[..n]), Lasts(e, ops);
            && |Submitted(ops)| == |Submitted(ops[..n])| + (if ops[n].Submit? then 1 else 0)
            && (ops[n].Submit? ==> l' == l + [false] && Execute(e, ops).0.segs != [])
            && |l'| == |Submitted(ops)| && |l| == |Submitted(ops[..n])|
            && forall i :: 0 <= i < |l| - 1 ==> l'[i] == l[i]
  {
    hide Flush, PageOut;
    assert |PacketSegments([], 0, 0)| > 0;
  }

  /** A call that is no submission flags the last packet exactly if it leaves nothing pending, where something was, after
      the end was announced; if nothing was pending before, nothing changes. */
  lemma {:induction false} LastFlagStep(e: EncState, ops: seq<Op>)
    requires Sized(e.segs) && ops != [] && !ops[|ops| - 1].Submit? && Submitted(ops) != []
    ensures var n := |ops| - 1;
            var (e', e'') := (Execute(e, ops[..n]).0, Execute(e, ops).0);
            var l, l' := Lasts(e, ops[..n]), Lasts(e, ops);
            && l != [] && |l'| == |l|
            && (l'[|l| - 1] <==> l[|l| - 1] || (e'.segs != [] && e''.segs == [] && e'.eos))
  {
    hide MakePage, PageSize, EndGranule, LensOf, Body, Min;
  }

  // ----- Streams whose end is announced with the last packet -----

  /** Only the last packet submitted, if any, is flagged as the stream's last. */
  ghost predicate OnlyLastEos(packets: seq<Packet>) {
    forall i :: 0 <= i < |packets| - 1 ==> !packets[i].eos
  }

  predicate LastEos(packets: seq<Packet>) {
    packets != [] && packets[|packets| - 1].eos
  }

  /** Then, with nothing pending, it alone is flagged. */
  lemma {:induction false} OnlyLast(serialno: int, reset: bool, ops: seq<Op>)
    requires Encodable(Submitted(ops)) && Int32(serialno) && OnlyLastEos(Submitted(ops))
    requires Execute(Init(serialno, reset), ops).0.segs == []
    ensures var pages, packets := Execute(Init(serialno, reset), ops).1, Submitted(ops);
            && AllWellFormed(pages) && |LastsSeen(pages)| == |packets|
            && forall i :: 0 <= i < |packets| ==> LastsSeen(pages)[i] == (i == |packets| - 1 && LastEos(packets))
  {
    hide Execute, Submitted, LastsSeen, Lasts, Emptied;
    var e0, packets := Init(serialno, reset), Submitted(ops);
    RunLasts(serialno, reset, ops);
    NoneDone();
    assert LastsSeen(Execute(e0, ops).1) + Unflagged(0) == LastsSeen(Execute(e0, ops).1);
    forall i | 0 <= i < |packets|
      ensures Lasts(e0, ops)[i] == (i == |packets| - 1 && LastEos(packets))
    {
      LastExact(serialno, reset, ops, i);
      if i == |packets| - 1 && LastEos(packets) {
        assert packets[..i + 1][i].eos;
        EmptyNow(e0, ops);
      }
    }
  }

  lemma {:induction false} EmptyNow(e: EncState, ops: seq<Op>)
    requires Sized(e.segs) && Execute(e, ops).0.segs == []
    ensures Emptied(e, ops, |Submitted(ops)|)
  {
    hide Execute, Submitted;
    assert ops[..|ops|] == ops;
    assert EmptyAt(e, ops, |ops|, |Submitted(ops)|);
  }
}
