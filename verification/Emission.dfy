/** When the encoder emits a page and where the page ends, from the segment table alone. */
module Emission {
  import opened Bytes
  import opened OggPage
  import opened Segments
  import opened Framing
  import opened Encoder
  import opened EncoderRuns
  import opened LastFlags

  /** A page may end behind entry `k` of the table: a packet ends there, the fourth or a later one, and the page has
      more than `nfill` octets. */
  predicate Enough(lens: seq<byte>, k: nat, nfill: int)
    requires 0 < k <= |lens|
  {
    lens[k - 1] < 255 && Ended(lens[..k]) >= 4 && Sum(lens[..k]) > nfill
  }

  /** Where a page may end: the first page of a stream behind its first packet, the others when they have enough. */
  predicate MayEnd(bos: bool, lens: seq<byte>, k: nat, nfill: int)
    requires 0 < k <= |lens|
  {
    if bos then Enough(lens, k, nfill) else lens[k - 1] < 255
  }

  /** A page takes the first `n` segments: up to the first place where it may end, all 255 that it has room for, or all
      there are. */
  predicate Cut(bos: bool, lens: seq<byte>, n: nat, nfill: int) {
    && 0 < n <= |lens| && n <= 255
    && (n < |lens| && n < 255 ==> MayEnd(bos, lens, n, nfill))
    && forall k | 0 < k < n :: !MayEnd(bos, lens, k, nfill)
  }

  /** Some place before all segments are taken, or 255 of them. */
  predicate EnoughBefore(lens: seq<byte>, nfill: int) {
    exists k :: 0 < k < |lens| && k < 255 && Enough(lens, k, nfill)
  }

  /** The table of a beginning is the beginning of the table. */
  lemma {:induction false} TakenTable(segs: seq<Segment>, k: nat)
    requires Sized(segs) && k <= |segs|
    ensures Sized(segs[..k]) && LensOf(segs[..k]) == LensOf(segs)[..k]
  {
  }

  lemma {:induction false} NominalIsEnough(segs: seq<Segment>, k: nat, nfill: int)
    requires Sized(segs) && 0 < k <= |segs|
    ensures NominalStop(segs, k, nfill) == Enough(LensOf(segs), k, nfill)
  {
    hide Body, Sum, PacketsDone, OggPage.Ended;
    TakenTable(segs, k);
    BodySize(segs[..k]);
    EndedIsDone(segs[..k]);
  }

  /** The cut is where the loops stop. */
  lemma {:induction false} SizeCut(e: EncState, nfill: int)
    requires Sized(e.segs) && e.segs != []
    ensures Cut(e.bos, LensOf(e.segs), Encoder.PageSize(e, nfill), nfill)
  {
    hide Enough, NominalStop, NominalCut;
    var n, lens, max := Encoder.PageSize(e, nfill), LensOf(e.segs), Min(255, |e.segs|);
    if e.bos {
      NoStopAtStart(e.segs, nfill);
      forall k | 0 < k <= max
        ensures NominalStop(e.segs, k, nfill) == Enough(lens, k, nfill)
      {
        NominalIsEnough(e.segs, k, nfill);
      }
    } else {
      hide Sized;
      FirstPacketCut(e.segs, max, nfill);
    }
  }

  lemma {:induction false} NoStopAtStart(segs: seq<Segment>, nfill: int)
    ensures !NominalStop(segs, 0, nfill)
  {
  }

  lemma {:induction false} FirstPacketCut(segs: seq<Segment>, max: nat, nfill: int)
    requires Sized(segs) && 0 < max <= |segs|
    ensures var n, lens := Run(segs[..max]), LensOf(segs);
            && 0 < n <= max && (n < max ==> lens[n - 1] < 255)
            && forall k | 0 < k < n :: !MayEnd(false, lens, k, nfill)
  {
    hide Run, Enough;
    var n := Run(segs[..max]);
    FirstCut(segs, max);
    forall k | 0 < k < n
      ensures !MayEnd(false, LensOf(segs), k, nfill)
    {
      assert !Ends(segs[k - 1]);
    }
  }

  /** There is one cut only. */
  lemma {:induction false} CutUnique(bos: bool, lens: seq<byte>, n: nat, m: nat, nfill: int)
    requires Cut(bos, lens, n, nfill) && Cut(bos, lens, m, nfill)
    ensures n == m
  {
    hide MayEnd;
  }

  /** What a flush leaves and what is on its page: the segments up to the cut. */
  predicate TakesUpTo(e: EncState, e': EncState, p: Page, n: nat)
    requires Sized(e.segs)
  {
    && n <= |e.segs| && e' == e.(segs := e.segs[n..], bos := true, pageno := (if e.pageno == -1 then 0 else e.pageno) + 1)
    && WellFormed(p) && Lens(p) == LensOf(e.segs)[..n] && PageChunks(p) == Datas(e.segs)[..n]
  }

  /** A flush that is not forced emits a page exactly if a page was out and 255 segments are pending, or a page has
      enough before. */
  lemma {:induction false} FlushExact(e: EncState, force: bool, nfill: int)
    requires Sized(e.segs)
    ensures var (e', page) := Flush(e, force, nfill);
            var lens := LensOf(e.segs);
            && (page.Some? <==> lens != [] && (force || (e.bos && (|lens| >= 255 || EnoughBefore(lens, nfill)))))
            && (page.None? ==> e' == e)
            && (page.Some? ==> Cut(e.bos, lens, |lens| - |e'.segs|, nfill)
                               && TakesUpTo(e, e', page.value, |lens| - |e'.segs|))
  {
    hide MakePage, EndGranule, Cut, EnoughBefore, TakesUpTo, Encoder.PageSize;
    if e.segs != [] {
      SizeCut(e, nfill);
      CutShort(e.bos, LensOf(e.segs), Encoder.PageSize(e, nfill), nfill);
      if Flush(e, force, nfill).1.Some? {
        FlushTakes(e, force, nfill);
      }
    }
  }

  /** A cut before all segments are taken and before 255 is a place where the page has enough. */
  lemma {:induction false} CutShort(bos: bool, lens: seq<byte>, n: nat, nfill: int)
    requires Cut(bos, lens, n, nfill)
    ensures 0 < n <= |lens| && n <= 255
    ensures bos ==> (n == 255 || n < (if |lens| < 255 then |lens| else 255) <==> |lens| >= 255 || EnoughBefore(lens, nfill))
  {
    hide Enough;
    if bos && n < |lens| && n < 255 {
      assert Enough(lens, n, nfill);
    }
    if bos && EnoughBefore(lens, nfill) {
      var k :| 0 < k < |lens| && k < 255 && Enough(lens, k, nfill);
      assert MayEnd(bos, lens, k, nfill);
      assert n <= k;
    }
  }

  lemma {:induction false} FlushTakes(e: EncState, force: bool, nfill: int)
    requires Sized(e.segs) && Flush(e, force, nfill).1.Some?
    ensures var (e', page) := Flush(e, force, nfill);
            |LensOf(e.segs)| - |e'.segs| == Encoder.PageSize(e, nfill)
            && TakesUpTo(e, e', page.value, Encoder.PageSize(e, nfill))
  {
    hide Flush, LensOf, Datas, PageChunks, Encoder.PageSize, MakePage, EndGranule, WellFormed, Checksum, Lens, NominalStop;
    var n := Encoder.PageSize(e, nfill);
    FlushState(e, force, nfill);
    FlushEmits(e, force, nfill);
    TakenTable(e.segs, n);
    TakenData(e.segs, n);
  }

  lemma {:induction false} TakenData(segs: seq<Segment>, n: nat)
    requires n <= |segs|
    ensures Datas(segs[..n]) == Datas(segs)[..n]
  {
  }

  lemma {:induction false} FlushState(e: EncState, force: bool, nfill: int)
    requires Sized(e.segs) && Flush(e, force, nfill).1.Some?
    ensures var n := Encoder.PageSize(e, nfill);
            n <= |e.segs|
            && Flush(e, force, nfill).0
               == e.(segs := e.segs[n..], bos := true, pageno := (if e.pageno == -1 then 0 else e.pageno) + 1)
  {
    hide MakePage, EndGranule, LensOf, Encoder.PageSize;
  }

  /** `ogg_stream_pageout_fill` emits a page exactly if something is pending, and the end was announced, or no page is
      out, or 255 segments are pending, or a page has enough before; the page ends at the cut. */
  lemma {:induction false} PageOutExact(e: EncState, nfill: int)
    requires Sized(e.segs)
    ensures var (e', page) := PageOut(e, nfill);
            var lens := LensOf(e.segs);
            && (page.Some? <==> lens != [] && (e.eos || !e.bos || |lens| >= 255 || EnoughBefore(lens, nfill)))
            && (page.None? ==> e' == e)
            && (page.Some? ==> Cut(e.bos, lens, |lens| - |e'.segs|, nfill)
                               && TakesUpTo(e, e', page.value, |lens| - |e'.segs|))
  {
    hide Flush, Cut, EnoughBefore, TakesUpTo;
    FlushExact(e, e.segs != [] && (e.eos || !e.bos), nfill);
  }

  /** Once the end was announced, calls to `ogg_stream_pageout_fill` until it returns nothing put every packet submitted
      on a page, from any point of any run. */
  lemma {:induction false} TriesDrain(serialno: int, reset: bool, ops: seq<Op>, nfill: int) returns (tries: nat)
    requires Encodable(Submitted(ops)) && Int32(serialno) && AnyEos(Submitted(ops))
    ensures var ops' := ops + seq(tries, _ => TryPage(nfill));
            var (e, pages) := Execute(Init(serialno, reset), ops');
            && Submitted(ops') == Submitted(ops)
            && e.segs == [] && AllWellFormed(pages) && PagesEnded(pages) == |Submitted(ops)|
    decreases |Execute(Init(serialno, reset), ops).0.segs|
  {
    hide PageOut, AnyEos, EnoughBefore, Cut, TakesUpTo, PagesEnded, LastsKept, Lasts;
    var e0 := Init(serialno, reset);
    var e := Execute(e0, ops).0;
    if e.segs == [] {
      tries := 0;
      BodiesConserved(serialno, reset, ops);
      assert ops + seq(0, _ => TryPage(nfill)) == ops;
    } else {
      RunLasts(serialno, reset, ops);
      var next := ops + [TryPage(nfill)];
      assert next[..|ops|] == ops;
      PageOutShrinks(e, nfill);
      assert Submitted(next) == Submitted(ops);
      var more := TriesDrain(serialno, reset, next, nfill);
      tries := more + 1;
      assert next + seq(more, _ => TryPage(nfill)) == ops + seq(tries, _ => TryPage(nfill));
    }
  }

  lemma {:induction false} PageOutShrinks(e: EncState, nfill: int)
    requires Sized(e.segs) && e.segs != [] && e.eos
    ensures |PageOut(e, nfill).0.segs| < |e.segs|
  {
    PageOutExact(e, nfill);
    hide PageOut, TakesUpTo, MayEnd;
  }

  lemma {:induction false} FlushCounters(e: EncState, force: bool, nfill: int)
    requires Sized(e.segs)
    ensures var e' := Flush(e, force, nfill).0;
            e'.packetno == e.packetno && e'.granulepos == e.granulepos && e'.serialno == e.serialno
  {
    hide Flush;
    if Flush(e, force, nfill).1.Some? {
      FlushState(e, force, nfill);
    } else {
      FlushExact(e, force, nfill);
    }
  }

  /** In every run the packet counter counts the packets submitted, and the position kept for the segments in the middle of
      the next packet is that of the last one. */
  lemma {:induction false} RunCounters(serialno: int, reset: bool, ops: seq<Op>)
    ensures var e := Execute(Init(serialno, reset), ops).0;
            var packets := Submitted(ops);
            && e.serialno == serialno && e.packetno == |packets|
            && e.granulepos == if packets == [] then 0 else packets[|packets| - 1].granulepos
  {
    hide Flush;
    if ops != [] {
      var n := |ops| - 1;
      RunCounters(serialno, reset, ops[..n]);
      var e := Execute(Init(serialno, reset), ops[..n]).0;
      match ops[n]
      case Submit(p) =>
      case TryPage(nfill) => FlushCounters(e, e.segs != [] && (e.eos || !e.bos), nfill);
      case ForcePage(nfill) => FlushCounters(e, true, nfill);
    }
  }
}
