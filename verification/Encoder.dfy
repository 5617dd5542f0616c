/** The page encoder as a function on values: what the encoding half of framing.c computes. */
module Encoder {
  import opened Bytes
  import opened OggPage
  import opened Segments
  import opened Framing

  datatype Packet = Packet(data: seq<byte>, eos: bool, granulepos: int)

  /** An `ogg_stream_state` used for encoding; `segs` are the segments not yet on a page. */
  datatype EncState = EncState(segs: seq<Segment>, bos: bool, eos: bool, serialno: int, pageno: int,
                               packetno: int, granulepos: int)

  /** `ogg_stream_iovecin`, with the vectors joined. */
  function PacketIn(e: EncState, p: Packet): EncState {
    e.(segs := e.segs + PacketSegments(p.data, e.granulepos, p.granulepos),
       eos := e.eos || p.eos,
       packetno := e.packetno + 1,
       granulepos := p.granulepos)
  }

  /** The number of packets that end among the segments. */
  function PacketsDone(segs: seq<Segment>): nat {
    if |segs| == 0 then 0
    else PacketsDone(segs[..|segs| - 1]) + if Ends(segs[|segs| - 1]) then 1 else 0
  }

  /** A page may stop before segment `k`: it is full enough, and four packets or more end on it, the last
      of them just before `k`. */
  predicate NominalStop(segs: seq<Segment>, k: nat, nfill: int)
    requires k <= |segs|
  {
    |Body(segs[..k])| > nfill && k > 0 && Ends(segs[k - 1]) && PacketsDone(segs[..k]) >= 4
  }

  /** The first stop at or after `k`, or `max`. */
  function NominalCut(segs: seq<Segment>, k: nat, max: nat, nfill: int): (n: nat)
    requires k <= max <= |segs|
    ensures k <= n <= max
    ensures n < max ==> NominalStop(segs, n, nfill)
    ensures forall j :: k <= j < n ==> !NominalStop(segs, j, nfill)
    decreases max - k
  {
    if k == max || NominalStop(segs, k, nfill) then k else NominalCut(segs, k + 1, max, nfill)
  }

  /** The granule position of the last packet to end, or -1. */
  function EndGranule(segs: seq<Segment>): int {
    if |segs| == 0 then -1
    else if Ends(segs[|segs| - 1]) then segs[|segs| - 1].granulepos
    else EndGranule(segs[..|segs| - 1])
  }

  function Min(a: nat, b: nat): nat { if a < b then a else b }

  /** How many segments the next page takes. */
  function PageSize(e: EncState, nfill: int): (n: nat)
    ensures n <= Min(255, |e.segs|)
  {
    var max := Min(255, |e.segs|);
    if !e.bos then Run(e.segs[..max]) else NominalCut(e.segs, 0, max, nfill)
  }

  /** `ogg_stream_flush_i`. */
  function Flush(e: EncState, force: bool, nfill: int): (r: (EncState, Option<Page>))
    requires Sized(e.segs)
    ensures Sized(r.0.segs)
    ensures r.1.None? ==> r.0 == e
  {
    var n := PageSize(e, nfill);
    var full := e.bos && (n == 255 || n < Min(255, |e.segs|));
    if |e.segs| == 0 || !(force || full) then (e, None) else
      var taken := e.segs[..n];
      var granulepos := if e.bos then EndGranule(taken) else 0;
      var pageno := if e.pageno == -1 then 0 else e.pageno;
      var page := MakePage(!e.segs[0].first, !e.bos, e.eos && n == |e.segs|, granulepos, e.serialno, pageno,
                           LensOf(taken), Body(taken));
      (e.(segs := e.segs[n..], bos := true, pageno := pageno + 1), Some(page))
  }

  /** `ogg_stream_pageout_fill`. */
  function PageOut(e: EncState, nfill: int): (r: (EncState, Option<Page>))
    requires Sized(e.segs)
    ensures Sized(r.0.segs)
  {
    Flush(e, e.segs != [] && (e.eos || !e.bos), nfill)
  }

  /** `ogg_stream_init`, or `ogg_stream_reset` when `reset` is set. */
  function Init(serialno: int, reset: bool): EncState {
    EncState([], false, false, serialno, if reset then -1 else 0, 0, 0)
  }

  // ----- Runs -----

  datatype Op =
    | Submit(packet: Packet)
    | TryPage(nfill: int)
    | ForcePage(nfill: int)

  function Apply(e: EncState, op: Op): (r: (EncState, Option<Page>))
    requires Sized(e.segs)
    ensures Sized(r.0.segs)
  {
    match op
    case Submit(p) =>
      PacketSegmentsShape(p.data, e.granulepos, p.granulepos);
      (PacketIn(e, p), None)
    case TryPage(nfill) => PageOut(e, nfill)
    case ForcePage(nfill) => Flush(e, true, nfill)
  }

  function Emitted(page: Option<Page>): seq<Page> {
    match page case None => [] case Some(p) => [p]
  }

  /** The state after a run, and the pages it emitted. */
  function Execute(e: EncState, ops: seq<Op>): (r: (EncState, seq<Page>))
    requires Sized(e.segs)
    ensures Sized(r.0.segs)
  {
    if |ops| == 0 then (e, []) else
      var (e', pages) := Execute(e, ops[..|ops| - 1]);
      var (e'', page) := Apply(e', ops[|ops| - 1]);
      (e'', pages + Emitted(page))
  }

  function Submitted(ops: seq<Op>): seq<Packet> {
    if |ops| == 0 then []
    else Submitted(ops[..|ops| - 1]) + match ops[|ops| - 1] case Submit(p) => [p] case _ => []
  }

  function AllChunks(packets: seq<Packet>): seq<seq<byte>> {
    if |packets| == 0 then [] else AllChunks(packets[..|packets| - 1]) + Chunks(packets[|packets| - 1].data)
  }

  // ----- What one flush does -----

  /** The emitted page carries exactly the segments it took. */
  lemma {:induction false} FlushEmits(e: EncState, force: bool, nfill: int)
    requires Sized(e.segs) && Flush(e, force, nfill).1.Some?
    ensures var n, p := PageSize(e, nfill), Flush(e, force, nfill).1.value;
            && 0 < n <= |e.segs| && n <= 255 && Sized(e.segs[..n])
            && WellFormed(p) && Lens(p) == LensOf(e.segs[..n]) && PageChunks(p) == Datas(e.segs[..n])
            && p.header[..4] == CAPTURE && p.header[22..26] == Checksum(p.header, p.body) && Version(p) == 0
            && Continued(p) == !e.segs[0].first && Bos(p) == !e.bos && Eos(p) == (e.eos && n == |e.segs|)
            && (Int32(e.serialno) ==> Serialno(p) == e.serialno)
            && (-1 <= e.pageno < TWO31 ==> Pageno(p) == if e.pageno == -1 then 0 else e.pageno)
            && (Int64(EndGranule(e.segs[..n])) ==> Granulepos(p) == if e.bos then EndGranule(e.segs[..n]) else 0)
            && (!e.bos || force || n == 255 || NominalStop(e.segs, n, nfill))
  {
    hide MakePage, Sum, Split, Checksum, Granulepos, Serialno, Pageno, Continued, Bos, Eos, Version, EndGranule;
    var n := PageSize(e, nfill);
    var taken := e.segs[..n];
    SplitUnique(taken);
    var granulepos := if e.bos then EndGranule(taken) else 0;
    var pageno := if e.pageno == -1 then 0 else e.pageno;
    MakePageFields(!e.segs[0].first, !e.bos, e.eos && n == |e.segs|, granulepos, e.serialno, pageno, LensOf(taken), Body(taken));
    MakePageChecksum(!e.segs[0].first, !e.bos, e.eos && n == |e.segs|, granulepos, e.serialno, pageno, LensOf(taken),
        Body(taken));
  }
}
