/** The fields of an `ogg_stream_state` read as encoder and decoder states, and what encoding does to them. */
module StreamFields {
  import opened Bytes
  import opened OggPage
  import opened Segments
  import opened Lacings
  import E = Encoder
  import D = Decoder

  function PacketLacing(bytes: nat): (l: seq<Lacing>)
    ensures |l| == bytes / 255 + 1
  {
    seq(bytes / 255 + 1, i requires 0 <= i =>
      Lacing(if i < bytes / 255 then 255 else bytes % 255, i == 0, false, false))
  }

  predicate NoHoles(lacing: seq<Lacing>) {
    forall i :: 0 <= i < |lacing| ==> !lacing[i].hole
  }

  function PacketGranules(bytes: nat, previous: int, granulepos: int): (g: seq<int>)
    ensures |g| == bytes / 255 + 1
  {
    seq(bytes / 255 + 1, i requires 0 <= i => if i < bytes / 255 then previous else granulepos)
  }

  /** The lacing stored for a packet describes the packet's segments. */
  lemma {:induction false} PacketLacingSegments(data: seq<byte>, previous: int, granulepos: int)
    ensures var l, g := PacketLacing(|data|), PacketGranules(|data|, previous, granulepos);
            && |data| == Sum(LensIn(l))
            && SegmentsIn(l, g, data) == PacketSegments(data, previous, granulepos) && NoHoles(l)
  {
    hide Chunks, Sum, Split, LensIn, Datas, Body, SegmentAt;
    var l, g, s := PacketLacing(|data|), PacketGranules(|data|, previous, granulepos), PacketSegments(data, previous, granulepos);
    PacketSegmentsShape(data, previous, granulepos);
    PacketLens(data, previous, granulepos);
    SplitUnique(s);
    hide PacketLacing, PacketGranules, PacketSegments, SegmentsIn;
    forall i | 0 <= i < |l|
      ensures SegmentsIn(l, g, data)[i] == s[i]
    {
      PacketEntry(data, previous, granulepos, i);
    }
  }

  lemma {:induction false} PacketLens(data: seq<byte>, previous: int, granulepos: int)
    requires Sized(PacketSegments(data, previous, granulepos))
    ensures LensOf(PacketSegments(data, previous, granulepos)) == LensIn(PacketLacing(|data|))
  {
    hide Chunks;
    ChunksJoin(data);
  }

  lemma {:induction false} PacketEntry(data: seq<byte>, previous: int, granulepos: int, i: nat)
    requires i < |data| / 255 + 1
    ensures var s := PacketSegments(data, previous, granulepos);
            SegmentAt(PacketLacing(|data|)[i], PacketGranules(|data|, previous, granulepos)[i], Datas(s)[i]) == s[i]
  {
    hide Chunks;
  }

  /** The fields of an `ogg_stream_state`, with the contents of its buffers. */
  datatype Fields = Fields(bodyData: seq<byte>, bodyFill: nat, bodyReturned: nat,
                           lacingVals: seq<Lacing>, granuleVals: seq<int>,
                           lacingFill: nat, lacingPacket: nat, lacingReturned: nat,
                           eos: bool, bos: bool, serialno: int, pageno: int, packetno: int, granulepos: int)
  {
    predicate InBounds() {
      && bodyReturned <= bodyFill <= |bodyData|
      && lacingReturned <= lacingPacket <= lacingFill <= |lacingVals| == |granuleVals|
    }

    /** The entries, granule values and body octets not yet returned. */
    function Entries(): (l: seq<Lacing>)
      requires InBounds()
      ensures |l| == lacingFill - lacingReturned
    {
      lacingVals[lacingReturned..lacingFill]
    }

    function Granules(): (g: seq<int>)
      requires InBounds()
      ensures |g| == lacingFill - lacingReturned
    {
      granuleVals[lacingReturned..lacingFill]
    }

    function Octets(): (x: seq<byte>)
      requires InBounds()
      ensures |x| == bodyFill - bodyReturned
    {
      bodyData[bodyReturned..bodyFill]
    }

    /** The buffered octets are exactly those the lacing values account for. */
    predicate Valid() {
      InBounds() && |Octets()| == Sum(LensIn(Entries()))
    }

    function Segs(): seq<Segment>
      requires Valid()
    {
      SegmentsIn(Entries(), Granules(), Octets())
    }

    lemma {:induction false} SegsSized()
      requires Encoding()
      ensures Sized(Segs()) && lacingReturned == 0 && |Segs()| == lacingFill
      ensures forall i :: 0 <= i < lacingFill ==> |Segs()[i].data| == lacingVals[i].len && Segs()[i].granulepos == granuleVals[i]
    {
      SegmentsInSized(Entries(), Granules(), Octets());
    }

    /** The packet at the front ends before the unfinished one. */
    lemma {:induction false} RunInside()
      requires Decoding() && lacingReturned < lacingPacket
      ensures |Segs()| == lacingFill - lacingReturned && 0 < Run(Segs()) <= lacingPacket - lacingReturned
    {
      D.RunWithinComplete(Dec());
      hide D.Valid, SegmentsIn;
    }

    /** The state as the encoder sees it. */
    function Enc(): E.EncState
      requires Valid()
    {
      E.EncState(Segs(), bos, eos, serialno, pageno, packetno, granulepos)
    }

    /** The state as the decoder sees it. */
    function Dec(): D.DecState
      requires Valid()
    {
      D.DecState(Segs(), lacingPacket - lacingReturned, serialno, pageno, eos, packetno)
    }

    /** A stream used for encoding only: `pagein` and `packetout` never touched it. */
    predicate Encoding() {
      Valid() && lacingPacket == 0 && NoHoles(Entries())
    }

    /** A stream used for decoding. */
    ghost predicate Decoding() {
      Valid() && D.Valid(Dec())
    }
  }

  lemma {:induction false} EmptyFields(f: Fields, reset: bool)
    requires f.InBounds() && f.lacingFill == 0 && f.bodyFill == 0
    requires !f.eos && !f.bos && f.packetno == f.granulepos == 0 && f.pageno == if reset then -1 else 0
    ensures f.Encoding() && f.Decoding()
    ensures f.Enc() == E.Init(f.serialno, reset) && f.Dec() == D.Init(f.serialno, reset)
  {
    D.InitValid(f.serialno, reset);
    assert f.Entries() == [] && f.Octets() == [];
  }

  /** The buffers with a packet appended. */
  predicate Appended(f: Fields, f': Fields, data: seq<byte>, endOfStream: bool, granulepos: int)
    requires f.InBounds()
  {
    && f'.InBounds() && f'.lacingPacket == f'.bodyReturned == 0
    && f'.bodyData[..f'.bodyFill] == f.Octets() + data
    && f'.lacingVals[..f'.lacingFill] == f.Entries() + PacketLacing(|data|)
    && f'.granuleVals[..f'.lacingFill] == f.Granules() + PacketGranules(|data|, f.granulepos, granulepos)
    && f'.eos == (f.eos || endOfStream) && f'.bos == f.bos && f'.serialno == f.serialno && f'.pageno == f.pageno
    && f'.packetno == f.packetno + 1 && f'.granulepos == granulepos
  }

  lemma {:induction false} AppendedIntro(f: Fields, f': Fields, data: seq<byte>, endOfStream: bool, granulepos: int)
    requires f.InBounds() && f.lacingReturned == 0 && f'.InBounds() && f'.lacingPacket == f'.bodyReturned == 0
    requires f'.bodyData[..f'.bodyFill] == f.bodyData[f.bodyReturned..f.bodyFill] + data
    requires f'.lacingVals[..f'.lacingFill] == f.lacingVals[..f.lacingFill] + PacketLacing(|data|)
    requires f'.granuleVals[..f'.lacingFill] == f.granuleVals[..f.lacingFill] + PacketGranules(|data|, f.granulepos, granulepos)
    requires f'.eos == (f.eos || endOfStream) && f'.bos == f.bos && f'.serialno == f.serialno && f'.pageno == f.pageno
    requires f'.packetno == f.packetno + 1 && f'.granulepos == granulepos
    ensures Appended(f, f', data, endOfStream, granulepos)
  {
    hide PacketLacing, PacketGranules;
    FromZero(f.lacingVals, f.lacingFill);
    FromZero(f.granuleVals, f.lacingFill);
  }

  lemma {:induction false} AppendedContents(f: Fields, f': Fields, data: seq<byte>, endOfStream: bool, granulepos: int)
    requires f.InBounds() && Appended(f, f', data, endOfStream, granulepos)
    ensures f'.Octets() == f.Octets() + data && f'.Entries() == f.Entries() + PacketLacing(|data|)
    ensures f'.Granules() == f.Granules() + PacketGranules(|data|, f.granulepos, granulepos)
  {
    hide PacketLacing, PacketGranules;
    FromZero(f'.lacingVals, f'.lacingFill);
    FromZero(f'.granuleVals, f'.lacingFill);
    FromZero(f'.bodyData, f'.bodyFill);
  }

  lemma {:induction false} AppendPacketFields(f: Fields, f': Fields, data: seq<byte>, endOfStream: bool, granulepos: int)
    requires f.Encoding() && Appended(f, f', data, endOfStream, granulepos)
    ensures f'.Encoding() && f'.Enc() == E.PacketIn(f.Enc(), E.Packet(data, endOfStream, granulepos))
  {
    hide SegmentsIn, LensIn, Sum, PacketLacing, PacketGranules, PacketSegments, NoHoles, Fields.Entries, Fields.Granules,
      Fields.Octets;
    var l, g := PacketLacing(|data|), PacketGranules(|data|, f.granulepos, granulepos);
    AppendedContents(f, f', data, endOfStream, granulepos);
    PacketLacingSegments(data, f.granulepos, granulepos);
    SegmentsAppend(f.Entries(), f.Granules(), f.Octets(), l, g, data);
    NoHolesAppend(f.Entries(), l);
  }

  lemma {:induction false} FromZero<T>(s: seq<T>, n: nat)
    requires n <= |s|
    ensures s[0..n] == s[..n]
  {
  }

  lemma {:induction false} NoHolesAppend(a: seq<Lacing>, b: seq<Lacing>)
    ensures NoHoles(a) && NoHoles(b) <==> NoHoles(a + b)
  {
    if NoHoles(a + b) {
      assert forall i :: 0 <= i < |a| ==> (a + b)[i] == a[i];
      assert forall i :: 0 <= i < |b| ==> (a + b)[|a| + i] == b[i];
    }
  }

  /** The first `n` segments' bodies are buffered. */
  lemma {:induction false} TakeFits(f: Fields, n: nat)
    requires f.Encoding() && n <= f.lacingFill
    ensures f.bodyReturned + Sum(LensIn(f.lacingVals[..n])) <= f.bodyFill
  {
    SegmentsCut(f.Entries(), f.Granules(), f.Octets(), n);
    SliceOfSlice(f.lacingVals, f.lacingReturned, f.lacingFill, n);
    FromZero(f.lacingVals, n);
    hide LensIn, Sum, SegmentsIn;
  }

  /** What is left in the buffers, and what was taken. */
  lemma {:induction false} TakenParts(f: Fields, f': Fields, n: nat, m: nat)
    requires f.InBounds() && f.lacingPacket == 0 && n <= f.lacingFill && m <= f.bodyFill - f.bodyReturned
    requires f'.lacingReturned == f'.lacingPacket == 0 && f'.lacingFill <= |f'.lacingVals| == |f'.granuleVals|
    requires f'.lacingVals[..f'.lacingFill] == f.lacingVals[n..f.lacingFill]
    requires f'.granuleVals[..f'.lacingFill] == f.granuleVals[n..f.lacingFill]
    requires f'.bodyData == f.bodyData && f'.bodyFill == f.bodyFill && f'.bodyReturned == f.bodyReturned + m
    ensures f'.InBounds() && f'.Entries() == f.Entries()[n..] && f'.Granules() == f.Granules()[n..]
            && f'.Octets() == f.Octets()[m..]
    ensures f.Entries()[..n] == f.lacingVals[..n] && f.Octets()[..m] == f.bodyData[f.bodyReturned..f.bodyReturned + m]
  {
    SliceOfSlice(f.lacingVals, f.lacingReturned, f.lacingFill, n);
    SliceOfSlice(f.granuleVals, f.lacingReturned, f.lacingFill, n);
    SliceOfSlice(f.bodyData, f.bodyReturned, f.bodyFill, m);
    FromZero(f'.lacingVals, f'.lacingFill);
    FromZero(f'.granuleVals, f'.lacingFill);
    FromZero(f.lacingVals, n);
  }

  /** Taking the first `n` segments off the buffers. */
  lemma {:induction false} TakeFields(f: Fields, f': Fields, n: nat)
    requires f.Encoding() && n <= f.lacingFill
    requires f'.lacingReturned == f'.lacingPacket == 0 && f'.lacingFill <= |f'.lacingVals| == |f'.granuleVals|
    requires f'.lacingVals[..f'.lacingFill] == f.lacingVals[n..f.lacingFill]
    requires f'.granuleVals[..f'.lacingFill] == f.granuleVals[n..f.lacingFill]
    requires f'.bodyData == f.bodyData && f'.bodyFill == f.bodyFill
    requires f'.bodyReturned == f.bodyReturned + Sum(LensIn(f.lacingVals[..n]))
    requires f'.eos == f.eos && f'.serialno == f.serialno && f'.packetno == f.packetno && f'.granulepos == f.granulepos
    ensures f'.Encoding() && n <= |f.Segs()| && Sized(f.Segs())
    ensures f'.Enc() == E.EncState(f.Segs()[n..], f'.bos, f.eos, f.serialno, f'.pageno, f.packetno, f.granulepos)
    ensures LensOf(f.Segs()[..n]) == LensIn(f.lacingVals[..n])
    ensures Body(f.Segs()[..n]) == f.bodyData[f.bodyReturned..f'.bodyReturned]
  {
    hide SegmentsIn, LensIn, Sum, LensOf, Body, NoHoles;
    var m := Sum(LensIn(f.lacingVals[..n]));
    TakeFits(f, n);
    TakenParts(f, f', n, m);
    hide Fields.Entries, Fields.Granules, Fields.Octets, Fields.InBounds;
    var l, g, x := f.Entries(), f.Granules(), f.Octets();
    SegmentsCut(l, g, x, n);
    SliceJoin(l, n);
    NoHolesAppend(l[..n], l[n..]);
    SegmentsInSized(l, g, x);
    SegmentsInSized(l[..n], g[..n], x[..m]);
  }

  lemma {:induction false} SliceOfSlice<T>(s: seq<T>, i: nat, j: nat, n: nat)
    requires i <= j <= |s| && n <= j - i
    ensures s[i..j][..n] == s[i..i + n] && s[i..j][n..] == s[i + n..j]
  {
  }

  /** The first stop is where the search ends. */
  lemma {:induction false} CutAt(segs: seq<Segment>, k: nat, n: nat, max: nat, nfill: int)
    requires k <= n <= max <= |segs|
    requires forall j :: k <= j < n ==> !E.NominalStop(segs, j, nfill)
    requires n == max || E.NominalStop(segs, n, nfill)
    ensures E.NominalCut(segs, k, max, nfill) == n
  {
  }

  /** The first run ends where the first ending segment is. */
  lemma {:induction false} RunAt(segs: seq<Segment>, n: nat)
    requires 0 < n <= |segs| && (forall j :: 0 <= j < n - 1 ==> !Ends(segs[j])) && (n == |segs| || Ends(segs[n - 1]))
    ensures Run(segs) == n
  {
  }

  /** Chooses how many of the buffered segments go on the next page, and its granule position. */
  method ChooseSegments(lacingVals: array<Lacing>, granuleVals: array<int>, lacingFill: nat, bos: bool, nfill: int,
                        ghost segs: seq<Segment>)
    returns (vals: nat, full: bool, granulepos: int)
    requires lacingFill == |segs| <= lacingVals.Length == granuleVals.Length
    requires forall i :: 0 <= i < lacingFill ==> |segs[i].data| == lacingVals[i].len && segs[i].granulepos == granuleVals[i]
    ensures var max := E.Min(255, |segs|);
            && vals == (if bos then E.NominalCut(segs, 0, max, nfill) else Run(segs[..max]))
            && full == (bos && (vals == 255 || vals < max))
            && granulepos == if bos then E.EndGranule(segs[..vals]) else 0
  {
    hide Body, E.PacketsDone, E.EndGranule, E.NominalCut;
    var maxvals := if lacingFill > 255 then 255 else lacingFill;
    vals, full := 0, false;
    TakeNone(segs);
    if !bos {
      granulepos := 0;
      while vals < maxvals
        invariant vals <= maxvals && forall j :: 0 <= j < vals ==> !Ends(segs[j])
      {
        vals := vals + 1;
        if lacingVals[vals - 1].len < 255 {
          break;
        }
      }
      if vals > 0 {
        RunAt(segs[..maxvals], vals);
      }
    } else {
      granulepos := -1;
      var acc, packetsDone, packetJustDone := 0, 0, 0;
      while vals < maxvals
        invariant vals <= maxvals && !full
        invariant acc == |Body(segs[..vals])| && packetsDone == E.PacketsDone(segs[..vals])
        invariant packetJustDone == if vals > 0 && Ends(segs[vals - 1]) then packetsDone else 0
        invariant granulepos == E.EndGranule(segs[..vals])
        invariant forall j :: 0 <= j < vals ==> !E.NominalStop(segs, j, nfill)
      {
        if acc > nfill && packetJustDone >= 4 {
          full := true;
          break;
        }
        acc := acc + lacingVals[vals].len;
        if lacingVals[vals].len < 255 {
          granulepos := granuleVals[vals];
          packetsDone := packetsDone + 1;
          packetJustDone := packetsDone;
        } else {
          packetJustDone := 0;
        }
        TakeOne(segs, vals);
        vals := vals + 1;
      }
      CutAt(segs, 0, vals, maxvals, nfill);
      if vals == 255 {
        full := true;
      }
    }
  }

  /** The state after a page of `n` segments, and the page. */
  function PageTaken(e: E.EncState, n: nat, granulepos: int): (r: (E.EncState, Page))
    requires 0 < n <= |e.segs| && n <= 255 && Sized(e.segs)
  {
    var pageno := if e.pageno == -1 then 0 else e.pageno;
    (e.(segs := e.segs[n..], bos := true, pageno := pageno + 1),
     MakePage(!e.segs[0].first, !e.bos, e.eos && n == |e.segs|, granulepos, e.serialno, pageno, LensOf(e.segs[..n]),
         Body(e.segs[..n])))
  }

  /** What a flush does once the segments are chosen. */
  lemma {:induction false} FlushIs(e: E.EncState, force: bool, nfill: int, n: nat, full: bool, granulepos: int)
    requires Sized(e.segs) && e.segs != []
    requires n == if e.bos then E.NominalCut(e.segs, 0, E.Min(255, |e.segs|), nfill) else Run(e.segs[..E.Min(255, |e.segs|)])
    requires full == (e.bos && (n == 255 || n < E.Min(255, |e.segs|)))
    requires granulepos == if e.bos then E.EndGranule(e.segs[..n]) else 0
    ensures !force && !full ==> E.Flush(e, force, nfill) == (e, None)
    ensures force || full ==>
              && 0 < n <= |e.segs| && n <= 255
              && E.Flush(e, force, nfill) == (PageTaken(e, n, granulepos).0, Some(PageTaken(e, n, granulepos).1))
  {
  }

  lemma {:induction false} TakeNone(segs: seq<Segment>)
    ensures |Body(segs[..0])| == E.PacketsDone(segs[..0]) == 0 && E.EndGranule(segs[..0]) == -1
  {
  }

  lemma {:induction false} TakeOne(segs: seq<Segment>, n: nat)
    requires n < |segs|
    ensures |Body(segs[..n + 1])| == |Body(segs[..n])| + |segs[n].data|
    ensures E.PacketsDone(segs[..n + 1]) == E.PacketsDone(segs[..n]) + if Ends(segs[n]) then 1 else 0
    ensures E.EndGranule(segs[..n + 1]) == if Ends(segs[n]) then segs[n].granulepos else E.EndGranule(segs[..n])
  {
    assert segs[..n + 1] == segs[..n] + [segs[n]];
    assert segs[..n + 1][..n] == segs[..n];
    BodyAppend(segs[..n], [segs[n]]);
    ConcatOne(segs[n].data);
    assert Datas([segs[n]]) == [segs[n].data];
  }

  /** Writes the low `k` octets of an integer, least significant first. */
  method WriteLE(a: array<byte>, at: nat, v: int, k: nat)
    requires at + k <= a.Length
    modifies a
    ensures a[..at + k] == old(a[..at]) + ToLE(v, k)
  {
    var w := v;
    for i := 0 to k
      invariant at + k <= a.Length && a[..at + i] + ToLE(w, k - i) == old(a[..at]) + ToLE(v, k)
    {
      ghost var before := a[..at + i];
      a[at + i] := w % 256;
      assert a[..at + i + 1] == before + [w % 256];
      Assoc(before, [w % 256], ToLE(w / 256, k - i - 1));
      w := w / 256;
    }
  }

  /** The total length of the vectors. */
  method Size(iov: seq<seq<byte>>) returns (bytes: nat)
    ensures bytes == |Concat(iov)|
  {
    bytes := 0;
    for i := 0 to |iov|
      invariant bytes == |Concat(iov[..i])|
    {
      assert iov[..i + 1][..i] == iov[..i];
      bytes := bytes + |iov[i]|;
    }
    assert iov[..|iov|] == iov;
  }
}
