/** `ogg_stream_state`: the mutable object behind page encoding and decoding. */
module StreamState {
  import opened Bytes
  import opened OggPage
  import opened Segments
  import opened Lacings
  import opened StreamFields
  import opened DecodeFields
  import E = Encoder
  import D = Decoder

  class OggStreamState {
    var bodyData: array<byte>
    var bodyFill: nat
    var bodyReturned: nat
    var lacingVals: array<Lacing>
    var granuleVals: array<int>
    var lacingFill: nat
    var lacingPacket: nat
    var lacingReturned: nat
    const header: array<byte>
    var headerFill: nat
    var eos: bool
    var bos: bool
    var serialno: int
    var pageno: int
    var packetno: int
    var granulepos: int

    /** What every method keeps: the header buffer is a buffer of its own, and the lacing arrays run in parallel. */
    ghost predicate Valid()
      reads this
    {
      header.Length == 282 && header != bodyData && lacingVals.Length == granuleVals.Length
    }

    ghost function View(): Fields
      reads this, bodyData, lacingVals, granuleVals
    {
      Fields(bodyData[..], bodyFill, bodyReturned, lacingVals[..], granuleVals[..], lacingFill, lacingPacket, lacingReturned,
             eos, bos, serialno, pageno, packetno, granulepos)
    }

    /** `ogg_stream_init`. */
    constructor (serialno: int)
      ensures Valid() && View().Encoding() && View().Decoding()
      ensures View().Enc() == E.Init(serialno, false) && View().Dec() == D.Init(serialno, false)
      ensures fresh(bodyData) && fresh(lacingVals) && fresh(granuleVals) && fresh(header)
    {
      bodyData := new byte[16 * 1024];
      lacingVals := new Lacing[1024](_ => Lacing(0, false, false, false));
      granuleVals := new int[1024];
      header := new byte[282];
      bodyFill, bodyReturned := 0, 0;
      lacingFill, lacingPacket, lacingReturned := 0, 0, 0;
      headerFill := 0;
      eos, bos := false, false;
      this.serialno := serialno;
      pageno, packetno, granulepos := 0, 0, 0;
      new;
      EmptyFields(View(), false);
    }

    method ClearFields()
      modifies this`bodyFill, this`bodyReturned, this`lacingFill, this`lacingPacket, this`lacingReturned, this`headerFill,
               this`eos, this`bos, this`pageno, this`packetno, this`granulepos
      ensures bodyFill == bodyReturned == lacingFill == lacingPacket == lacingReturned == 0
      ensures !eos && !bos && pageno == -1 && packetno == granulepos == 0
    {
      bodyFill, bodyReturned := 0, 0;
      lacingFill, lacingPacket, lacingReturned := 0, 0, 0;
      headerFill := 0;
      eos, bos := false, false;
      pageno := -1;
      packetno, granulepos := 0, 0;
    }

    /** `ogg_stream_reset`. */
    method Reset()
      requires Valid()
      modifies this`bodyFill, this`bodyReturned, this`lacingFill, this`lacingPacket, this`lacingReturned, this`headerFill,
               this`eos, this`bos, this`pageno, this`packetno, this`granulepos
      ensures Valid() && View().Encoding() && View().Decoding()
      ensures View().Enc() == E.Init(serialno, true) && View().Dec() == D.Init(serialno, true)
    {
      ClearFields();
      EmptyFields(View(), true);
      hide *;
    }

    /** `_os_body_expand`. */
    method BodyExpand(needed: nat)
      requires bodyFill <= bodyData.Length
      modifies this`bodyData
      ensures bodyFill + needed < bodyData.Length
      ensures bodyData == old(bodyData) || fresh(bodyData)
      ensures bodyData[..bodyFill] == old(bodyData[..bodyFill])
    {
      if bodyData.Length <= bodyFill + needed {
        var grown := Grow(bodyData, bodyData.Length + needed + 1024);
        assert grown[..bodyFill] == grown[..bodyData.Length][..bodyFill] == bodyData[..bodyFill];
        bodyData := grown;
      }
    }

    /** `_os_lacing_expand`. */
    method LacingExpand(needed: nat)
      requires lacingFill <= lacingVals.Length == granuleVals.Length
      modifies this`lacingVals, this`granuleVals
      ensures lacingFill + needed < lacingVals.Length == granuleVals.Length
      ensures (lacingVals == old(lacingVals) && granuleVals == old(granuleVals)) || (fresh(lacingVals) && fresh(granuleVals))
      ensures lacingVals[..lacingFill] == old(lacingVals[..lacingFill])
      ensures granuleVals[..lacingFill] == old(granuleVals[..lacingFill])
    {
      if lacingVals.Length <= lacingFill + needed {
        var n := lacingVals.Length + needed + 32;
        var vals := Grow(lacingVals, n);
        var granules := Grow(granuleVals, n);
        assert vals[..lacingFill] == vals[..lacingVals.Length][..lacingFill] == lacingVals[..lacingFill];
        assert granules[..lacingFill] == granules[..granuleVals.Length][..lacingFill] == granuleVals[..lacingFill];
        lacingVals, granuleVals := vals, granules;
      }
    }

    /** Drops the body octets that were handed out. */
    method DropReturnedBody()
      requires bodyReturned <= bodyFill <= bodyData.Length
      modifies this`bodyFill, this`bodyReturned, bodyData
      ensures bodyReturned == 0 && bodyFill == old(bodyFill - bodyReturned)
      ensures bodyData[..bodyFill] == old(bodyData[bodyReturned..bodyFill])
    {
      if bodyReturned != 0 {
        bodyFill := bodyFill - bodyReturned;
        if bodyFill != 0 {
          MoveDown(bodyData, bodyReturned, bodyFill);
        }
        bodyReturned := 0;
      }
    }

    /** Stores the entries of full segments. */
    method StoreFull(count: nat, previous: int)
      requires lacingFill + count <= lacingVals.Length == granuleVals.Length
      modifies lacingVals, granuleVals
      ensures lacingVals[..lacingFill + count]
              == old(lacingVals[..lacingFill]) + seq(count, _ => Lacing(255, false, false, false))
      ensures granuleVals[..lacingFill + count] == old(granuleVals[..lacingFill]) + seq(count, _ => previous)
    {
      ghost var full := Lacing(255, false, false, false);
      for i := 0 to count
        invariant lacingVals[..lacingFill + i] == old(lacingVals[..lacingFill]) + seq(i, _ => full)
        invariant granuleVals[..lacingFill + i] == old(granuleVals[..lacingFill]) + seq(i, _ => previous)
      {
        lacingVals[lacingFill + i] := Lacing(255, false, false, false);
        granuleVals[lacingFill + i] := previous;
        assert lacingVals[..lacingFill + i + 1] == lacingVals[..lacingFill + i] + [full];
        assert granuleVals[..lacingFill + i + 1] == granuleVals[..lacingFill + i] + [previous];
      }
    }

    /** Stores the lacing of a packet. */
    method StoreLacing(bytes: nat, granulepos: int)
      requires lacingFill + bytes / 255 + 1 <= lacingVals.Length == granuleVals.Length
      modifies this`lacingFill, this`granulepos, lacingVals, granuleVals
      ensures this.granulepos == granulepos && lacingFill == old(lacingFill) + bytes / 255 + 1
      ensures lacingVals[..lacingFill] == old(lacingVals[..lacingFill]) + PacketLacing(bytes)
      ensures granuleVals[..lacingFill]
              == old(granuleVals[..lacingFill]) + PacketGranules(bytes, old(this.granulepos), granulepos)
    {
      var lacingCount, fill := bytes / 255 + 1, lacingFill;
      StoreFull(lacingCount - 1, this.granulepos);
      var last := fill + lacingCount - 1;
      lacingVals[last] := Lacing(bytes % 255, false, false, false);
      granuleVals[last] := granulepos;
      lacingVals[fill] := lacingVals[fill].(first := true);
      this.granulepos := granulepos;
      lacingFill := lacingFill + lacingCount;
    }

    /** Appends the vectors to the body. */
    method AppendBody(iov: seq<seq<byte>>)
      requires bodyFill + |Concat(iov)| <= bodyData.Length
      modifies this`bodyFill, bodyData
      ensures bodyFill == old(bodyFill) + |Concat(iov)|
      ensures bodyData[..bodyFill] == old(bodyData[..bodyFill]) + Concat(iov)
    {
      for i := 0 to |iov|
        invariant bodyFill == old(bodyFill) + |Concat(iov[..i])| <= bodyData.Length
        invariant bodyData[..bodyFill] == old(bodyData[..bodyFill]) + Concat(iov[..i])
        modifies this`bodyFill, bodyData
      {
        assert iov[..i + 1][..i] == iov[..i];
        ConcatAppend(iov[..i + 1], iov[i + 1..]);
        SliceJoin(iov, i + 1);
        CopyIn(bodyData, bodyFill, iov[i]);
        bodyFill := bodyFill + |iov[i]|;
      }
      assert iov[..|iov|] == iov;
    }

    /** Reclaims returned body space and grows the buffers. */
    method MakeRoom(bytes: nat, lacingCount: nat)
      requires bodyReturned <= bodyFill <= bodyData.Length && lacingFill <= lacingVals.Length == granuleVals.Length
      modifies this`bodyData, this`bodyFill, this`bodyReturned, this`lacingVals, this`granuleVals, bodyData
      ensures bodyReturned == 0 && bodyFill + bytes < bodyData.Length && lacingFill + lacingCount < lacingVals.Length
              == granuleVals.Length
      ensures bodyData == old(bodyData) || fresh(bodyData)
      ensures (lacingVals == old(lacingVals) && granuleVals == old(granuleVals)) || (fresh(lacingVals) && fresh(granuleVals))
      ensures bodyData[..bodyFill] == old(bodyData[bodyReturned..bodyFill])
      ensures lacingVals[..lacingFill] == old(lacingVals[..lacingFill])
      ensures granuleVals[..lacingFill] == old(granuleVals[..lacingFill])
    {
      DropReturnedBody();
      BodyExpand(bytes);
      LacingExpand(lacingCount);
    }

    method Append(iov: seq<seq<byte>>, bytes: nat, granulepos: int)
      requires bodyReturned <= bodyFill <= bodyData.Length && lacingFill <= lacingVals.Length == granuleVals.Length
      requires bytes == |Concat(iov)|
      modifies this`bodyData, this`bodyFill, this`bodyReturned, this`lacingVals, this`granuleVals, this`lacingFill,
               this`granulepos
      modifies bodyData, lacingVals, granuleVals
      ensures bodyReturned == 0 && bodyFill <= bodyData.Length && lacingFill <= lacingVals.Length == granuleVals.Length
      ensures this.granulepos == granulepos && lacingFill == old(lacingFill) + bytes / 255 + 1
      ensures bodyData == old(bodyData) || fresh(bodyData)
      ensures (lacingVals == old(lacingVals) && granuleVals == old(granuleVals)) || (fresh(lacingVals) && fresh(granuleVals))
      ensures bodyData[..bodyFill] == old(bodyData[bodyReturned..bodyFill]) + Concat(iov)
      ensures lacingVals[..lacingFill] == old(lacingVals[..lacingFill]) + PacketLacing(bytes)
      ensures granuleVals[..lacingFill]
              == old(granuleVals[..lacingFill]) + PacketGranules(bytes, old(this.granulepos), granulepos)
    {
      hide *;
      MakeRoom(bytes, bytes / 255 + 1);
      AppendBody(iov);
      StoreLacing(bytes, granulepos);
    }

    /** Appends a packet to the buffers and counts it. */
    method AppendPacket(iov: seq<seq<byte>>, endOfStream: bool, granulepos: int)
      requires Valid() && View().InBounds() && lacingPacket == 0
      modifies this, bodyData, lacingVals, granuleVals
      ensures Valid() && Appended(old(View()), View(), Concat(iov), endOfStream, granulepos)
      ensures (bodyData == old(bodyData) || fresh(bodyData)) && (lacingVals == old(lacingVals) || fresh(lacingVals))
      ensures granuleVals == old(granuleVals) || fresh(granuleVals)
    {
      hide PacketLacing, PacketGranules, Concat, Appended;
      ghost var f := View();
      var bytes := Size(iov);
      Append(iov, bytes, granulepos);
      packetno := packetno + 1;
      if endOfStream {
        eos := true;
      }
      AppendedIntro(f, View(), Concat(iov), endOfStream, granulepos);
    }

    /** `ogg_stream_iovecin`. */
    method IovecIn(iov: seq<seq<byte>>, endOfStream: bool, granulepos: int)
      requires Valid() && View().Encoding()
      modifies this, bodyData, lacingVals, granuleVals
      ensures Valid() && View().Encoding()
      ensures View().Enc() == E.PacketIn(old(View().Enc()), E.Packet(Concat(iov), endOfStream, granulepos))
      ensures (bodyData == old(bodyData) || fresh(bodyData)) && (lacingVals == old(lacingVals) || fresh(lacingVals))
      ensures granuleVals == old(granuleVals) || fresh(granuleVals)
    {
      hide SegmentsIn, Sum, LensIn, PacketLacing, PacketGranules, E.PacketIn, NoHoles, Concat, Appended;
      ghost var f := View();
      AppendPacket(iov, endOfStream, granulepos);
      AppendPacketFields(f, View(), Concat(iov), endOfStream, granulepos);
    }

    /** Writes a page header for the first `vals` segments; returns their total length. */
    method BuildHeader(vals: nat, granulepos: int) returns (bytes: nat)
      requires vals <= 255 && lacingFill <= lacingVals.Length && header.Length == 282 && vals <= lacingFill
      modifies this`bos, this`pageno, this`headerFill, header
      ensures bytes == Sum(LensIn(lacingVals[..vals]))
      ensures bos && pageno == (if old(pageno) == -1 then 0 else old(pageno)) + 1 && headerFill == vals + 27
      ensures header[..headerFill]
              == Header(Flags(vals == 0 || !lacingVals[0].first, !old(bos), eos && lacingFill == vals), granulepos, serialno,
                        pageno - 1, LensIn(lacingVals[..vals]))
    {
      hide ToLE, LensIn, Sum, Flags;
      StartHeader(Flags(vals == 0 || !lacingVals[0].first, !bos, eos && lacingFill == vals));
      bos := true;
      if pageno == -1 {
        pageno := 0;
      }
      WriteFields(granulepos, serialno, pageno);
      pageno := pageno + 1;
      bytes := WriteTable(vals);
      headerFill := vals + 27;
    }

    method StartHeader(flags: byte)
      requires header.Length == 282
      modifies header
      ensures header[..6] == CAPTURE + [0, flags]
    {
      header[0], header[1], header[2], header[3] := 79, 103, 103, 83;
      header[4] := 0;
      header[5] := flags;
    }

    method WriteFields(granulepos: int, serialno: int, pageno: int)
      requires header.Length == 282
      modifies header
      ensures header[..22] == old(header[..6]) + ToLE(granulepos, 8) + ToLE(serialno, 4) + ToLE(pageno, 4)
    {
      WriteLE(header, 6, granulepos, 8);
      WriteLE(header, 14, serialno, 4);
      WriteLE(header, 18, pageno, 4);
    }

    method WriteTable(vals: nat) returns (bytes: nat)
      requires vals <= 255 && vals <= lacingVals.Length && header.Length == 282
      modifies header
      ensures bytes == Sum(LensIn(lacingVals[..vals]))
      ensures header[..vals + 27] == old(header[..22]) + [0, 0, 0, 0] + [vals] + LensIn(lacingVals[..vals])
    {
      header[22], header[23], header[24], header[25] := 0, 0, 0, 0;
      header[26] := vals;
      bytes := 0;
      assert header[..27] == old(header[..22]) + [0, 0, 0, 0] + [vals];
      for i := 0 to vals
        invariant header[..27 + i] == old(header[..22]) + [0, 0, 0, 0] + [vals] + LensIn(lacingVals[..i])
        invariant bytes == Sum(LensIn(lacingVals[..i]))
      {
        header[27 + i] := lacingVals[i].len;
        bytes := bytes + header[27 + i];
        assert header[..27 + i + 1] == header[..27 + i] + [lacingVals[i].len];
        assert LensIn(lacingVals[..i + 1]) == LensIn(lacingVals[..i]) + [lacingVals[i].len];
      }
    }

    /** Removes the first `vals` segments, whose body is `bytes` long. */
    method Advance(vals: nat, bytes: nat)
      requires vals <= lacingFill <= lacingVals.Length == granuleVals.Length
      modifies this`lacingFill, this`bodyReturned, lacingVals, granuleVals
      ensures lacingFill == old(lacingFill) - vals && bodyReturned == old(bodyReturned) + bytes
      ensures lacingVals[..lacingFill] == old(lacingVals[vals..lacingFill])
      ensures granuleVals[..lacingFill] == old(granuleVals[vals..lacingFill])
    {
      lacingFill := lacingFill - vals;
      MoveDown(lacingVals, vals, lacingFill);
      MoveDown(granuleVals, vals, lacingFill);
      bodyReturned := bodyReturned + bytes;
    }

    /** Completes the header with its checksum, and copies the page out. */
    method Seal(start: nat, bytes: nat) returns (page: Page)
      requires header != bodyData && HEADER_BASE <= headerFill <= header.Length && start + bytes <= bodyData.Length
      modifies header
      ensures var body := bodyData[start..start + bytes]; page == Page(WithChecksum(old(header[..headerFill]), body), body)
    {
      hide WithChecksum;
      assert header[0..headerFill] == header[..headerFill];
      ChecksumSet(header, 0, headerFill, bodyData, start, bytes);
      page := Page(header[..headerFill], bodyData[start..start + bytes]);
    }

    /** Builds a page from the first `vals` segments and takes them off the buffers. */
    method TakePage(vals: nat, granulepos: int) returns (page: Page)
      requires Valid() && 0 < vals <= lacingFill <= lacingVals.Length && vals <= 255
      requires bodyReturned + Sum(LensIn(lacingVals[..vals])) <= bodyFill <= bodyData.Length
      modifies this`bos, this`pageno, this`headerFill, this`lacingFill, this`bodyReturned, header, lacingVals, granuleVals
      ensures bos && pageno == (if old(pageno) == -1 then 0 else old(pageno)) + 1
      ensures lacingFill == old(lacingFill) - vals
      ensures bodyReturned == old(bodyReturned) + Sum(LensIn(old(lacingVals[..vals])))
      ensures lacingVals[..lacingFill] == old(lacingVals[vals..lacingFill])
      ensures granuleVals[..lacingFill] == old(granuleVals[vals..lacingFill])
      ensures page == MakePage(!old(lacingVals[0].first), !old(bos), eos && old(lacingFill) == vals, granulepos, serialno,
                               pageno - 1, LensIn(old(lacingVals[..vals])), bodyData[old(bodyReturned)..bodyReturned])
    {
      hide LensIn, Sum, Header, Flags, WithChecksum, MakePage;
      ghost var lens, first, begun := LensIn(lacingVals[..vals]), lacingVals[0].first, bos;
      var bytes := BuildHeader(vals, granulepos);
      var start := bodyReturned;
      PageBuilt(!first, !begun, eos && lacingFill == vals, granulepos, serialno, pageno - 1, lens,
                bodyData[start..start + bytes]);
      Advance(vals, bytes);
      page := Seal(start, bytes);
    }

    method BuildPage(vals: nat, granulepos: int) returns (page: Page)
      requires Valid() && View().Encoding() && 0 < vals <= lacingFill && vals <= 255
      modifies this`bos, this`pageno, this`headerFill, this`lacingFill, this`bodyReturned, header, lacingVals, granuleVals
      ensures View().Encoding() && vals <= |old(View().Enc()).segs| && Sized(old(View().Enc()).segs)
      ensures (View().Enc(), page) == PageTaken(old(View().Enc()), vals, granulepos)
    {
      hide SegmentsIn, Sum, LensIn, MakePage, NoHoles, LensOf, Body;
      ghost var f := View();
      f.SegsSized();
      TakeFits(f, vals);
      page := TakePage(vals, granulepos);
      TakeFields(f, View(), vals);
    }

    /** `ogg_stream_flush_i`; the page is copied out of the buffers. */
    method FlushI(force: bool, nfill: int) returns (page: Option<Page>)
      requires Valid() && View().Encoding()
      modifies this`bos, this`pageno, this`headerFill, this`lacingFill, this`bodyReturned, header, lacingVals, granuleVals
      ensures Valid() && View().Encoding() && Sized(old(View().Enc()).segs)
      ensures (View().Enc(), page) == E.Flush(old(View().Enc()), force, nfill)
    {
      hide E.NominalCut, E.EndGranule, E.Flush, E.Min, Run, PageTaken, LensIn, Sum, SegmentsIn, NoHoles;
      ghost var f := View();
      f.SegsSized();
      page := None;
      if lacingFill == 0 {
        NothingToFlush(f.Enc(), force, nfill);
      } else {
        var vals, full, granulepos := ChooseSegments(lacingVals, granuleVals, lacingFill, bos, nfill, f.Segs());
        FlushIs(f.Enc(), force, nfill, vals, full, granulepos);
        if force || full {
          var p := BuildPage(vals, granulepos);
          page := Some(p);
        }
      }
    }

    /** `ogg_stream_pageout_fill`. */
    method PageOutFill(nfill: int) returns (page: Option<Page>)
      requires Valid() && View().Encoding()
      modifies this`bos, this`pageno, this`headerFill, this`lacingFill, this`bodyReturned, header, lacingVals, granuleVals
      ensures Valid() && View().Encoding() && Sized(old(View().Enc()).segs)
      ensures (View().Enc(), page) == E.PageOut(old(View().Enc()), nfill)
    {
      var force := (eos && lacingFill != 0) || (lacingFill != 0 && !bos);
      page := FlushI(force, nfill);
    }

    // ----- Decoding -----

    /** Drops what `packetout` has handed out. */
    method CleanUp()
      requires bodyReturned <= bodyFill <= bodyData.Length
      requires lacingReturned <= lacingPacket <= lacingFill <= lacingVals.Length == granuleVals.Length
      modifies this`bodyFill, this`bodyReturned, this`lacingFill, this`lacingPacket, this`lacingReturned,
               bodyData, lacingVals, granuleVals
      ensures bodyReturned == lacingReturned == 0 && bodyFill == old(bodyFill - bodyReturned)
      ensures lacingFill == old(lacingFill - lacingReturned) && lacingPacket == old(lacingPacket - lacingReturned)
      ensures bodyData[..bodyFill] == old(bodyData[bodyReturned..bodyFill])
      ensures lacingVals[..lacingFill] == old(lacingVals[lacingReturned..lacingFill])
      ensures granuleVals[..lacingFill] == old(granuleVals[lacingReturned..lacingFill])
    {
      DropReturnedBody();
      if lacingReturned != 0 {
        if lacingFill - lacingReturned != 0 {
          MoveDown(lacingVals, lacingReturned, lacingFill - lacingReturned);
          MoveDown(granuleVals, lacingReturned, lacingFill - lacingReturned);
        }
        lacingFill := lacingFill - lacingReturned;
        lacingPacket := lacingPacket - lacingReturned;
        lacingReturned := 0;
      }
    }

    /** Takes the unfinished packet's octets off the body. */
    method Unroll()
      requires lacingPacket <= lacingFill <= lacingVals.Length && bodyFill == Sum(LensIn(lacingVals[..lacingFill]))
      modifies this`bodyFill, this`lacingFill
      ensures lacingFill == lacingPacket && bodyFill == Sum(LensIn(lacingVals[..lacingPacket])) <= old(bodyFill)
    {
      hide LensIn, Sum;
      ghost var l := lacingVals[..lacingFill];
      DropEntry(l, lacingPacket);
      assert l[..lacingPacket] == lacingVals[..lacingPacket];
      for i := lacingPacket to lacingFill
        invariant bodyFill == Sum(LensIn(l[..lacingPacket])) + Sum(LensIn(l[i..]))
        modifies this`bodyFill
      {
        DropEntry(l, i);
        bodyFill := bodyFill - lacingVals[i].len;
      }
      DropEntry(l, lacingFill);
      lacingFill := lacingPacket;
    }

    /** Makes room, and on a sequence gap unrolls the unfinished packet and notes the gap. */
    method PrepareFor(pageno: int, segments: nat)
      requires bodyReturned == lacingReturned == 0 && bodyFill <= bodyData.Length
      requires lacingPacket <= lacingFill <= lacingVals.Length == granuleVals.Length
               && bodyFill == Sum(LensIn(lacingVals[..lacingFill]))
      modifies this`bodyFill, this`lacingFill, this`lacingPacket, this`lacingVals, this`granuleVals, lacingVals
      ensures lacingVals == old(lacingVals) || fresh(lacingVals)
      ensures granuleVals == old(granuleVals) || fresh(granuleVals)
      ensures bodyFill <= old(bodyFill) && lacingPacket <= lacingFill && lacingFill + segments <= lacingVals.Length
              == granuleVals.Length
      ensures var gap := Gap(pageno, old(this.pageno));
              var keep := if pageno == old(this.pageno) then old(lacingFill) else old(lacingPacket);
              && lacingFill == keep + |gap| && lacingPacket == old(lacingPacket) + |gap|
              && lacingVals[..lacingFill] == old(lacingVals[..lacingFill])[..keep] + gap
              && granuleVals[..keep] == old(granuleVals[..lacingFill])[..keep]
              && bodyFill == Sum(LensIn(old(lacingVals[..lacingFill])[..keep]))
    {
      hide LensIn, Sum;
      ghost var l, g := lacingVals[..lacingFill], granuleVals[..lacingFill];
      assert l[..lacingFill] == l && l[..lacingPacket] == lacingVals[..lacingPacket];
      assert g[..lacingFill] == g;
      LacingExpand(segments + 1);
      assert lacingVals[..lacingPacket] == l[..lacingPacket];
      assert granuleVals[..lacingPacket] == granuleVals[..lacingFill][..lacingPacket] == g[..lacingPacket];
      if pageno != this.pageno {
        Unroll();
        if this.pageno != -1 {
          NoteGap();
        } else {
          NothingAppended(l[..lacingFill]);
        }
      } else {
        NothingAppended(l);
      }
    }

    /** Notes that data is missing. */
    method NoteGap()
      requires lacingPacket == lacingFill < lacingVals.Length
      modifies this`lacingFill, this`lacingPacket, lacingVals
      ensures lacingPacket == lacingFill == old(lacingFill) + 1
      ensures lacingVals[..lacingFill] == old(lacingVals[..lacingFill]) + [HOLE_LACING]
    {
      lacingVals[lacingFill] := HOLE_LACING;
      lacingFill := lacingFill + 1;
      lacingPacket := lacingPacket + 1;
    }

    /** Skips a continuation whose beginning is missing. */
    method Skip(p: Page) returns (segptr: nat, offset: nat, bos: bool)
      requires WellFormed(p) && lacingFill <= lacingVals.Length
      ensures Skips(lacingVals[..lacingFill], p, segptr) && bos == (Bos(p) && !Orphan(lacingVals[..lacingFill], p))
      ensures offset == Sum(Lens(p)[..segptr]) <= |p.body|
    {
      hide Sum, Lens, Bos, Continued, SkipEnd;
      segptr, offset, bos := 0, 0, Bos(p);
      assert Lens(p)[..0] == [];
      SumEmpty();
      if Continued(p) {
        if lacingFill < 1 || lacingVals[lacingFill - 1] == HOLE_LACING {
          bos := false;
          segptr, offset := SkipRun(Lens(p));
        }
      }
      SliceJoin(Lens(p), segptr);
      SumAppend(Lens(p)[..segptr], Lens(p)[segptr..]);
    }

    /** Appends octets to the body. */
    method AddBody(data: seq<byte>)
      requires bodyFill <= bodyData.Length
      modifies this`bodyData, this`bodyFill, bodyData
      ensures bodyFill == old(bodyFill) + |data| <= bodyData.Length && (bodyData == old(bodyData) || fresh(bodyData))
      ensures bodyData[..bodyFill] == old(bodyData[..bodyFill]) + data
    {
      if |data| != 0 {
        BodyExpand(|data|);
        CopyIn(bodyData, bodyFill, data);
        bodyFill := bodyFill + |data|;
      }
    }

    /** The loop that stores a page's segment table from entry `segptr` on; yields the place of the last entry that
        ends a packet, or -1. */
    method StoreTable(table: seq<byte>, segptr: nat, first: bool) returns (saved: int)
      requires lacingPacket <= lacingFill && segptr <= |table|
      requires lacingFill + |table| - segptr <= lacingVals.Length == granuleVals.Length
      modifies this`lacingFill, this`lacingPacket, lacingVals, granuleVals
      ensures var lens := table[segptr..];
              && lacingFill == old(lacingFill) + |lens| <= lacingVals.Length
              && lacingVals[..lacingFill] == old(lacingVals[..lacingFill]) + PageLacing(lens, first)
              && granuleVals[..lacingFill] == old(granuleVals[..lacingFill]) + seq(|lens|, _ => -1)
              && saved == (if D.LastEnd(lens) > 0 then old(lacingFill) + D.LastEnd(lens) - 1 else -1)
              && lacingPacket == (if saved == -1 then old(lacingPacket) else saved + 1)
    {
      hide D.LastEnd, PageLacing;
      ghost var lens := table[segptr..];
      var bos := first;
      saved := -1;
      for i := segptr to |table|
        invariant lacingFill == old(lacingFill) + (i - segptr)
        invariant bos == (first && i == segptr)
        invariant lacingVals[..lacingFill] == old(lacingVals[..lacingFill]) + PageLacing(lens[..i - segptr], first)
        invariant granuleVals[..lacingFill] == old(granuleVals[..lacingFill]) + seq(i - segptr, _ => -1)
        invariant saved == if D.LastEnd(lens[..i - segptr]) > 0 then old(lacingFill) + D.LastEnd(lens[..i - segptr]) - 1 else -1
        invariant lacingPacket == if saved == -1 then old(lacingPacket) else saved + 1
        modifies this`lacingFill, this`lacingPacket, lacingVals, granuleVals
      {
        var val := table[i];
        StoreEntry(Lacing(val, bos, false, false));
        assert lens[..i - segptr + 1] == lens[..i - segptr] + [val];
        PageLacingSnoc(lens[..i - segptr], val, first);
        bos := false;
        if val < 255 {
          saved := lacingFill - 1;
          lacingPacket := lacingFill;
        }
      }
      assert lens[..|lens|] == lens;
    }

    /** Stores a page's segment table from entry `segptr` on, and the page's granule position. */
    method AddLacing(table: seq<byte>, segptr: nat, first: bool, granulepos: int)
      requires lacingPacket <= lacingFill && segptr <= |table|
      requires lacingFill + |table| - segptr <= lacingVals.Length == granuleVals.Length
      modifies this`lacingFill, this`lacingPacket, lacingVals, granuleVals
      ensures var lens := table[segptr..];
              && lacingFill == old(lacingFill) + |lens| <= lacingVals.Length && lacingPacket <= lacingFill
              && lacingVals[..lacingFill] == old(lacingVals[..lacingFill]) + PageLacing(lens, first)
              && granuleVals[..lacingFill] == old(granuleVals[..lacingFill]) + StoredGranules(lens, granulepos)
              && lacingPacket == if D.LastEnd(lens) > 0 then old(lacingFill) + D.LastEnd(lens) else old(lacingPacket)
    {
      hide D.LastEnd, PageLacing, StoredGranules;
      var saved := StoreTable(table, segptr, first);
      StoredGranulesPatch(table[segptr..], granulepos);
      if saved != -1 {
        granuleVals[saved] := granulepos;
      }
    }

    method StoreEntry(entry: Lacing)
      requires lacingFill < lacingVals.Length == granuleVals.Length
      modifies this`lacingFill, lacingVals, granuleVals
      ensures lacingFill == old(lacingFill) + 1
      ensures lacingVals[..lacingFill] == old(lacingVals[..lacingFill]) + [entry]
      ensures granuleVals[..lacingFill] == old(granuleVals[..lacingFill]) + [-1]
    {
      lacingVals[lacingFill] := entry;
      granuleVals[lacingFill] := -1;
      lacingFill := lacingFill + 1;
    }

    /** Flags the last entry as the end of the stream. */
    method MarkEos()
      requires lacingFill <= lacingVals.Length
      modifies this`eos, lacingVals
      ensures eos && lacingVals[..lacingFill] == MarkLastLacing(old(lacingVals[..lacingFill]))
    {
      eos := true;
      if lacingFill > 0 {
        lacingVals[lacingFill - 1] := lacingVals[lacingFill - 1].(last := true);
      }
    }

    /** Adds the segments of an accepted page. */
    method AddPage(p: Page) returns (ghost k: nat)
      requires WellFormed(p) && bodyReturned == lacingReturned == 0 && bodyFill <= bodyData.Length
      requires lacingPacket <= lacingFill && lacingFill + |Lens(p)| <= lacingVals.Length == granuleVals.Length
      modifies this`bodyData, this`bodyFill, this`lacingFill, this`lacingPacket, this`eos, bodyData, lacingVals, granuleVals
      ensures bodyFill <= bodyData.Length && lacingPacket <= lacingFill <= lacingVals.Length
      ensures bodyData == old(bodyData) || fresh(bodyData)
      ensures eos == (old(eos) || Eos(p))
      ensures Skips(old(lacingVals[..lacingFill]), p, k) && Sum(Lens(p)[..k]) <= |p.body|
      ensures var l, lens := old(lacingVals[..lacingFill]), Lens(p)[k..];
              var l' := l + PageLacing(lens, Bos(p) && !Orphan(l, p));
              && lacingVals[..lacingFill] == (if Eos(p) then MarkLastLacing(l') else l')
              && granuleVals[..lacingFill] == old(granuleVals[..lacingFill]) + StoredGranules(lens, Granulepos(p))
              && bodyData[..bodyFill] == old(bodyData[..bodyFill]) + p.body[Sum(Lens(p)[..k])..]
              && lacingPacket == if D.LastEnd(lens) > 0 then |l| + D.LastEnd(lens) else old(lacingPacket)
    {
      hide Sum, PageLacing, StoredGranules, D.LastEnd, LensIn, Bos, Eos, Granulepos, Continued, MarkLastLacing, Orphan,
        SkipEnd;
      var segptr, offset, bos := Skip(p);
      k := segptr;
      AddBody(p.body[offset..]);
      AddLacing(p.header[27..], segptr, bos, Granulepos(p));
      if Eos(p) {
        MarkEos();
      }
    }

    /** `AddPage` and the new page number, over the object's fields as a whole. */
    method AddAndCount(p: Page, ghost n: nat) returns (ghost k: nat)
      requires WellFormed(p) && bodyReturned == lacingReturned == 0 && bodyFill <= bodyData.Length && n == lacingPacket
      requires lacingPacket <= lacingFill && lacingFill + |Lens(p)| <= lacingVals.Length == granuleVals.Length
      modifies this`bodyData, this`bodyFill, this`lacingFill, this`lacingPacket, this`eos, this`pageno, bodyData, lacingVals,
               granuleVals
      ensures bodyData == old(bodyData) || fresh(bodyData)
      ensures View().InBounds() && eos == (old(eos) || Eos(p)) && pageno == Pageno(p) + 1
      ensures Skips(old(lacingVals[..lacingFill]), p, k) && Sum(Lens(p)[..k]) <= |p.body|
      ensures AddedLayout(View(), p, old(lacingVals[..lacingFill]), old(granuleVals[..lacingFill]),
          old(bodyData[..bodyFill]), n, k)
    {
      hide Sum, PageLacing, StoredGranules, D.LastEnd, LensIn, Bos, Eos, Granulepos, MarkLastLacing, Orphan, Skips,
        AddedLayout, Pageno;
      ghost var l, g, x := lacingVals[..lacingFill], granuleVals[..lacingFill], bodyData[..bodyFill];
      k := AddPage(p);
      pageno := Pageno(p) + 1;
      AddedIntro(View(), p, l, g, x, n, k);
    }

    /** `PrepareFor`, over the object's fields as a whole; yields what is left in the buffers. */
    method Prepare(pageno: int, segments: nat) returns (ghost l: seq<Lacing>, ghost g: seq<int>, ghost x: seq<byte>, ghost n: nat)
      requires View().Valid() && bodyReturned == lacingReturned == 0
      modifies this`bodyFill, this`lacingFill, this`lacingPacket, this`lacingVals, this`granuleVals, lacingVals
      ensures lacingVals == old(lacingVals) || fresh(lacingVals)
      ensures granuleVals == old(granuleVals) || fresh(granuleVals)
      ensures bodyFill <= bodyData.Length && lacingPacket <= lacingFill
              && lacingFill + segments <= lacingVals.Length == granuleVals.Length
      ensures l == lacingVals[..lacingFill] && g == granuleVals[..lacingFill] && x == bodyData[..bodyFill] && n == lacingPacket
      ensures PreparedLayout(old(View()), pageno, l, g, x, n)
    {
      hide Sum, LensIn, Gap, PreparedLayout;
      ghost var f := View();
      FromZero(lacingVals[..], lacingFill);
      PrepareFor(pageno, segments);
      l, g, x, n := lacingVals[..lacingFill], granuleVals[..lacingFill], bodyData[..bodyFill], lacingPacket;
      PreparedIntro(f, pageno, l, g, x, n);
    }

    /** The part of `ogg_stream_pagein` past the checks. */
    method Accept(p: Page)
      requires Valid() && View().Decoding() && WellFormed(p) && Serialno(p) == serialno && Version(p) == 0
      requires bodyReturned == lacingReturned == 0
      modifies this`bodyData, this`bodyFill, this`lacingVals, this`granuleVals, this`lacingFill, this`lacingPacket, this`eos,
               this`pageno
      modifies bodyData, lacingVals, granuleVals
      ensures Valid() && View().Decoding() && (View().Dec(), 0) == D.PageIn(old(View().Dec()), p)
      ensures (bodyData == old(bodyData) || fresh(bodyData)) && (lacingVals == old(lacingVals) || fresh(lacingVals))
      ensures granuleVals == old(granuleVals) || fresh(granuleVals)
    {
      hide Sum, PageLacing, StoredGranules, D.LastEnd, LensIn, Bos, Eos, Granulepos, MarkLastLacing, Orphan, Skips,
        SegmentsIn, D.PageIn, D.Valid, PreparedLayout, AddedLayout, Gap, Serialno, Pageno, Version;
      ghost var f := View();
      ghost var l, g, x, n := Prepare(Pageno(p), p.header[26]);
      ghost var k := AddAndCount(p, n);
      PageInFields(f, View(), p, l, g, x, n, k);
    }

    /** `ogg_stream_pagein`. */
    method PageIn(p: Page) returns (status: int)
      requires Valid() && View().Decoding() && WellFormed(p)
      modifies this`bodyData, this`bodyFill, this`bodyReturned, this`lacingVals, this`granuleVals,
               this`lacingFill, this`lacingPacket, this`lacingReturned, this`eos, this`pageno
      modifies bodyData, lacingVals, granuleVals
      ensures Valid() && View().Decoding() && (View().Dec(), status) == D.PageIn(old(View().Dec()), p)
      ensures (bodyData == old(bodyData) || fresh(bodyData)) && (lacingVals == old(lacingVals) || fresh(lacingVals))
      ensures granuleVals == old(granuleVals) || fresh(granuleVals)
    {
      hide Sum, LensIn, SegmentsIn, D.Valid, D.Prepared, D.Added, D.MarkLast, Serialno, Pageno, Version;
      ghost var f := View();
      CleanUp();
      CleanFields(f, View());
      if Serialno(p) != serialno {
        return -1;
      }
      if Version(p) > 0 {
        return -1;
      }
      Accept(p);
      status := 0;
    }

    /** The gather loop of `_packetout`: the packet at the front of the queue. */
    method Gather() returns (count: nat, bytes: nat, bos: bool, eos: bool)
      requires View().Decoding() && lacingReturned < lacingPacket && !lacingVals[lacingReturned].hole
      ensures count == Run(View().Segs()) && lacingReturned + count <= lacingPacket
      ensures bytes == Sum(LensIn(View().Entries()[..count]))
      ensures bos == View().Segs()[0].first && eos == D.AnyLast(View().Segs()[..count])
    {
      hide SegmentsIn, LensIn, Sum, D.Valid, D.AnyLast, Run;
      ghost var f := View();
      ghost var l, segs := f.Entries(), f.Segs();
      f.RunInside();
      var ptr := lacingReturned;
      var size := lacingVals[ptr].len;
      bytes, count := size, 1;
      eos, bos := lacingVals[ptr].last, lacingVals[ptr].first;
      GatherStart(f);
      while size == 255
        invariant ptr == lacingReturned + count - 1 && 0 < count <= Run(segs) && size == l[count - 1].len
        invariant bytes == Sum(LensIn(l[..count])) && eos == D.AnyLast(segs[..count])
        invariant forall i :: 0 <= i < count - 1 ==> l[i].len == 255
        decreases Run(segs) - count
      {
        GatherStep(f, count);
        ptr := ptr + 1;
        var val := lacingVals[ptr];
        size := val.len;
        if val.last {
          eos := true;
        }
        bytes := bytes + size;
        count := count + 1;
      }
      GatherStop(f, count);
    }

    /** Steps over a marker. */
    method TakeMarker()
      requires View().Decoding() && lacingReturned < lacingPacket && lacingVals[lacingReturned].hole
      modifies this`lacingReturned, this`packetno
      ensures View().Decoding()
      ensures (View().Dec(), Some(D.Gap)) == D.PacketOut(old(View().Dec())) == D.PacketPeek(old(View().Dec()))
    {
      hide D.Valid, D.PacketOut, D.PacketPeek, SegmentsIn, Sum, LensIn, Run;
      ghost var f := View();
      lacingReturned := lacingReturned + 1;
      packetno := packetno + 1;
      HoleOut(f, View());
    }

    /** Steps over the packet at the front. */
    method TakePacket(count: nat, bytes: nat)
      requires View().Decoding() && lacingReturned < lacingPacket && !lacingVals[lacingReturned].hole
      requires count == Run(View().Segs()) && lacingReturned + count <= lacingPacket
               && bytes == Sum(LensIn(View().Entries()[..count]))
      modifies this`bodyReturned, this`lacingReturned, this`packetno
      ensures View().Decoding() && View().Dec() == D.PacketOut(old(View().Dec())).0
    {
      hide D.Valid, D.PacketOut, D.PacketPeek, SegmentsIn, Sum, LensIn, Run;
      ghost var f := View();
      bodyReturned := bodyReturned + bytes;
      lacingReturned := lacingReturned + count;
      packetno := packetno + 1;
      PacketTaken(f, View(), count);
    }

    /** The packet at the front, and how many segments and octets it takes. */
    method FrontPacket() returns (event: D.Event, count: nat, bytes: nat)
      requires View().Decoding() && lacingReturned < lacingPacket && !lacingVals[lacingReturned].hole
      ensures count == Run(View().Segs()) && lacingReturned + count <= lacingPacket
      ensures bytes == Sum(LensIn(View().Entries()[..count]))
      ensures D.PacketOut(View().Dec()).1 == Some(event) && D.PacketPeek(View().Dec()) == (View().Dec(), Some(event))
    {
      hide Run, D.Valid, SegmentsIn, Sum, LensIn, D.AnyLast, D.PacketOut, D.PacketPeek;
      var bos, last;
      count, bytes, bos, last := Gather();
      PacketReady(View(), count, bytes);
      event := D.Got(bodyData[bodyReturned..bodyReturned + bytes], bos, last, granuleVals[lacingReturned + count - 1]);
    }

    /** `_packetout` with somewhere to put the packet; also returns the packet's number. */
    method PacketOutI(adv: bool) returns (event: Option<D.Event>, number: int)
      requires Valid() && View().Decoding()
      modifies this`bodyReturned, this`lacingReturned, this`packetno
      ensures Valid() && View().Decoding() && number == old(packetno)
      ensures (View().Dec(), event) == if adv then D.PacketOut(old(View().Dec())) else D.PacketPeek(old(View().Dec()))
    {
      hide Run, D.Valid, SegmentsIn, Sum, LensIn, D.AnyLast, D.PacketOut, D.PacketPeek;
      number := packetno;
      if lacingPacket <= lacingReturned {
        NothingOut(View().Dec());
        return None, number;
      }
      if lacingVals[lacingReturned].hole {
        TakeMarker();
        return Some(D.Gap), number;
      }
      var packet, count, bytes := FrontPacket();
      event := Some(packet);
      if adv {
        TakePacket(count, bytes);
      }
    }
  }

  lemma {:induction false} NothingToFlush(e: E.EncState, force: bool, nfill: int)
    requires Sized(e.segs) && e.segs == []
    ensures E.Flush(e, force, nfill) == (e, None)
  {
  }
}
