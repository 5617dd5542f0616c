/** What decoding does to the fields of an `ogg_stream_state`. */
module DecodeFields {
  import opened Bytes
  import opened OggPage
  import opened Segments
  import opened Framing
  import opened Lacings
  import opened StreamFields
  import D = Decoder

  const HOLE_LACING := Lacing(0, false, false, true)

  /** Two layouts of the same unreturned contents. */
  lemma {:induction false} SameContents(f: Fields, f': Fields)
    requires f.Valid() && f'.InBounds() && f'.Entries() == f.Entries() && f'.Granules() == f.Granules()
             && f'.Octets() == f.Octets()
    requires f'.lacingPacket - f'.lacingReturned == f.lacingPacket - f.lacingReturned
    requires f'.serialno == f.serialno && f'.pageno == f.pageno && f'.eos == f.eos && f'.packetno == f.packetno
    ensures f'.Valid() && f'.Dec() == f.Dec()
  {
  }

  // ----- Unrolling -----

  /** Granule values beside gap markers do not matter. */
  lemma {:induction false} MarkerSegment(g: int)
    ensures |LensIn([HOLE_LACING])| == 1 && Sum(LensIn([HOLE_LACING])) == 0
    ensures SegmentsIn([HOLE_LACING], [g], []) == [D.HOLE]
  {
    assert LensIn([HOLE_LACING]) == [0];
    assert [0][..0] == [];
    assert Sum([0]) == Sum([0][..0]) + 0;
    SplitSizes([0], []);
  }

  /** The buffers after the sequence check hold what `D.Prepared` says. */
  lemma {:induction false} PreparedContents(l: seq<Lacing>, g: seq<int>, x: seq<byte>, n: nat, gap: bool, g': seq<int>)
    requires |g| == |l| && |x| == Sum(LensIn(l)) && n <= |l|
    requires |g'| == n + (if gap then 1 else 0) && g'[..n] == g[..n]
    ensures var m, l' := Sum(LensIn(l[..n])), l[..n] + if gap then [HOLE_LACING] else [];
            && m <= |x| && m == Sum(LensIn(l')) && |l'| == |g'|
            && SegmentsIn(l', g', x[..m]) == SegmentsIn(l, g, x)[..n] + if gap then [D.HOLE] else []
  {
    hide SegmentsIn, LensIn, Sum, D.HOLE, HOLE_LACING;
    var m := Sum(LensIn(l[..n]));
    SegmentsCut(l, g, x, n);
    if gap {
      MarkerAppended(l[..n], g[..n], x[..m], g');
    } else {
      NothingAppended(l[..n]);
      NothingAppended(SegmentsIn(l, g, x)[..n]);
      assert g' == g'[..n];
    }
  }

  lemma {:induction false} NothingAppended<T>(s: seq<T>)
    ensures s + [] == s
  {
  }

  lemma {:induction false} MarkerAppended(l: seq<Lacing>, g: seq<int>, x: seq<byte>, g': seq<int>)
    requires |g| == |l| && |x| == Sum(LensIn(l)) && |g'| == |l| + 1 && g'[..|l|] == g
    ensures |x| == Sum(LensIn(l + [HOLE_LACING]))
    ensures SegmentsIn(l + [HOLE_LACING], g', x) == SegmentsIn(l, g, x) + [D.HOLE]
  {
    hide SegmentsIn, LensIn, Sum, D.HOLE, HOLE_LACING;
    MarkerSegment(g'[|l|]);
    SegmentsAppend(l, g, x, [HOLE_LACING], [g'[|l|]], []);
    assert g + [g'[|l|]] == g';
    NothingAppended(x);
  }

  // ----- Adding a page's segments -----

  function PageLacing(lens: seq<byte>, first: bool): (l: seq<Lacing>)
    ensures |l| == |lens|
  {
    seq(|lens|, i requires 0 <= i < |lens| => Lacing(lens[i], first && i == 0, false, false))
  }

  function StoredGranules(lens: seq<byte>, granulepos: int): (g: seq<int>)
    ensures |g| == |lens|
  {
    seq(|lens|, i requires 0 <= i < |lens| => if i == D.LastEnd(lens) - 1 then granulepos else -1)
  }

  lemma {:induction false} LastEndDrop(lens: seq<byte>, k: nat)
    requires k <= |lens|
    ensures D.LastEnd(lens[k..]) == if D.LastEnd(lens) > k then D.LastEnd(lens) - k else 0
  {
    var n, n' := D.LastEnd(lens), D.LastEnd(lens[k..]);
    if n > k {
      assert lens[k..][n - k - 1] == lens[n - 1];
    }
    if n' > 0 {
      assert lens[k + n' - 1] == lens[k..][n' - 1];
    }
  }

  /** How far a continuation without its beginning reaches. */
  predicate SkipEnd(lens: seq<byte>, k: nat)
    requires k <= |lens|
  {
    && (forall i :: 0 <= i < k - 1 ==> lens[i] == 255)
    && (k == |lens| || (k > 0 && lens[k - 1] < 255)) && (lens != [] ==> k > 0)
  }

  lemma {:induction false} RunIsSkip(segs: seq<Segment>, lens: seq<byte>, k: nat)
    requires |segs| == |lens| && k <= |lens| && SkipEnd(lens, k)
    requires forall i :: 0 <= i < |lens| ==> |segs[i].data| == lens[i]
    ensures Run(segs) == k
  {
  }

  lemma {:induction false} LensOfPageLacing(lens: seq<byte>, first: bool)
    ensures LensIn(PageLacing(lens, first)) == lens
  {
  }

  /** The lacing stored for a page from segment `k` on describes the page's segments from `k` on. */
  lemma {:induction false} PageContents(p: Page, k: nat)
    requires WellFormed(p) && k <= |Lens(p)|
    ensures var lens := Lens(p)[k..];
            var l, g, m := PageLacing(lens, Bos(p) && k == 0), StoredGranules(lens, Granulepos(p)), Sum(Lens(p)[..k]);
            && m <= |p.body| && |p.body[m..]| == Sum(LensIn(l))
            && SegmentsIn(l, g, p.body[m..]) == D.PageSegments(p)[k..]
  {
    hide Sum, D.LastEnd, Split, LensIn, Bos, Granulepos, PageLacing, StoredGranules;
    var all, lens := Lens(p), Lens(p)[k..];
    var m := Sum(all[..k]);
    SplitCut(all, p.body, k);
    LensOfPageLacing(lens, Bos(p) && k == 0);
    hide Lens, WellFormed;
    var l, g := PageLacing(lens, Bos(p) && k == 0), StoredGranules(lens, Granulepos(p));
    var s, t := SegmentsIn(l, g, p.body[m..]), D.PageSegments(p)[k..];
    forall i | 0 <= i < |s|
      ensures s[i] == t[i]
    {
      PageEntry(all, k, i, Bos(p), Granulepos(p));
    }
  }

  lemma {:induction false} PageEntry(lens: seq<byte>, k: nat, i: nat, first: bool, granulepos: int)
    requires k <= |lens| && i < |lens| - k
    ensures PageLacing(lens[k..], first && k == 0)[i] == Lacing(lens[k + i], first && k + i == 0, false, false)
    ensures StoredGranules(lens[k..], granulepos)[i] == if k + i == D.LastEnd(lens) - 1 then granulepos else -1
  {
    LastEndDrop(lens, k);
  }

  lemma {:induction false} SplitCut(lens: seq<byte>, x: seq<byte>, k: nat)
    requires |x| == Sum(lens) && k <= |lens|
    ensures var m := Sum(lens[..k]); m <= |x| && |x[m..]| == Sum(lens[k..]) && Split(lens, x)[k..] == Split(lens[k..], x[m..])
  {
    var m := Sum(lens[..k]);
    SliceJoin(lens, k);
    SumAppend(lens[..k], lens[k..]);
    SliceJoin(x, m);
    SplitAppend(lens[..k], x[..m], lens[k..], x[m..]);
  }

  lemma {:induction false} CompleteIsLastEnd(segs: seq<Segment>, lens: seq<byte>)
    requires |segs| == |lens| && forall i :: 0 <= i < |lens| ==> |segs[i].data| == lens[i]
    ensures Complete(segs) == D.LastEnd(lens)
  {
  }

  lemma {:induction false} PageLacingSnoc(lens: seq<byte>, val: byte, first: bool)
    ensures PageLacing(lens + [val], first) == PageLacing(lens, first) + [Lacing(val, first && lens == [], false, false)]
    ensures D.LastEnd(lens + [val]) == if val < 255 then |lens| + 1 else D.LastEnd(lens)
  {
    assert (lens + [val])[..|lens|] == lens;
  }

  lemma {:induction false} DropEntry(l: seq<Lacing>, i: nat)
    requires i <= |l|
    ensures i < |l| ==> Sum(LensIn(l[i..])) == l[i].len + Sum(LensIn(l[i + 1..]))
    ensures i == |l| ==> Sum(LensIn(l[i..])) == 0
    ensures Sum(LensIn(l)) == Sum(LensIn(l[..i])) + Sum(LensIn(l[i..]))
  {
    hide Sum, LensIn;
    SliceJoin(l, i);
    LensAppend(l[..i], l[i..]);
    if i < |l| {
      assert l[i..] == [l[i]] + l[i + 1..];
      LensAppend([l[i]], l[i + 1..]);
      SumOne(l[i].len);
      assert LensIn([l[i]]) == [l[i].len];
    } else {
      assert LensIn(l[i..]) == [];
      SumEmpty();
    }
  }

  lemma {:induction false} StoredGranulesPatch(lens: seq<byte>, granulepos: int)
    ensures var blank, n := seq(|lens|, _ => -1), D.LastEnd(lens);
            StoredGranules(lens, granulepos) == if n > 0 then blank[n - 1 := granulepos] else blank
  {
  }

  /** The loop that skips segments up to the first one that ends a packet. */
  method SkipRun(table: seq<byte>) returns (segptr: nat, offset: nat)
    ensures segptr <= |table| && SkipEnd(table, segptr) && offset == Sum(table[..segptr])
  {
    segptr, offset := 0, 0;
    while segptr < |table|
      invariant segptr <= |table| && offset == Sum(table[..segptr])
      invariant forall i :: 0 <= i < segptr ==> table[i] == 255
    {
      assert table[..segptr + 1][..segptr] == table[..segptr];
      offset := offset + table[segptr];
      segptr := segptr + 1;
      if table[segptr - 1] < 255 {
        break;
      }
    }
  }

  lemma SumEmpty()
    ensures Sum([]) == 0
  {
  }

  /** The entry noted for missing pages, if any. */
  function Gap(pageno: int, expected: int): seq<Lacing> {
    if pageno != expected && expected != -1 then [HOLE_LACING] else []
  }

  lemma SumOne(b: byte)
    ensures Sum([b]) == b
  {
    assert [b][..0] == [];
  }

  // ----- The end-of-stream mark -----

  function MarkLastLacing(l: seq<Lacing>): (r: seq<Lacing>)
    ensures |r| == |l|
  {
    if l == [] then [] else l[|l| - 1 := l[|l| - 1].(last := true)]
  }

  lemma {:induction false} MarkLastContents(l: seq<Lacing>, g: seq<int>, x: seq<byte>)
    requires |g| == |l| && |x| == Sum(LensIn(l))
    ensures LensIn(MarkLastLacing(l)) == LensIn(l)
    ensures SegmentsIn(MarkLastLacing(l), g, x) == D.MarkLast(SegmentsIn(l, g, x))
  {
    assert LensIn(MarkLastLacing(l)) == LensIn(l);
  }

  // ----- A whole page -----

  /** Pages continuing a packet whose beginning is missing. */
  predicate Orphan(l: seq<Lacing>, p: Page)
    requires HasHeader(p)
  {
    Continued(p) && (l == [] || l[|l| - 1] == HOLE_LACING)
  }

  lemma {:induction false} HoleEntry(l: seq<Lacing>, g: seq<int>, x: seq<byte>)
    requires |g| == |l| && |x| == Sum(LensIn(l)) && l != []
    ensures l[|l| - 1] == HOLE_LACING <==> SegmentsIn(l, g, x)[|l| - 1] == D.HOLE
  {
    SegmentsInSized(l, g, x);
    hide Sum, LensIn, Split;
  }

  /** `k` segments of the page are skipped. */
  predicate Skips(l: seq<Lacing>, p: Page, k: nat)
    requires HasHeader(p)
  {
    k <= |Lens(p)| && if Orphan(l, p) then SkipEnd(Lens(p), k) else k == 0
  }

  /** The buffers after the page's segments are stored. */
  lemma {:induction false} AddedContents(l: seq<Lacing>, g: seq<int>, x: seq<byte>, p: Page, k: nat)
    requires |g| == |l| && |x| == Sum(LensIn(l)) && WellFormed(p) && Skips(l, p, k)
    ensures var lens, before := Lens(p)[k..], SegmentsIn(l, g, x);
            var l', g', m := l + PageLacing(lens, Bos(p) && !Orphan(l, p)), g + StoredGranules(lens, Granulepos(p)),
                Sum(Lens(p)[..k]);
            && m <= |p.body| && |g'| == |l'| && |x + p.body[m..]| == Sum(LensIn(l'))
            && SegmentsIn(l', g', x + p.body[m..]) == before + D.Added(before, p)
            && Complete(D.Added(before, p)) == D.LastEnd(lens)
  {
    hide Sum, D.LastEnd, Split, LensIn, Bos, Granulepos, StoredGranules, Lens, Complete, Run, Continued, SegmentsIn;
    var lens, before, m := Lens(p)[k..], SegmentsIn(l, g, x), Sum(Lens(p)[..k]);
    var pl, pg := PageLacing(lens, Bos(p) && k == 0), StoredGranules(lens, Granulepos(p));
    assert pl == PageLacing(lens, Bos(p) && !Orphan(l, p));
    PageContents(p, k);
    SegmentsAppend(l, g, x, pl, pg, p.body[m..]);
    if l != [] {
      HoleEntry(l, g, x);
    }
    AddedFrom(l, before, p, k);
    AddedLens(p, k);
    CompleteIsLastEnd(D.PageSegments(p)[k..], lens);
  }

  lemma {:induction false} AddedLens(p: Page, k: nat)
    requires WellFormed(p) && k <= |Lens(p)|
    ensures var s, lens := D.PageSegments(p)[k..], Lens(p)[k..];
            |s| == |lens| && forall i :: 0 <= i < |lens| ==> |s[i].data| == lens[i]
  {
    hide Lens, WellFormed;
    D.PageSegmentsSized(p);
  }

  lemma {:induction false} AddedFrom(l: seq<Lacing>, before: seq<Segment>, p: Page, k: nat)
    requires WellFormed(p) && Skips(l, p, k) && |before| == |l|
    requires l != [] ==> (l[|l| - 1] == HOLE_LACING <==> before[|l| - 1] == D.HOLE)
    ensures D.Added(before, p) == D.PageSegments(p)[k..]
  {
    hide Lens, Continued, D.LastEnd, Run;
    var all := D.PageSegments(p);
    if Orphan(l, p) {
      AddedLens(p, 0);
      assert all[0..] == all && Lens(p)[0..] == Lens(p);
      RunIsSkip(all, Lens(p), k);
    }
  }

  /** The entries kept, and the marker noted, when page `pageno` arrives. */
  predicate PreparedLayout(f: Fields, pageno: int, l: seq<Lacing>, g: seq<int>, x: seq<byte>, n: nat)
    requires f.InBounds()
  {
    var l0, n0 := f.Entries(), f.lacingPacket - f.lacingReturned;
    var keep := if pageno == f.pageno then |l0| else n0;
    var gap := Gap(pageno, f.pageno);
    && l == l0[..keep] + gap
    && |g| == |l| && g[..keep] == f.Granules()[..keep]
    && Sum(LensIn(l0[..keep])) <= |f.Octets()| && x == f.Octets()[..Sum(LensIn(l0[..keep]))]
    && n == n0 + |gap|
  }

  lemma {:induction false} PreparedLayoutMeans(f: Fields, pageno: int, l: seq<Lacing>, g: seq<int>, x: seq<byte>, n: nat)
    requires f.Valid() && PreparedLayout(f, pageno, l, g, x, n)
    ensures |g| == |l| && |x| == Sum(LensIn(l))
    ensures (SegmentsIn(l, g, x), n) == D.Prepared(f.Dec(), pageno)
  {
    hide SegmentsIn, Sum, LensIn, Fields.Entries, Fields.Granules, Fields.Octets;
    var l0, n0 := f.Entries(), f.lacingPacket - f.lacingReturned;
    var keep := if pageno == f.pageno then |l0| else n0;
    var gap := pageno != f.pageno && f.pageno != -1;
    PreparedContents(l0, f.Granules(), f.Octets(), keep, gap, g);
    var s := f.Segs();
    assert s[..keep] + [] == s[..keep] && s[..|s|] == s;
  }

  /** The buffers after `ogg_stream_pagein`, given those after the sequence check. */
  predicate AddedLayout(f: Fields, p: Page, l: seq<Lacing>, g: seq<int>, x: seq<byte>, n: nat, k: nat)
    requires f.InBounds() && WellFormed(p) && Skips(l, p, k) && Sum(Lens(p)[..k]) <= |p.body|
  {
    var lens := Lens(p)[k..];
    var l' := l + PageLacing(lens, Bos(p) && !Orphan(l, p));
    && f.Entries() == (if Eos(p) then MarkLastLacing(l') else l')
    && f.Granules() == g + StoredGranules(lens, Granulepos(p))
    && f.Octets() == x + p.body[Sum(Lens(p)[..k])..]
    && f.lacingPacket - f.lacingReturned == if D.LastEnd(lens) > 0 then |l| + D.LastEnd(lens) else n
  }

  lemma {:induction false} AddedLayoutMeans(f: Fields, p: Page, l: seq<Lacing>, g: seq<int>, x: seq<byte>, n: nat, k: nat)
    requires f.InBounds() && WellFormed(p) && Skips(l, p, k) && Sum(Lens(p)[..k]) <= |p.body|
    requires |g| == |l| && |x| == Sum(LensIn(l)) && AddedLayout(f, p, l, g, x, n, k)
    ensures f.Valid()
    ensures var before := SegmentsIn(l, g, x);
            var added := D.Added(before, p);
            && f.Segs() == (if Eos(p) then D.MarkLast(before + added) else before + added)
            && f.lacingPacket - f.lacingReturned == if Complete(added) > 0 then |before| + Complete(added) else n
  {
    hide SegmentsIn, Sum, LensIn, Fields.Entries, Fields.Granules, Fields.Octets, Complete, D.LastEnd, Bos, Eos, Granulepos,
      PageLacing, StoredGranules, Lens, Orphan, MarkLastLacing, D.Added, D.MarkLast;
    AddedContents(l, g, x, p, k);
    var lens := Lens(p)[k..];
    var l' := l + PageLacing(lens, Bos(p) && !Orphan(l, p));
    MarkLastContents(l', f.Granules(), f.Octets());
  }

  /** `D.PageIn` on an accepted page, given what is left before it. */
  lemma {:induction false} PageAdded(d: D.DecState, p: Page, before: seq<Segment>, n: nat, segs: seq<Segment>, complete: nat)
    requires D.Valid(d) && WellFormed(p) && Serialno(p) == d.serialno && Version(p) == 0
    requires (before, n) == D.Prepared(d, Pageno(p))
    requires var added := D.Added(before, p);
             && segs == (if Eos(p) then D.MarkLast(before + added) else before + added)
             && complete == if Complete(added) > 0 then |before| + Complete(added) else n
    ensures var d' := D.DecState(segs, complete, d.serialno, Pageno(p) + 1, d.eos || Eos(p), d.packetno);
            D.Valid(d') && (d', 0) == D.PageIn(d, p)
  {
    hide D.ValidSegments, D.Prepared, D.Added, D.MarkLast, Complete, Eos, Serialno, Pageno, Version, Lens, Sum;
    D.Bounded(d);
    D.PageInValid(d, p);
  }

  /** The whole of `ogg_stream_pagein` on an accepted page. */
  lemma {:induction false} PageInFields(f: Fields, f': Fields, p: Page, l: seq<Lacing>, g: seq<int>, x: seq<byte>, n: nat, k: nat)
    requires f.Decoding() && f'.InBounds() && WellFormed(p) && Serialno(p) == f.serialno && Version(p) == 0
    requires PreparedLayout(f, Pageno(p), l, g, x, n)
    requires Skips(l, p, k) && Sum(Lens(p)[..k]) <= |p.body| && AddedLayout(f', p, l, g, x, n, k)
    requires f'.pageno == Pageno(p) + 1 && f'.eos == (f.eos || Eos(p)) && f'.serialno == f.serialno && f'.packetno == f.packetno
    ensures f'.Decoding() && (f'.Dec(), 0) == D.PageIn(f.Dec(), p)
  {
    hide SegmentsIn, Sum, LensIn, Fields.Entries, Fields.Granules, Fields.Octets, Complete, D.LastEnd, Bos, Eos, Granulepos,
      Lens, D.Added, D.MarkLast, PreparedLayout, AddedLayout, D.Prepared, D.PageIn, D.Valid, D.ValidSegments, Serialno,
      Pageno, Version, Skips, Fields.Segs;
    PreparedLayoutMeans(f, Pageno(p), l, g, x, n);
    AddedLayoutMeans(f', p, l, g, x, n, k);
    PageAdded(f.Dec(), p, SegmentsIn(l, g, x), n, f'.Segs(), f'.lacingPacket - f'.lacingReturned);
  }

  /** Moving the unreturned contents to the front changes nothing. */
  lemma {:induction false} CleanFields(f: Fields, f': Fields)
    requires f.Decoding() && f'.lacingReturned == f'.bodyReturned == 0
    requires f'.bodyFill == f.bodyFill - f.bodyReturned <= |f'.bodyData|
    requires f'.lacingFill == f.lacingFill - f.lacingReturned <= |f'.lacingVals| == |f'.granuleVals|
    requires f'.lacingPacket == f.lacingPacket - f.lacingReturned
    requires f'.bodyData[..f'.bodyFill] == f.Octets()
    requires f'.lacingVals[..f'.lacingFill] == f.Entries() && f'.granuleVals[..f'.lacingFill] == f.Granules()
    requires f'.serialno == f.serialno && f'.pageno == f.pageno && f'.eos == f.eos && f'.packetno == f.packetno
    ensures f'.Decoding() && f'.Dec() == f.Dec()
    ensures f'.bodyFill == Sum(LensIn(f'.lacingVals[..f'.lacingFill]))
  {
    hide SegmentsIn, Sum, LensIn, D.Valid;
    FromZero(f'.lacingVals, f'.lacingFill);
    FromZero(f'.granuleVals, f'.lacingFill);
    FromZero(f'.bodyData, f'.bodyFill);
    SameContents(f, f');
  }

  lemma {:induction false} PreparedIntro(f: Fields, pageno: int, l: seq<Lacing>, g: seq<int>, x: seq<byte>, n: nat)
    requires f.Valid() && f.lacingReturned == f.bodyReturned == 0
    requires var gap, keep := Gap(pageno, f.pageno), if pageno == f.pageno then f.lacingFill else f.lacingPacket;
             && n == f.lacingPacket + |gap| && l == f.lacingVals[..f.lacingFill][..keep] + gap
             && |g| == |l| && g[..keep] == f.granuleVals[..f.lacingFill][..keep]
             && |x| == Sum(LensIn(f.lacingVals[..f.lacingFill][..keep])) <= f.bodyFill && x == f.bodyData[..|x|]
    ensures PreparedLayout(f, pageno, l, g, x, n)
  {
    hide Sum, LensIn, SegmentsIn, Gap;
    FromZero(f.lacingVals, f.lacingFill);
    FromZero(f.granuleVals, f.lacingFill);
    SliceOfSlice(f.bodyData, 0, f.bodyFill, |x|);
    FromZero(f.bodyData, |x|);
  }

  lemma {:induction false} AddedIntro(f: Fields, p: Page, l: seq<Lacing>, g: seq<int>, x: seq<byte>, n: nat, k: nat)
    requires f.InBounds() && f.lacingReturned == f.bodyReturned == 0
    requires WellFormed(p) && Skips(l, p, k) && Sum(Lens(p)[..k]) <= |p.body|
    requires var lens := Lens(p)[k..];
             var l' := l + PageLacing(lens, Bos(p) && !Orphan(l, p));
             && f.lacingVals[..f.lacingFill] == (if Eos(p) then MarkLastLacing(l') else l')
             && f.granuleVals[..f.lacingFill] == g + StoredGranules(lens, Granulepos(p))
             && f.bodyData[..f.bodyFill] == x + p.body[Sum(Lens(p)[..k])..]
             && f.lacingPacket == if D.LastEnd(lens) > 0 then |l| + D.LastEnd(lens) else n
    ensures AddedLayout(f, p, l, g, x, n, k)
  {
    hide Sum, LensIn, SegmentsIn, PageLacing, StoredGranules, Lens, MarkLastLacing, D.LastEnd, Bos, Eos, Granulepos, Orphan,
      Skips;
    FromZero(f.lacingVals, f.lacingFill);
    FromZero(f.granuleVals, f.lacingFill);
    FromZero(f.bodyData, f.bodyFill);
  }

  // ----- Taking a packet out -----

  lemma {:induction false} EntryAt(f: Fields, i: nat)
    requires f.Valid() && i < f.lacingFill - f.lacingReturned
    ensures |f.Segs()| == f.lacingFill - f.lacingReturned
    ensures |f.Segs()[i].data| == f.Entries()[i].len && f.Entries()[i] == f.lacingVals[f.lacingReturned + i]
    ensures f.Segs()[i].first == f.Entries()[i].first && f.Segs()[i].last == f.Entries()[i].last
            && f.Segs()[i].hole == f.Entries()[i].hole
    ensures !f.Entries()[i].hole ==> f.Segs()[i].granulepos == f.granuleVals[f.lacingReturned + i]
  {
    SegmentsInSized(f.Entries(), f.Granules(), f.Octets());
    hide Sum, LensIn, Split;
  }

  lemma {:induction false} GatherStart(f: Fields)
    requires f.Decoding() && f.lacingReturned < f.lacingPacket
    ensures f.lacingVals[f.lacingReturned] == f.Entries()[0] && f.Segs() != [] && f.Segs()[0].first == f.Entries()[0].first
    ensures f.Entries()[0].len == Sum(LensIn(f.Entries()[..1])) && f.Entries()[0].last == D.AnyLast(f.Segs()[..1])
  {
    hide Sum, LensIn, SegmentsIn, D.Valid;
    EntryAt(f, 0);
    var l := f.Entries();
    assert l[0..] == l && l[..0] == [];
    EntrySum(l, 0);
    assert f.Segs()[..1] == [f.Segs()[0]];
    assert Sum(LensIn(l[..0])) == 0 by { DropEntry(l[..0], 0); }
  }

  lemma {:induction false} EntrySum(l: seq<Lacing>, i: nat)
    requires i < |l|
    ensures Sum(LensIn(l[..i + 1])) == Sum(LensIn(l[..i])) + l[i].len
  {
    assert l[..i + 1] == l[..i] + [l[i]];
    LensAppend(l[..i], [l[i]]);
    SumOne(l[i].len);
    assert LensIn([l[i]]) == [l[i].len];
  }

  lemma {:induction false} AnyLastSnoc(s: seq<Segment>, i: nat)
    requires i < |s|
    ensures D.AnyLast(s[..i + 1]) == (D.AnyLast(s[..i]) || s[i].last)
  {
    var a := s[..i + 1];
    assert a[i] == s[i] && forall j :: 0 <= j < i ==> a[j] == s[..i][j];
  }

  /** One more segment: the packet is not yet complete. */
  lemma {:induction false} GatherStep(f: Fields, n: nat)
    requires f.Decoding() && f.lacingReturned < f.lacingPacket && 0 < n <= Run(f.Segs()) && n <= f.lacingFill - f.lacingReturned
    requires forall i :: 0 <= i < n ==> f.Entries()[i].len == 255
    ensures n < Run(f.Segs()) <= f.lacingPacket - f.lacingReturned && f.lacingVals[f.lacingReturned + n] == f.Entries()[n]
    ensures Sum(LensIn(f.Entries()[..n + 1])) == Sum(LensIn(f.Entries()[..n])) + f.Entries()[n].len
    ensures n < |f.Segs()| && D.AnyLast(f.Segs()[..n + 1]) == (D.AnyLast(f.Segs()[..n]) || f.Entries()[n].last)
  {
    f.RunInside();
    D.RunWithinComplete(f.Dec());
    hide Sum, LensIn, SegmentsIn, D.Valid, D.AnyLast;
    EntryAt(f, n - 1);
    EntryAt(f, n);
    EntrySum(f.Entries(), n);
    AnyLastSnoc(f.Segs(), n);
  }

  lemma {:induction false} GatherStop(f: Fields, n: nat)
    requires f.Decoding() && f.lacingReturned < f.lacingPacket && 0 < n <= Run(f.Segs()) && n <= f.lacingFill - f.lacingReturned
    requires f.Entries()[n - 1].len != 255
    ensures n == Run(f.Segs()) <= f.lacingPacket - f.lacingReturned
  {
    f.RunInside();
    hide Sum, LensIn, SegmentsIn, D.Valid;
    EntryAt(f, n - 1);
  }

  /** Moving past `n` entries and their octets drops `n` segments. */
  lemma {:induction false} DropFront(f: Fields, f': Fields, n: nat)
    requires f.Valid() && n <= f.lacingPacket - f.lacingReturned
    requires var m := Sum(LensIn(f.Entries()[..n]));
             f' == f.(lacingReturned := f.lacingReturned + n, bodyReturned := f.bodyReturned + m, packetno := f.packetno + 1)
    ensures f'.Valid() && |f.Segs()| == f.lacingFill - f.lacingReturned
    ensures f'.Dec() == f.Dec().(segs := f.Segs()[n..], complete := f.Dec().complete - n, packetno := f.packetno + 1)
    ensures Body(f.Segs()[..n]) == f.bodyData[f.bodyReturned..f'.bodyReturned]
  {
    hide Sum, LensIn, SegmentsIn, Body, SegmentAt, Fields.Entries, Fields.Granules, Fields.Octets;
    var l, g, x := f.Entries(), f.Granules(), f.Octets();
    var m := Sum(LensIn(l[..n]));
    SegmentsCut(l, g, x, n);
    SegmentsInSized(l[..n], g[..n], x[..m]);
    FrontParts(f, f', n, m);
  }

  lemma {:induction false} FrontParts(f: Fields, f': Fields, n: nat, m: nat)
    requires f.InBounds() && n <= f.lacingPacket - f.lacingReturned && m <= f.bodyFill - f.bodyReturned
    requires f' == f.(lacingReturned := f.lacingReturned + n, bodyReturned := f.bodyReturned + m, packetno := f.packetno + 1)
    ensures f'.InBounds() && f'.Entries() == f.Entries()[n..] && f'.Granules() == f.Granules()[n..]
    ensures f'.Octets() == f.Octets()[m..] && f.Octets()[..m] == f.bodyData[f.bodyReturned..f'.bodyReturned]
  {
    SliceOfSlice(f.lacingVals, f.lacingReturned, f.lacingFill, n);
    SliceOfSlice(f.granuleVals, f.lacingReturned, f.lacingFill, n);
    SliceOfSlice(f.bodyData, f.bodyReturned, f.bodyFill, m);
  }

  lemma {:induction false} NothingOut(d: D.DecState)
    requires D.Valid(d) && d.complete == 0
    ensures D.PacketOut(d) == D.PacketPeek(d) == (d, None)
  {
  }

  /** `D.PacketOut` on a marker. */
  lemma {:induction false} OutMarker(d: D.DecState)
    requires D.Valid(d) && d.complete > 0 && d.segs[0].hole
    ensures D.PacketOut(d) == D.PacketPeek(d)
            == (d.(segs := d.segs[1..], complete := d.complete - 1, packetno := d.packetno + 1), Some(D.Gap))
    ensures |d.segs[0].data| == 0 && D.Valid(D.PacketOut(d).0)
  {
    D.PacketOutValid(d);
    assert D.MarkerPlaced(d.segs, 0);
    hide Run;
  }

  /** `D.PacketOut` on a packet. */
  lemma {:induction false} OutPacket(d: D.DecState)
    requires D.Valid(d) && d.complete > 0 && !d.segs[0].hole
    ensures var n := Run(d.segs);
            && 0 < n <= d.complete && !d.segs[n - 1].hole
            && D.PacketOut(d)
               == (d.(segs := d.segs[n..], complete := d.complete - n, packetno := d.packetno + 1), Some(D.PacketOf(d.segs[..n])))
            && D.PacketPeek(d) == (d, D.PacketOut(d).1)
            && D.PacketOf(d.segs[..n])
               == D.Got(Body(d.segs[..n]), d.segs[0].first, D.AnyLast(d.segs[..n]), d.segs[n - 1].granulepos)
    ensures D.Valid(D.PacketOut(d).0)
  {
    D.PacketOutValid(d);
    D.RunWithinComplete(d);
    NoMarkerInside(d);
    hide Run, D.Valid, Body, D.AnyLast;
  }

  /** The last segment of the packet at the front is no gap marker. */
  lemma {:induction false} NoMarkerInside(d: D.DecState)
    requires D.Valid(d) && d.complete > 0 && !d.segs[0].hole
    ensures 0 < Run(d.segs) <= |d.segs| && !d.segs[Run(d.segs) - 1].hole
  {
    var n := Run(d.segs);
    assert D.MarkerPlaced(d.segs, n - 1);
  }

  lemma {:induction false} HoleOut(f: Fields, f': Fields)
    requires f.Decoding() && f.lacingReturned < f.lacingPacket && f.lacingVals[f.lacingReturned].hole
    requires f' == f.(lacingReturned := f.lacingReturned + 1, packetno := f.packetno + 1)
    ensures f'.Decoding() && (f'.Dec(), Some(D.Gap)) == D.PacketOut(f.Dec()) == D.PacketPeek(f.Dec())
  {
    hide D.Valid, D.PacketOut, D.PacketPeek, Run, Sum, LensIn, SegmentsIn, Body, D.AnyLast;
    GatherStart(f);
    EntryAt(f, 0);
    OutMarker(f.Dec());
    DropFront(f, f', 1);
  }

  lemma {:induction false} PacketReady(f: Fields, n: nat, bytes: nat)
    requires f.Decoding() && f.lacingReturned < f.lacingPacket && !f.lacingVals[f.lacingReturned].hole
    requires n == Run(f.Segs()) <= f.lacingPacket - f.lacingReturned && bytes == Sum(LensIn(f.Entries()[..n]))
    ensures 0 < n && f.bodyReturned + bytes <= f.bodyFill && f.Segs() != [] && n <= |f.Segs()|
    ensures var e := D.Got(f.bodyData[f.bodyReturned..f.bodyReturned + bytes], f.Segs()[0].first, D.AnyLast(f.Segs()[..n]),
                           f.granuleVals[f.lacingReturned + n - 1]);
            D.PacketOut(f.Dec()).1 == Some(e) && D.PacketPeek(f.Dec()) == (f.Dec(), Some(e))
  {
    hide D.Valid, D.PacketOut, D.PacketPeek, D.PacketOf, Run, Sum, LensIn, SegmentsIn, Body, D.AnyLast, SegmentAt,
      Fields.Entries, Fields.Granules, Fields.Octets;
    EntryAt(f, 0);
    OutPacket(f.Dec());
    EntryAt(f, n - 1);
    DropFront(f, f.(lacingReturned := f.lacingReturned + n, bodyReturned := f.bodyReturned + bytes,
        packetno := f.packetno + 1), n);
  }

  lemma {:induction false} PacketTaken(f: Fields, f': Fields, n: nat)
    requires f.Decoding() && f.lacingReturned < f.lacingPacket && !f.lacingVals[f.lacingReturned].hole
    requires n == Run(f.Segs()) <= f.lacingPacket - f.lacingReturned
    requires f' == f.(lacingReturned := f.lacingReturned + n, bodyReturned := f.bodyReturned + Sum(LensIn(f.Entries()[..n])),
                      packetno := f.packetno + 1)
    ensures f'.Decoding() && f'.Dec() == D.PacketOut(f.Dec()).0
  {
    hide D.Valid, D.PacketOut, D.PacketPeek, D.PacketOf, Run, Sum, LensIn, SegmentsIn, Body, D.AnyLast;
    EntryAt(f, 0);
    OutPacket(f.Dec());
    DropFront(f, f', n);
  }
}
