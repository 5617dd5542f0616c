/** Page sequences of one logical stream, as a receiver reads them. */
module Framing {
  import opened Bytes
  import opened OggPage
  import opened Segments

  /** The segments on a page. */
  function PageChunks(p: Page): (c: seq<seq<byte>>)
    requires WellFormed(p)
    ensures |c| == |Lens(p)|
  {
    Split(Lens(p), p.body)
  }

  ghost predicate AllWellFormed(pages: seq<Page>) {
    forall k :: 0 <= k < |pages| ==> WellFormed(pages[k])
  }

  ghost function PagesChunks(pages: seq<Page>): seq<seq<byte>>
    requires AllWellFormed(pages)
  {
    if |pages| == 0 then [] else PagesChunks(pages[..|pages| - 1]) + PageChunks(pages[|pages| - 1])
  }

  function PagesEnded(pages: seq<Page>): nat
    requires AllWellFormed(pages)
  {
    if |pages| == 0 then 0 else PagesEnded(pages[..|pages| - 1]) + Ended(Lens(pages[|pages| - 1]))
  }

  /** The last packet on the page goes on on the next. */
  predicate OpenEnded(p: Page)
    requires HasHeader(p)
  {
    Lens(p) != [] && Lens(p)[|Lens(p)| - 1] == 255
  }

  predicate OpenAfter(pages: seq<Page>)
    requires AllWellFormed(pages)
  {
    pages != [] && OpenEnded(pages[|pages| - 1])
  }

  /** What every page of an encoder run satisfies, whatever happens to the other pages. */
  ghost predicate PageInSequence(pages: seq<Page>, k: nat, serialno: int)
    requires AllWellFormed(pages) && k < |pages|
  {
    var p := pages[k];
    && p.header[..4] == CAPTURE && p.header[22..26] == Checksum(p.header, p.body)
    && Version(p) == 0 && Serialno(p) == serialno && (k < TWO31 ==> Pageno(p) == k)
    && Lens(p) != []
    && Bos(p) == (k == 0)
    && Continued(p) == OpenAfter(pages[..k])
    && (Eos(p) ==> !OpenEnded(p))
  }

  ghost predicate InSequence(pages: seq<Page>, serialno: int) {
    AllWellFormed(pages) && forall k :: 0 <= k < |pages| ==> PageInSequence(pages, k, serialno)
  }

  lemma {:induction false} InSequencePrefix(pages: seq<Page>, serialno: int, n: nat)
    requires InSequence(pages, serialno) && n <= |pages|
    ensures InSequence(pages[..n], serialno)
  {
    var q := pages[..n];
    assert AllWellFormed(q);
    forall k | 0 <= k < n
      ensures PageInSequence(q, k, serialno)
    {
      assert PageInSequence(pages, k, serialno);
      assert q[..k] == pages[..k];
    }
  }

  lemma {:induction false} InSequenceExtend(pages: seq<Page>, p: Page, serialno: int)
    requires InSequence(pages, serialno) && WellFormed(p)
    requires AllWellFormed(pages + [p]) && PageInSequence(pages + [p], |pages|, serialno)
    ensures InSequence(pages + [p], serialno)
  {
    var q := pages + [p];
    forall k | 0 <= k < |q|
      ensures PageInSequence(q, k, serialno)
    {
      if k < |pages| {
        assert PageInSequence(pages, k, serialno);
        assert q[..k] == pages[..k];
      }
    }
  }

  lemma {:induction false} PagesChunksExtend(pages: seq<Page>, p: Page)
    requires AllWellFormed(pages) && WellFormed(p)
    ensures AllWellFormed(pages + [p])
    ensures PagesChunks(pages + [p]) == PagesChunks(pages) + PageChunks(p)
    ensures PagesEnded(pages + [p]) == PagesEnded(pages) + Ended(Lens(p))
  {
    assert (pages + [p])[..|pages|] == pages;
  }
}
