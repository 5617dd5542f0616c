/** Page capture as a function on values: what the `ogg_sync_*` half of framing.c computes. */
module Sync {
  import opened Bytes
  import opened OggPage
  import Crc

  /** What the octets at hand say about a page starting at the first of them. */
  datatype Verdict = Incomplete | PageHere(n: nat) | NotAPage

  function HeaderSize(u: seq<byte>): nat
    requires |u| >= HEADER_BASE
  {
    HEADER_BASE + u[26]
  }

  function PageSize(u: seq<byte>): (n: nat)
    requires |u| >= HEADER_BASE && |u| >= HeaderSize(u)
    ensures n >= HeaderSize(u)
  {
    HeaderSize(u) + Sum(u[27..HeaderSize(u)])
  }

  function Judge(u: seq<byte>): (v: Verdict)
    ensures v.PageHere? ==> |u| >= HEADER_BASE && HeaderSize(u) <= v.n <= |u|
    ensures v.NotAPage? ==> |u| >= HEADER_BASE
  {
    if |u| < HEADER_BASE then Incomplete
    else if u[..4] != CAPTURE then NotAPage
    else if |u| < HeaderSize(u) || |u| < PageSize(u) then Incomplete
    else
      var h, n := HeaderSize(u), PageSize(u);
      if u[22..26] == Checksum(u[..h], u[h..n]) then PageHere(n) else NotAPage
  }

  function PageAt(u: seq<byte>): (p: Page)
    requires Judge(u).PageHere?
  {
    Page(u[..HeaderSize(u)], u[HeaderSize(u)..Judge(u).n])
  }

  /** The first 'O' at or after position `i`, or the end. */
  function NextO(u: seq<byte>, i: nat): (n: nat)
    requires i <= |u|
    ensures i <= n <= |u|
    ensures n < |u| ==> u[n] == 79
    ensures forall j :: i <= j < n ==> u[j] != 79
    decreases |u| - i
  {
    if i == |u| || u[i] == 79 then i else NextO(u, i + 1)
  }

  /** `ogg_sync_pageseek`: 0, the length of a page, or minus the number of octets skipped. */
  function Seek(u: seq<byte>): (r: int)
    ensures -|u| <= r <= |u|
  {
    match Judge(u)
    case Incomplete => 0
    case PageHere(n) => n
    case NotAPage => 0 - NextO(u, 1)
  }

  /** The octets not yet returned, and whether the loss of synchronisation was reported. */
  datatype SyncView = SyncView(unread: seq<byte>, unsynced: bool)

  datatype Pulled = Lost | NeedData | Got(page: Page)

  /** `ogg_sync_pageout`. */
  function PageOut(s: SyncView): (r: (SyncView, Pulled))
    ensures |r.0.unread| <= |s.unread|
    decreases |s.unread|
  {
    match Judge(s.unread)
    case Incomplete => (s, NeedData)
    case PageHere(n) => (SyncView(s.unread[n..], false), Got(PageAt(s.unread)))
    case NotAPage =>
      var s' := SyncView(s.unread[NextO(s.unread, 1)..], true);
      if s.unsynced then PageOut(s') else (s', Lost)
  }

  // ----- Reference: scanning a whole string -----

  /** At each position: a page is taken, an undecided end stops the scan, anything else is one octet of garbage. */
  function Scan(s: seq<byte>): seq<Page> {
    match Judge(s)
    case Incomplete => []
    case PageHere(n) => [PageAt(s)] + Scan(s[n..])
    case NotAPage => Scan(s[1..])
  }

  // ----- More data does not change a verdict -----

  lemma {:induction false} JudgeStable(u: seq<byte>, v: seq<byte>)
    ensures !Judge(u).Incomplete? ==> Judge(u + v) == Judge(u)
    ensures Judge(u).PageHere? ==> PageAt(u + v) == PageAt(u)
  {
    hide Checksum, Sum, CAPTURE;
    var w := u + v;
    if |u| >= HEADER_BASE {
      assert w[..4] == u[..4] && w[26] == u[26] && w[22..26] == u[22..26];
      var h := HeaderSize(u);
      if |u| >= h {
        assert w[27..h] == u[27..h] && w[..h] == u[..h];
        var n := PageSize(u);
        if |u| >= n {
          assert w[h..n] == u[h..n];
        }
      }
    }
  }

  /** Octets other than 'O' are garbage wherever the scan stands. */
  lemma {:induction false} ScanPastGarbage(s: seq<byte>, k: nat)
    requires k <= |s| && forall i :: 0 <= i < k ==> s[i] != 79
    ensures Scan(s) == Scan(s[k..])
    decreases k
  {
    if k == 0 {
      assert s[0..] == s;
    } else {
      ScanPastGarbage(s[1..], k - 1);
      assert s[1..][k - 1..] == s[k..];
      if |s| >= HEADER_BASE {
        assert s[..4][0] != CAPTURE[0];
      }
    }
  }

  lemma {:induction false} ScanSkip(u: seq<byte>, v: seq<byte>)
    requires Judge(u).NotAPage?
    ensures Scan(u + v) == Scan(u[NextO(u, 1)..] + v)
  {
    var n := NextO(u, 1);
    JudgeStable(u, v);
    hide Judge, NextO;
    var w := u + v;
    assert Scan(w) == Scan(w[1..]);
    hide Scan;
    ScanPastGarbage(w[1..], n - 1);
    DropDrop(w, 1, n - 1);
    SliceAppend(u, v, n);
  }

  lemma {:induction false} ScanPage(u: seq<byte>, v: seq<byte>)
    requires Judge(u).PageHere?
    ensures Scan(u + v) == [PageAt(u)] + Scan(u[Judge(u).n..] + v)
  {
    JudgeStable(u, v);
    SliceAppend(u, v, Judge(u).n);
  }

  function PagesOf(pulled: Pulled): seq<Page> {
    if pulled.Got? then [pulled.page] else []
  }

  /** Whatever data follows, a call to `pageout` takes from the scan exactly the page it returns. */
  lemma {:induction false} PageOutScan(s: SyncView, v: seq<byte>)
    ensures Scan(s.unread + v) == PagesOf(PageOut(s).1) + Scan(PageOut(s).0.unread + v)
    decreases |s.unread|
  {
    hide Scan, PageAt;
    match Judge(s.unread)
    case Incomplete =>
    case PageHere(n) => ScanPage(s.unread, v);
    case NotAPage =>
      ScanSkip(s.unread, v);
      if s.unsynced {
        PageOutScan(SyncView(s.unread[NextO(s.unread, 1)..], true), v);
      }
  }

  lemma {:induction false} NeedDataMeansDrained(s: SyncView)
    ensures PageOut(s).1.NeedData? ==> Judge(PageOut(s).0.unread).Incomplete? && Scan(PageOut(s).0.unread) == []
    decreases |s.unread|
  {
    if Judge(s.unread).NotAPage? && s.unsynced {
      NeedDataMeansDrained(SyncView(s.unread[NextO(s.unread, 1)..], true));
    }
  }

  // ----- Chunk independence -----

  datatype SyncOp = Feed(chunk: seq<byte>) | Pull

  function Fed(ops: seq<SyncOp>): seq<byte> {
    if |ops| == 0 then [] else
      Fed(ops[..|ops| - 1]) + match ops[|ops| - 1] case Feed(c) => c case Pull => []
  }

  /** The state after a run from `ogg_sync_init`, and the pages it returned. */
  function SyncRun(ops: seq<SyncOp>): (SyncView, seq<Page>) {
    if |ops| == 0 then (SyncView([], false), []) else
      var (s, pages) := SyncRun(ops[..|ops| - 1]);
      match ops[|ops| - 1]
      case Feed(c) => (s.(unread := s.unread + c), pages)
      case Pull =>
        var (s', pulled) := PageOut(s);
        (s', pages + PagesOf(pulled))
  }

  lemma {:induction false} RunScan(ops: seq<SyncOp>, v: seq<byte>)
    ensures var (s, pages) := SyncRun(ops);
            Scan(Fed(ops) + v) == pages + Scan(s.unread + v)
    decreases |ops|
  {
    hide Scan, PageOut;
    if ops == [] {
      assert [] + Scan([] + v) == Scan([] + v);
    } else {
      var n := |ops| - 1;
      var (s, pages) := SyncRun(ops[..n]);
      match ops[n]
      case Feed(c) =>
        RunScan(ops[..n], c + v);
        Assoc(Fed(ops[..n]), c, v);
        Assoc(s.unread, c, v);
      case Pull =>
        RunScan(ops[..n], v);
        PageOutScan(s, v);
        Assoc(pages, PagesOf(PageOut(s).1), Scan(PageOut(s).0.unread + v));
        assert Fed(ops[..n]) + [] == Fed(ops[..n]);
    }
  }

  /** However the octets are cut into chunks and the calls interleaved, once `pageout` asks for more data
      the pages returned are those of the scan of all the octets. */
  lemma {:induction false} ChunkIndependence(ops: seq<SyncOp>)
    requires Judge(SyncRun(ops).0.unread).Incomplete?
    ensures SyncRun(ops).1 == Scan(Fed(ops))
  {
    RunScan(ops, []);
    var (s, pages) := SyncRun(ops);
    assert Fed(ops) + [] == Fed(ops) && s.unread + [] == s.unread && pages + [] == pages;
  }

  // ----- Undamaged pages -----

  /** A page with the capture pattern and its own checksum. */
  predicate Genuine(p: Page) {
    WellFormed(p) && p.header[..4] == CAPTURE && p.header[22..26] == Checksum(p.header, p.body)
  }

  function Octets(p: Page): seq<byte> { p.header + p.body }

  lemma {:induction false} GenuineJudged(p: Page, rest: seq<byte>)
    requires Genuine(p)
    ensures var u := Octets(p) + rest;
            Judge(u) == PageHere(|Octets(p)|) && PageAt(u) == p && u[|Octets(p)|..] == rest
  {
    var o := Octets(p);
    var h := |p.header|;
    hide Sum, Checksum;
    assert o[..h] == p.header && o[h..] == p.body && o[26] == p.header[26];
    assert o[..4] == p.header[..4] && o[22..26] == p.header[22..26] && o[27..h] == p.header[27..];
    assert o[h..|o|] == p.body;
    JudgeStable(o, rest);
  }

  /** A page of which only the beginning is there is not mistaken for garbage. */
  lemma {:induction false} GenuinePrefix(p: Page, rest: seq<byte>, u: seq<byte>)
    requires Genuine(p) && u <= Octets(p) + rest
    ensures Judge(u).Incomplete? || (Judge(u) == PageHere(|Octets(p)|) && PageAt(u) == p)
  {
    hide Judge, PageAt, Genuine, Octets;
    var w := Octets(p) + rest;
    GenuineJudged(p, rest);
    assert u == w[..|u|];
    SliceJoin(w, |u|);
    JudgeStable(u, w[|u|..]);
  }

  // ----- Damaged pages -----

  /** The same octets but for four consecutive ones. */
  predicate DiffersInWindow(u: seq<byte>, w: seq<byte>, k: nat) {
    |u| == |w| && k + 4 <= |u| && u != w &&
    forall i :: 0 <= i < |u| && !(k <= i < k + 4) ==> u[i] == w[i]
  }

  /** A page damaged within four consecutive octets, which are the checksum field or outside it, is rejected as long
      as its capture pattern and its total length are intact. */
  lemma {:induction false} BurstRejected(p: Page, w: seq<byte>, k: nat, rest: seq<byte>)
    requires Genuine(p) && DiffersInWindow(Octets(p), w, k) && (k + 4 <= 22 || k == 22 || k >= 26)
    requires w[..4] == CAPTURE && |w| >= HeaderSize(w) && PageSize(w) == |w|
    ensures Judge(w + rest).NotAPage? && Seek(w + rest) < 0
  {
    var u := Octets(p);
    JudgedOctets(p);
    hide Checksum, Octets, Genuine, Judge, Seek, CAPTURE, PageSize, HeaderSize;
    ClearedMessage(u, HeaderSize(u), |u|);
    ClearedMessage(w, HeaderSize(w), |w|);
    if k == 22 {
      FieldDamaged(u, w);
    } else {
      BurstChangesChecksum(u, w, k);
      SameChecksumField(u, w, k);
    }
    assert u[HeaderSize(u)..|u|] == u[HeaderSize(u)..];
    Mismatch(w);
    JudgeStable(w, rest);
    GarbageSkipped(w + rest);
  }

  lemma {:induction false} Mismatch(w: seq<byte>)
    requires |w| >= HEADER_BASE && |w| >= HeaderSize(w) && PageSize(w) == |w|
    requires w[22..26] != Checksum(w[..HeaderSize(w)], w[HeaderSize(w)..|w|])
    ensures Judge(w).NotAPage?
  {
    hide Checksum, Sum;
  }

  lemma {:induction false} GarbageSkipped(w: seq<byte>)
    requires Judge(w).NotAPage?
    ensures Seek(w) < 0
  {
    hide Judge;
  }

  lemma {:induction false} JudgedOctets(p: Page)
    requires Genuine(p)
    ensures var u := Octets(p);
            && |u| >= HEADER_BASE && HeaderSize(u) <= |u|
            && u[22..26] == Checksum(u[..HeaderSize(u)], u[HeaderSize(u)..])
  {
    var u, h := Octets(p), |p.header|;
    assert u[..h] == p.header && u[h..] == p.body && u[26] == p.header[26] && u[22..26] == p.header[22..26];
  }

  lemma {:induction false} SameChecksumField(u: seq<byte>, w: seq<byte>, k: nat)
    requires |u| >= HEADER_BASE && DiffersInWindow(u, w, k) && (k + 4 <= 22 || k >= 26)
    ensures u[22..26] == w[22..26]
  {
  }

  lemma {:induction false} FieldDamaged(u: seq<byte>, w: seq<byte>)
    requires |u| >= HEADER_BASE && DiffersInWindow(u, w, 22)
    ensures u[22..26] != w[22..26] && Cleared(u) == Cleared(w)
  {
    var i :| 0 <= i < |u| && u[i] != w[i];
    assert u[22..26][i - 22] != w[22..26][i - 22];
  }

  /** The message the checksum covers: the whole page with the checksum field cleared. */
  lemma {:induction false} ClearedMessage(u: seq<byte>, h: nat, n: nat)
    requires HEADER_BASE <= h <= n == |u|
    ensures Checksum(u[..h], u[h..n]) == Crc.CrcBytes(Crc.CrcFrom(0, Cleared(u)))
  {
    assert Cleared(u[..h]) + u[h..n] == Cleared(u);
  }

  lemma {:induction false} BurstChangesChecksum(u: seq<byte>, w: seq<byte>, k: nat)
    requires |u| >= HEADER_BASE && DiffersInWindow(u, w, k) && (k + 4 <= 22 || k >= 26)
    ensures Crc.CrcBytes(Crc.CrcFrom(0, Cleared(u))) != Crc.CrcBytes(Crc.CrcFrom(0, Cleared(w)))
  {
    hide Cleared, Crc.CrcFrom, Crc.CrcBytes;
    var c, d := Cleared(u), Cleared(w);
    ClearedWindow(u, w, k);
    SplitWindow(c, k);
    SplitWindow(d, k);
    Crc.BurstDetected(0, c[..k], c[k..k + 4], d[k..k + 4], c[k + 4..]);
    Crc.CrcBytesInjective(Crc.CrcFrom(0, c), Crc.CrcFrom(0, d));
  }

  lemma {:induction false} ClearedWindow(u: seq<byte>, w: seq<byte>, k: nat)
    requires |u| >= HEADER_BASE && DiffersInWindow(u, w, k) && (k + 4 <= 22 || k >= 26)
    ensures var c, d := Cleared(u), Cleared(w);
            k + 4 <= |c| == |d| && c[..k] == d[..k] && c[k + 4..] == d[k + 4..] && c[k..k + 4] != d[k..k + 4]
  {
    ClearedAt(u);
    ClearedAt(w);
    hide Cleared;
    var c, d := Cleared(u), Cleared(w);
    var i :| 0 <= i < |u| && u[i] != w[i];
    assert c[k..k + 4][i - k] == u[i] && d[k..k + 4][i - k] == w[i];
  }

  lemma {:induction false} ClearedAt(u: seq<byte>)
    requires |u| >= HEADER_BASE
    ensures forall i :: 0 <= i < |u| ==> Cleared(u)[i] == if 22 <= i < 26 then 0 else u[i]
  {
  }

  lemma {:induction false} SplitWindow(c: seq<byte>, k: nat)
    requires k + 4 <= |c|
    ensures c == c[..k] + c[k..k + 4] + c[k + 4..]
  {
  }
}
