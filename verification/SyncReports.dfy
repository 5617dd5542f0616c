/** What the page buffer says of arbitrary octets: which pages it finds, what it skips, and when it reports a loss of
    synchronisation. */
module SyncReports {
  import opened Bytes
  import opened OggPage
  import opened Sync

  // ----- One look at the octets at hand -----

  /** A page is found exactly if it is genuine and all of it is there. */
  lemma {:induction false} PageFound(u: seq<byte>, p: Page)
    ensures Genuine(p) && Octets(p) <= u <==> Judge(u).PageHere? && PageAt(u) == p
    ensures Judge(u).PageHere? && PageAt(u) == p ==> Judge(u).n == |Octets(p)|
  {
    hide Judge, Genuine, PageAt, Octets;
    if Genuine(p) && Octets(p) <= u {
      assert u == Octets(p) + u[|Octets(p)|..];
      GenuineJudged(p, u[|Octets(p)|..]);
    }
    if Judge(u).PageHere? && PageAt(u) == p {
      FoundGenuine(u);
      assert Octets(p) == u[..Judge(u).n];
    }
  }

  lemma {:induction false} FoundGenuine(u: seq<byte>)
    requires Judge(u).PageHere?
    ensures Genuine(PageAt(u)) && Octets(PageAt(u)) == u[..Judge(u).n]
  {
    hide Checksum, Sum;
    var h, n := HeaderSize(u), Judge(u).n;
    assert u[..n] == u[..h] + u[h..n];
    assert u[..h][27..] == u[27..h] && u[..h][..4] == u[..4] && u[..h][22..26] == u[22..26];
  }

  /** More data is needed exactly if there are less than 27 octets, or the capture pattern and less than the header and
      body that it announces. */
  lemma {:induction false} MoreNeeded(u: seq<byte>)
    ensures Judge(u).Incomplete?
            <==> || |u| < 27
                 || (u[..4] == [79, 103, 103, 83]
                     && (|u| - 27 < u[26] || |u| - 27 - u[26] < Sum(u[27..][..u[26]])))
  {
    hide Checksum, Sum;
    if |u| >= HEADER_BASE && |u| - 27 >= u[26] {
      assert u[27..][..u[26]] == u[27..HeaderSize(u)];
    }
  }

  /** `ogg_sync_pageseek` returns 0 exactly if more data is needed, the length of a page exactly if one is found, and
      otherwise skips to the next 'O' behind the first octet, or to the end. */
  lemma {:induction false} SeekExact(u: seq<byte>)
    ensures Seek(u) == 0 <==> Judge(u).Incomplete?
    ensures Seek(u) > 0 <==> Judge(u).PageHere?
    ensures Judge(u).PageHere? ==> Seek(u) == |Octets(PageAt(u))|
    ensures Seek(u) < 0 ==>
              var k := -Seek(u);
              k <= |u| && (forall j :: 0 < j < k ==> u[j] != 'O' as int) && (k < |u| ==> u[k] == 'O' as int)
  {
    hide Checksum, Sum;
  }

  // ----- Reference: what is reported of a whole string -----

  /** Each page, and once for every stretch of garbage the loss of synchronisation. */
  function Reports(s: seq<byte>, unsynced: bool): seq<Pulled>
    decreases |s|
  {
    match Judge(s)
    case Incomplete => []
    case PageHere(n) => [Got(PageAt(s))] + Reports(s[n..], false)
    case NotAPage => (if unsynced then [] else [Lost]) + Reports(s[1..], true)
  }

  lemma {:induction false} ReportsPastGarbage(s: seq<byte>, k: nat)
    requires k <= |s| && forall i :: 0 <= i < k ==> s[i] != 79
    ensures Reports(s, true) == Reports(s[k..], true)
    decreases k
  {
    if k == 0 {
      assert s[0..] == s;
    } else {
      ReportsPastGarbage(s[1..], k - 1);
      assert s[1..][k - 1..] == s[k..];
      if |s| >= HEADER_BASE {
        assert s[..4][0] != CAPTURE[0];
      }
    }
  }

  lemma {:induction false} ReportsOne(w: seq<byte>, unsynced: bool)
    requires Judge(w).NotAPage?
    ensures Reports(w, unsynced) == (if unsynced then [] else [Lost]) + Reports(w[1..], true)
  {
    hide Judge, PageAt;
  }

  lemma {:induction false} ReportsSkip(u: seq<byte>, v: seq<byte>, unsynced: bool)
    requires Judge(u).NotAPage?
    ensures Reports(u + v, unsynced) == (if unsynced then [] else [Lost]) + Reports(u[NextO(u, 1)..] + v, true)
  {
    hide Judge, NextO, Reports, PageAt;
    var w, n := u + v, NextO(u, 1);
    JudgeStable(u, v);
    ReportsOne(w, unsynced);
    ReportsPastGarbage(w[1..], n - 1);
    DropDrop(w, 1, n - 1);
    SliceAppend(u, v, n);
  }

  lemma {:induction false} ReportsPage(u: seq<byte>, v: seq<byte>, unsynced: bool)
    requires Judge(u).PageHere?
    ensures Reports(u + v, unsynced) == [Got(PageAt(u))] + Reports(u[Judge(u).n..] + v, false)
  {
    JudgeStable(u, v);
    SliceAppend(u, v, Judge(u).n);
  }

  /** What a call reports; asking for more data is no report. */
  function ReportOf(pulled: Pulled): seq<Pulled> {
    if pulled.NeedData? then [] else [pulled]
  }

  /** Whatever data follows, a call takes exactly its report from those of the whole string. */
  lemma {:induction false} PageOutReports(s: SyncView, v: seq<byte>)
    ensures var (s', pulled) := PageOut(s);
            Reports(s.unread + v, s.unsynced) == ReportOf(pulled) + Reports(s'.unread + v, s'.unsynced)
    decreases |s.unread|
  {
    hide Reports, PageAt;
    match Judge(s.unread)
    case Incomplete =>
    case PageHere(n) => ReportsPage(s.unread, v, s.unsynced);
    case NotAPage =>
      ReportsSkip(s.unread, v, s.unsynced);
      if s.unsynced {
        PageOutReports(SyncView(s.unread[NextO(s.unread, 1)..], true), v);
      }
  }

  // ----- Runs -----

  /** The state after a run from `ogg_sync_init`, and everything it reported. */
  function ReportRun(ops: seq<SyncOp>): (SyncView, seq<Pulled>) {
    if |ops| == 0 then (SyncView([], false), []) else
      var (s, reports) := ReportRun(ops[..|ops| - 1]);
      match ops[|ops| - 1]
      case Feed(c) => (s.(unread := s.unread + c), reports)
      case Pull =>
        var (s', pulled) := PageOut(s);
        (s', reports + ReportOf(pulled))
  }

  lemma {:induction false} RunReports(ops: seq<SyncOp>, v: seq<byte>)
    ensures var (s, reports) := ReportRun(ops);
            Reports(Fed(ops) + v, false) == reports + Reports(s.unread + v, s.unsynced)
    decreases |ops|
  {
    hide Reports, PageOut;
    if ops == [] {
      assert [] + Reports([] + v, false) == Reports([] + v, false);
    } else {
      var n := |ops| - 1;
      var (s, reports) := ReportRun(ops[..n]);
      match ops[n]
      case Feed(c) =>
        RunReports(ops[..n], c + v);
        Assoc(Fed(ops[..n]), c, v);
        Assoc(s.unread, c, v);
      case Pull =>
        RunReports(ops[..n], v);
        PageOutReports(s, v);
        var (s', pulled) := PageOut(s);
        Assoc(reports, ReportOf(pulled), Reports(s'.unread + v, s'.unsynced));
        assert Fed(ops[..n]) + [] == Fed(ops[..n]);
    }
  }

  /** However the octets are cut into chunks and the calls interleaved, once more data is needed the reports are those of
      all the octets: losses of synchronisation as well as pages, in their places. */
  lemma {:induction false} ReportsExact(ops: seq<SyncOp>)
    requires Judge(ReportRun(ops).0.unread).Incomplete?
    ensures ReportRun(ops).1 == Reports(Fed(ops), false)
  {
    RunReports(ops, []);
    var (s, reports) := ReportRun(ops);
    assert Fed(ops) + [] == Fed(ops) && s.unread + [] == s.unread && reports + [] == reports;
  }

  /** Of any two neighbours one is a page. */
  predicate Apart(reports: seq<Pulled>) {
    forall i :: 0 <= i < |reports| - 1 ==> reports[i].Got? || reports[i + 1].Got?
  }

  /** A loss is reported once for each stretch of garbage: a page lies between any two. */
  lemma {:induction false} LossesApart(s: seq<byte>, unsynced: bool)
    ensures var r := Reports(s, unsynced); Apart(r) && (unsynced && r != [] ==> r[0].Got?)
    decreases |s|
  {
    hide Apart;
    NoReports();
    match Judge(s)
    case Incomplete =>
    case PageHere(n) =>
      LossesApart(s[n..], false);
      FrontReport(Got(PageAt(s)), Reports(s[n..], false));
    case NotAPage =>
      LossesApart(s[1..], true);
      FrontReport(Lost, Reports(s[1..], true));
      assert [] + Reports(s[1..], true) == Reports(s[1..], true);
  }

  lemma NoReports()
    ensures Apart([])
  {
  }

  lemma {:induction false} FrontReport(first: Pulled, rest: seq<Pulled>)
    requires Apart(rest) && (first.Got? || rest == [] || rest[0].Got?)
    ensures Apart([first] + rest)
  {
    var r := [first] + rest;
    forall i | 0 <= i < |r| - 1
      ensures r[i].Got? || r[i + 1].Got?
    {
      assert r[i + 1] == rest[i];
      if i > 0 {
        assert r[i] == rest[i - 1];
      }
    }
  }

  // ----- When no loss is reported -----

  function Joined(pages: seq<Page>): seq<byte> {
    if pages == [] then [] else Octets(pages[0]) + Joined(pages[1..])
  }

  ghost predicate AllGenuine(pages: seq<Page>) {
    forall p :: p in pages ==> Genuine(p)
  }

  ghost predicate NoLoss(reports: seq<Pulled>) {
    forall r :: r in reports ==> !r.Lost?
  }

  lemma {:induction false} PagesReported(pages: seq<Page>, tail: seq<byte>)
    requires AllGenuine(pages) && Judge(tail).Incomplete?
    ensures NoLoss(Reports(Joined(pages) + tail, false))
    decreases |pages|
  {
    hide Judge, Genuine, PageAt, Octets;
    if pages == [] {
      assert [] + tail == tail;
    } else {
      var rest := Joined(pages[1..]) + tail;
      Assoc(Octets(pages[0]), Joined(pages[1..]), tail);
      GenuineJudged(pages[0], rest);
      PagesReported(pages[1..], tail);
    }
  }

  lemma {:induction false} NoLossPages(s: seq<byte>) returns (pages: seq<Page>, tail: seq<byte>)
    requires NoLoss(Reports(s, false))
    ensures AllGenuine(pages) && Judge(tail).Incomplete? && s == Joined(pages) + tail
    decreases |s|
  {
    hide Genuine, Octets;
    match Judge(s)
    case Incomplete =>
      pages, tail := [], s;
    case PageHere(n) =>
      FoundGenuine(s);
      hide Judge, PageAt;
      pages, tail := NoLossPages(s[n..]);
      SliceJoin(s, n);
      Assoc(s[..n], Joined(pages), tail);
      pages := [PageAt(s)] + pages;
    case NotAPage =>
      LossAtFront(Reports(s[1..], true));
  }

  lemma {:induction false} LossAtFront(rest: seq<Pulled>)
    ensures !NoLoss([Lost] + rest)
  {
    assert ([Lost] + rest)[0] == Lost;
  }

  /** No loss is reported exactly of genuine pages one behind the other, and a beginning of one more. */
  lemma {:induction false} NoLossExact(s: seq<byte>)
    ensures NoLoss(Reports(s, false))
            <==> exists pages, tail :: AllGenuine(pages) && Judge(tail).Incomplete? && s == Joined(pages) + tail
  {
    hide Reports, Judge, NoLoss, AllGenuine, Joined;
    if NoLoss(Reports(s, false)) {
      var pages, tail := NoLossPages(s);
    }
    if pages, tail :| AllGenuine(pages) && Judge(tail).Incomplete? && s == Joined(pages) + tail {
      PagesReported(pages, tail);
    }
  }
}
