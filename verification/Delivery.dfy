/** What the decoder returns when only some of a stream's pages arrive. */
module Delivery {
  import opened Bytes
  import opened OggPage
  import opened Segments
  import opened Framing
  import opened Decoder

  // ----- The events a list of segments stands for -----

  function Events(segs: seq<Segment>): seq<Event> {
    if segs == [] then []
    else if segs[0].hole then [Gap] + Events(segs[1..])
    else
      var n := Run(segs);
      if !Ends(segs[n - 1]) then [] else [PacketOf(segs[..n])] + Events(segs[n..])
  }

  /** A run that ends inside a prefix is not changed by what follows. */
  lemma {:induction false} RunPrefix(a: seq<Segment>, b: seq<Segment>)
    requires a != [] && Ends(a[Run(a) - 1])
    ensures Run(a + b) == Run(a)
  {
    if !Ends(a[0]) {
      assert (a + b)[1..] == a[1..] + b;
      RunPrefix(a[1..], b);
    }
  }

  lemma {:induction false} ClosedRun(a: seq<Segment>)
    requires a != [] && Closed(a)
    ensures Ends(a[Run(a) - 1])
    ensures Closed(a[Run(a)..])
  {
    var n := Run(a);
    if n < |a| {
      assert a[n..][|a[n..]| - 1] == a[|a| - 1];
    }
  }

  lemma {:induction false} EventsAppend(a: seq<Segment>, b: seq<Segment>)
    requires Closed(a)
    ensures Events(a + b) == Events(a) + Events(b)
    decreases |a|
  {
    if a == [] {
      assert a + b == b;
    } else if a[0].hole {
      assert (a + b)[1..] == a[1..] + b;
      EventsAppend(a[1..], b);
    } else {
      var n := Run(a);
      ClosedRun(a);
      RunPrefix(a, b);
      SliceAppend(a, b, n);
      EventsAppend(a[n..], b);
      Assoc([PacketOf(a[..n])], Events(a[n..]), Events(b));
    }
  }

  /** A beginning without an end is no event. */
  lemma {:induction false} OpenHasNoEvents(segs: seq<Segment>)
    requires OpenFrom(segs, 0)
    ensures Events(segs) == []
  {
    if segs != [] {
      assert !Ends(segs[Run(segs) - 1]);
    }
  }

  /** The events of a valid state are those of its complete part. */
  lemma {:induction false} EventsOfComplete(segs: seq<Segment>, complete: nat)
    requires complete <= |segs| && Boundary(segs, complete) && OpenFrom(segs, complete)
    ensures Events(segs) == Events(segs[..complete])
  {
    assert segs == segs[..complete] + segs[complete..];
    EventsAppend(segs[..complete], segs[complete..]);
    OpenHasNoEvents(segs[complete..]);
  }

  /** `packetout` returns the pending events one by one, in order, and nothing else. */
  lemma {:induction false} PacketOutNext(d: DecState)
    requires Valid(d)
    ensures match PacketOut(d).1
            case None => PacketOut(d).0 == d && Events(d.segs) == []
            case Some(event) => Events(d.segs) == [event] + Events(PacketOut(d).0.segs)
  {
    if d.complete == 0 {
      OpenHasNoEvents(d.segs);
    } else {
      RunWithinComplete(d);
    }
  }

  /** `packetpeek` shows the next event. A packet stays, a gap is taken. */
  lemma {:induction false} PacketPeekNext(d: DecState)
    requires Valid(d)
    ensures var (d', shown) := PacketPeek(d);
            match shown
            case None => d' == d && Events(d.segs) == []
            case Some(Gap) => d' == PacketOut(d).0 && Events(d.segs) == [Gap] + Events(d'.segs)
            case Some(event) => d' == d && PacketOut(d).1 == Some(event) && Events(d.segs)[..1] == [event]
  {
    hide PacketOut, Valid, Events;
    PacketOutNext(d);
  }

  function Packets(events: seq<Event>): seq<Event> {
    if |events| == 0 then []
    else Packets(events[..|events| - 1]) + if events[|events| - 1].Gap? then [] else [events[|events| - 1]]
  }

  function Gaps(events: seq<Event>): nat {
    if |events| == 0 then 0 else Gaps(events[..|events| - 1]) + if events[|events| - 1].Gap? then 1 else 0
  }

  lemma {:induction false} PacketsAppend(a: seq<Event>, b: seq<Event>)
    ensures Packets(a + b) == Packets(a) + Packets(b) && Gaps(a + b) == Gaps(a) + Gaps(b)
  {
    if b == [] {
      assert a + b == a;
    } else {
      PacketsAppend(a, b[..|b| - 1]);
      assert (a + b)[..|a + b| - 1] == a + b[..|b| - 1];
    }
  }

  // ----- Reference: the packets that survive the loss of pages -----

  /** A segment and whether the page it lies on is delivered. */
  datatype Tagged = Tagged(seg: Segment, ok: bool)

  function Segs(ts: seq<Tagged>): (s: seq<Segment>)
    ensures |s| == |ts|
    ensures forall i :: 0 <= i < |ts| ==> s[i] == ts[i].seg
  {
    seq(|ts|, i requires 0 <= i < |ts| => ts[i].seg)
  }

  predicate AllOk(ts: seq<Tagged>) {
    forall i :: 0 <= i < |ts| ==> ts[i].ok
  }

  /** The packet made of a run, if all of it is delivered. */
  function Survivor(run: seq<Tagged>): seq<Event>
    requires run != []
  {
    if AllOk(run) then [PacketOf(Segs(run))] else []
  }

  /** Group the stream's segments into packets; keep those whose every segment is delivered. */
  function Survivors(ts: seq<Tagged>): seq<Event> {
    if ts == [] then []
    else
      var n := Run(Segs(ts));
      if !Ends(ts[n - 1].seg) then [] else Survivor(ts[..n]) + Survivors(ts[n..])
  }

  lemma {:induction false} SurvivorsStep(ts: seq<Tagged>, n: nat)
    requires ts != [] && n == Run(Segs(ts)) && Ends(Segs(ts)[n - 1])
    ensures Survivors(ts) == Survivor(ts[..n]) + Survivors(ts[n..])
  {
    hide Run, Segs, Survivor;
  }

  lemma {:induction false} OpenSurvivors(ts: seq<Tagged>)
    requires NoEnds(Segs(ts))
    ensures Survivors(ts) == []
  {
    if ts != [] {
      assert !Ends(Segs(ts)[Run(Segs(ts)) - 1]);
    }
  }

  ghost predicate Plain(ts: seq<Tagged>) {
    forall i :: 0 <= i < |ts| ==> !ts[i].seg.hole
  }

  lemma {:induction false} SegsAppend(a: seq<Tagged>, b: seq<Tagged>)
    ensures Segs(a + b) == Segs(a) + Segs(b)
  {
  }

  lemma {:induction false} SegsSlice(ts: seq<Tagged>, n: nat)
    requires n <= |ts|
    ensures Segs(ts[..n]) == Segs(ts)[..n] && Segs(ts[n..]) == Segs(ts)[n..]
  {
  }

  lemma {:induction false} FirstSurvivor(a: seq<Tagged>, b: seq<Tagged>)
    requires a != [] && Closed(Segs(a))
    ensures var n := Run(Segs(a));
            && Closed(Segs(a[n..]))
            && Survivors(a + b) == Survivor(a[..n]) + Survivors(a[n..] + b)
  {
    var n := Run(Segs(a));
    ClosedRun(Segs(a));
    SegsSlice(a, n);
    hide Survivors, Survivor, Run, Closed, Ends;
    SegsAppend(a, b);
    RunPrefix(Segs(a), Segs(b));
    SurvivorsStep(a + b, n);
    SliceAppend(a, b, n);
  }

  lemma {:induction false} SurvivorsAppend(a: seq<Tagged>, b: seq<Tagged>)
    requires Closed(Segs(a))
    ensures Survivors(a + b) == Survivors(a) + Survivors(b)
    decreases |a|
  {
    if a == [] {
      assert a + b == b;
    } else {
      hide Survivors, Survivor, Run, Closed;
      var n := Run(Segs(a));
      FirstSurvivor(a, b);
      FirstSurvivor(a, []);
      assert a + [] == a && a[n..] + [] == a[n..];
      SurvivorsAppend(a[n..], b);
      Assoc(Survivor(a[..n]), Survivors(a[n..]), Survivors(b));
    }
  }

  /** If no end is delivered, nothing survives. */
  lemma {:induction false} NoEndSurvives(ts: seq<Tagged>)
    requires forall i :: 0 <= i < |ts| && Ends(ts[i].seg) ==> !ts[i].ok
    ensures Survivors(ts) == []
    decreases |ts|
  {
    if ts != [] {
      var n := Run(Segs(ts));
      assert Ends(ts[n - 1].seg) ==> !ts[..n][n - 1].ok;
      NoEndSurvives(ts[n..]);
    }
  }

  /** Where everything is delivered, everything survives. */
  lemma {:induction false} AllSurvive(ts: seq<Tagged>)
    requires AllOk(ts) && Plain(ts)
    ensures Survivors(ts) == Events(Segs(ts))
    decreases |ts|
  {
    if ts != [] {
      var n := Run(Segs(ts));
      SegsSlice(ts, n);
      AllSurvive(ts[n..]);
    }
  }

  /** A packet that began on a lost page is lost; what follows its end is not affected. */
  lemma {:induction false} BrokenPacketLost(open: seq<Tagged>, x: seq<Tagged>)
    requires NoEnds(Segs(open)) && !AllOk(open)
    ensures Survivors(open + x) == Survivors(x[Run(Segs(x))..])
  {
    hide Survivors, Run, PacketOf, Segs;
    var ts, j := open + x, Run(Segs(x));
    var n := Run(Segs(ts));
    SegsAppend(open, x);
    if x == [] || !Ends(x[j - 1].seg) {
      assert NoEnds(Segs(x));
      assert NoEnds(Segs(ts));
      OpenSurvivors(ts);
      assert x[j..] == [];
      OpenSurvivors([]);
    } else {
      RunAcross(Segs(open), Segs(x));
      SurvivorsStep(ts, n);
      assert ts[n..] == x[j..];
      NotAllOk(open, ts[..n]);
    }
  }

  lemma {:induction false} NotAllOk(open: seq<Tagged>, run: seq<Tagged>)
    requires |open| <= |run| && run[..|open|] == open && !AllOk(open)
    ensures !AllOk(run)
  {
    var i :| 0 <= i < |open| && !open[i].ok;
    assert run[..|open|][i] == run[i];
  }

  lemma {:induction false} RunAcross(open: seq<Segment>, x: seq<Segment>)
    requires NoEnds(open)
    requires x != [] && Ends(x[Run(x) - 1])
    ensures Run(open + x) == |open| + Run(x)
  {
    if open == [] {
      assert open + x == x;
    } else {
      assert (open + x)[1..] == open[1..] + x;
      RunAcross(open[1..], x);
    }
  }

  // ----- Survivors as a selection -----

  /** The elements whose flag is set. */
  function Kept<T>(s: seq<T>, flags: seq<bool>): seq<T>
    requires |flags| == |s|
  {
    if s == [] then [] else (if flags[0] then [s[0]] else []) + Kept(s[1..], flags[1..])
  }

  /** For each run that ends, whether all of it was delivered. */
  function RunFates(ts: seq<Tagged>): seq<bool> {
    if ts == [] then []
    else
      var n := Run(Segs(ts));
      if !Ends(ts[n - 1].seg) then [] else [AllOk(ts[..n])] + RunFates(ts[n..])
  }

  /** The survivors are the packets that full delivery would give, less those with a lost segment. */
  lemma {:induction false} SurvivorsKept(ts: seq<Tagged>)
    requires Plain(ts)
    ensures |RunFates(ts)| == |Events(Segs(ts))| && Survivors(ts) == Kept(Events(Segs(ts)), RunFates(ts))
    decreases |ts|
  {
    if ts != [] {
      var n := Run(Segs(ts));
      SegsSlice(ts, n);
      SurvivorsKept(ts[n..]);
      hide Run, AllOk, AnyLast, Body;
      if Ends(ts[n - 1].seg) {
        KeptFront(PacketOf(Segs(ts[..n])), Events(Segs(ts[n..])), AllOk(ts[..n]), RunFates(ts[n..]));
      }
    }
  }

  lemma {:induction false} KeptFront<T>(a: T, s: seq<T>, flag: bool, flags: seq<bool>)
    requires |flags| == |s|
    ensures Kept([a] + s, [flag] + flags) == (if flag then [a] else []) + Kept(s, flags)
  {
    assert ([a] + s)[1..] == s && ([flag] + flags)[1..] == flags;
  }
}
