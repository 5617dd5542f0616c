/** What the option string's leading '-' or '+' does to the calls after the first, which read it unstripped. */
module OptionPrefix {
  import opened Bytes
  import opened OptionScan

  /** An option string whose first character selects the ordering. */
  predicate Prefixed(optstring: string) {
    optstring != "" && (optstring[0] == '-' || optstring[0] == '+')
  }

  /** The number of ':' at a position, of which two are read. */
  function Colons(optstring: string, at: nat): (n: nat)
    requires at <= |optstring|
    ensures n <= 2
  {
    if at == |optstring| || optstring[at] != ':' then 0
    else if at + 1 == |optstring| || optstring[at + 1] != ':' then 1
    else 2
  }

  /** Only the prefix character itself can be read differently. */
  lemma {:induction false} KindsAlike(optstring: string, c: char)
    requires Prefixed(optstring)
    ensures var p, rest := optstring[0], optstring[1..];
            KindOf(optstring, c) == KindOf(rest, c)
            <==> c != p || (IndexOf(rest, p) < |rest| && Colons(rest, IndexOf(rest, p) + 1) == Colons(rest, 0))
    ensures c == optstring[0] ==> KindOf(optstring, c) != Invalid
  {
    var rest := optstring[1..];
    var n := IndexOf(rest, c);
    assert c != optstring[0] ==> IndexOf(optstring, c) == 1 + n;
    assert n + 1 < |rest| ==> rest[n + 1] == optstring[n + 2];
    assert n + 2 < |rest| ==> rest[n + 2] == optstring[n + 3];
    assert |rest| > 0 ==> rest[0] == optstring[1];
    assert |rest| > 1 ==> rest[1] == optstring[2];
  }

  /** When an option character is read alike with and without the prefix: of the same kind, unless a missing argument
      is reported with another code; or of different kinds that come to the same at this place of the element. */
  predicate Alike(optstring: string, s: Scan)
    requires Prefixed(optstring) && s.next != "" && s.rest != []
  {
    var k, k' := KindOf(optstring, s.next[0]), KindOf(optstring[1..], s.next[0]);
    var atEnd, last := |s.next| == 1, |s.rest| == 1;
    if k == k' then !(k == Required && atEnd && last && |optstring| > 1 && optstring[1] == ':')
    else if atEnd then {k, k'} == {Plain, Optional} || (k == Required && k' == Invalid && last)
    else {k, k'} == {Required, Optional}
  }

  lemma {:induction false} DecodeAlike(optstring: string, s: Scan)
    requires Prefixed(optstring) && s.next != "" && s.rest != []
    ensures Decode(optstring, s) == Decode(optstring[1..], s) <==> Alike(optstring, s)
  {
    KindsAlike(optstring, s.next[0]);
    hide KindOf, IndexOf, Colons;
    assert s.next[0] == optstring[0] ==> s.next[0] != '?';
    var k, k' := KindOf(optstring, s.next[0]), KindOf(optstring[1..], s.next[0]);
    assert Plain in {k, k'} || Optional in {k, k'} || Required in {k, k'} || Invalid in {k, k'};
  }

  /** The state in which a call reads an option character, if it does. */
  function Entered(ordering: Ordering, s: Scan): (r: Option<Scan>)
    requires ValidScan(s)
    ensures r.Some? ==> r.value.next != "" && r.value.rest != []
  {
    if s.next != "" then Some(s) else
      var t := Skimmed(ordering, s);
      if t.rest == [] || t.rest[0] == "--" || NonOption(t.rest[0]) then None else Some(t.(next := t.rest[0][1..]))
  }

  /** Exactly when a later call, which reads the option string with its prefix, does what the first one would. */
  lemma {:induction false} LaterCalls(ordering: Ordering, optstring: string, s: Scan)
    requires Prefixed(optstring) && ValidScan(s)
    ensures Step(ordering, optstring, s) == Step(ordering, optstring[1..], s)
            <==> (Entered(ordering, s).Some? ==> Alike(optstring, Entered(ordering, s).value))
  {
    hide Decode, Alike, Skimmed;
    if Entered(ordering, s).Some? {
      DecodeAlike(optstring, Entered(ordering, s).value);
    }
  }

  /** The element "-a+" under the option string "+a": the second call takes '+' for an option. */
  lemma PrefixTakenForOption()
    ensures var (s, o) := Step(RequireOrder, "a", Scan([], [], ["-a+"], ""));
            && o == Outcome('a' as int, None, None)
            && Step(RequireOrder, "+a", s).1 == Outcome('+' as int, None, None)
            && Step(RequireOrder, "a", s).1 == Outcome('?' as int, None, Some('+'))
  {
    var e := "-a+";
    assert e[1..] == "a+" && e[1..][1..] == "+";
    assert IndexOf("a", 'a') == 0;
    assert IndexOf("a", '+') == 1 + IndexOf("a"[1..], '+') == 1;
    assert IndexOf("+a", '+') == 0;
  }

  /** Option strings whose prefix never matters. */
  ghost predicate Harmless(optstring: string)
    requires Prefixed(optstring)
  {
    && KindOf(optstring, optstring[0]) == KindOf(optstring[1..], optstring[0])
    && (|optstring| > 1 && optstring[1] == ':' ==> forall c :: KindOf(optstring[1..], c) != Required)
  }

  /** A place where the prefix matters. */
  function Telling(c: char, next: string): Scan {
    Scan([], [], ["-" + next], next)
  }

  lemma {:induction false} HarmlessAlike(optstring: string, s: Scan)
    requires Prefixed(optstring) && s.next != "" && s.rest != [] && Harmless(optstring)
    ensures Alike(optstring, s)
  {
    hide KindOf, IndexOf, Colons;
    KindsAlike(optstring, s.next[0]);
  }

  /** Exactly then every call in every state is as with the stripped option string. */
  lemma {:induction false} HarmlessExact(ordering: Ordering, optstring: string)
    requires Prefixed(optstring)
    ensures Harmless(optstring)
            <==> forall s | ValidScan(s) :: Step(ordering, optstring, s) == Step(ordering, optstring[1..], s)
  {
    hide KindOf, Step, Entered, Alike, Harmless;
    if Harmless(optstring) {
      forall s | ValidScan(s) ensures Step(ordering, optstring, s) == Step(ordering, optstring[1..], s) {
        HarmlessStep(ordering, optstring, s);
      }
    } else {
      HarmTold(ordering, optstring);
    }
  }

  lemma {:induction false} HarmlessStep(ordering: Ordering, optstring: string, s: Scan)
    requires Prefixed(optstring) && Harmless(optstring) && ValidScan(s)
    ensures Step(ordering, optstring, s) == Step(ordering, optstring[1..], s)
  {
    hide Step, Alike, Harmless, Entered;
    LaterCalls(ordering, optstring, s);
    if Entered(ordering, s).Some? {
      HarmlessAlike(optstring, Entered(ordering, s).value);
    }
  }

  lemma {:induction false} HarmTold(ordering: Ordering, optstring: string)
    requires Prefixed(optstring) && !Harmless(optstring)
    ensures exists s :: ValidScan(s) && Step(ordering, optstring, s) != Step(ordering, optstring[1..], s)
  {
    hide KindOf, Step, Skimmed;
    var p := optstring[0];
    var k, k' := KindOf(optstring, p), KindOf(optstring[1..], p);
    var s;
    if k != k' {
      s := Telling(p, if {k, k'} == {Required, Optional} then [p] else [p, p]);
    } else {
      var c :| KindOf(optstring[1..], c) == Required;
      KindsAlike(optstring, c);
      s := Telling(c, [c]);
    }
    assert Entered(ordering, s) == Some(s);
    LaterCalls(ordering, optstring, s);
  }

  // ----- Whole runs -----

  /** The ordering that the first call selects, and the option string without its prefix. */
  function OrderingOf(optstring: string, posixlyCorrect: bool): Ordering {
    if optstring != "" && optstring[0] == '-' then ReturnInOrder
    else if optstring != "" && optstring[0] == '+' then RequireOrder
    else if posixlyCorrect then RequireOrder
    else Permute
  }

  function Stripped(optstring: string): string {
    if Prefixed(optstring) then optstring[1..] else optstring
  }

  /** All calls until -1: the first with the stripped option string, the others with the whole one. */
  function Calls(ordering: Ordering, optstring: string, s: Scan): (seq<Outcome>, Scan)
    requires ValidScan(s)
  {
    var (s', o) := Step(ordering, Stripped(optstring), s);
    if o.code == -1 then ([], s') else
      var (os, s'') := RunToEnd(ordering, optstring, s');
      ([o] + os, s'')
  }

  lemma {:induction false} RunsAlike(ordering: Ordering, optstring: string, s: Scan)
    requires Prefixed(optstring) && Harmless(optstring) && ValidScan(s)
    ensures RunToEnd(ordering, optstring, s) == RunToEnd(ordering, optstring[1..], s)
    decreases Remaining(s)
  {
    hide Step, Harmless, Remaining;
    HarmlessStep(ordering, optstring, s);
    var (s', o) := Step(ordering, optstring, s);
    if o.code != -1 {
      StepShrinks(ordering, optstring, s);
      RunsAlike(ordering, optstring, s');
    }
  }

  /** With a harmless prefix or none, all calls read the stripped option string. */
  lemma {:induction false} CallsAlike(ordering: Ordering, optstring: string, s: Scan)
    requires ValidScan(s) && (Prefixed(optstring) ==> Harmless(optstring))
    ensures Calls(ordering, optstring, s) == RunToEnd(ordering, Stripped(optstring), s)
  {
    hide Step, Harmless, Remaining;
    var (s', o) := Step(ordering, Stripped(optstring), s);
    if Prefixed(optstring) && o.code != -1 {
      RunsAlike(ordering, optstring, s');
    }
  }

  lemma {:induction false} CallsPermuting(optstring: string, s: Scan)
    requires s.next == "" && s.opts == s.held == [] && !Prefixed(optstring)
    ensures var m := Marks(optstring, s.rest);
            Calls(Permute, optstring, s)
            == (Results(optstring, s.rest), Scan(Select(s.rest, m, true), Select(s.rest, m, false), [], ""))
  {
    hide Marks, Select, Results, RunToEnd, Calls;
    CallsAlike(Permute, optstring, s);
    RunPartitions(optstring, s);
    var m := Marks(optstring, s.rest);
    assert [] + Select(s.rest, m, true) == Select(s.rest, m, true) && [] + Select(s.rest, m, false) == Select(s.rest, m, false);
  }

  /** Reading the elements in place, the first character with the stripped option string, the others with the whole. */
  function ReadCalls(ordering: Ordering, optstring: string, args: seq<string>): (r: (seq<Outcome>, nat)) {
    var s := Scan([], [], args, "");
    var (s', o) := Step(ordering, Stripped(optstring), s);
    if o.code == -1 then Reads(ordering, Stripped(optstring), args) else
      var (os, n) := ReadOn(ordering, optstring, s');
      ([o] + os, |s'.opts| + n)
  }

  lemma {:induction false} CallsInOrder(ordering: Ordering, optstring: string, args: seq<string>)
    requires ordering != Permute
    ensures var (os, n) := ReadCalls(ordering, optstring, args);
            var (os', end) := Calls(ordering, optstring, Scan([], [], args, ""));
            os' == os && |end.opts| == n && end.opts + end.held + end.rest == args
  {
    hide Reads, RunToEnd, Step, ReadOn, Used, Advances;
    var s := Scan([], [], args, "");
    var (s', o) := Step(ordering, Stripped(optstring), s);
    var end := Calls(ordering, optstring, s).1;
    var n;
    ReadFromStart(ordering, Stripped(optstring), args);
    if o.code == -1 {
      InOrderEnds(ordering, Stripped(optstring), s);
      n := Reads(ordering, Stripped(optstring), args).1;
    } else {
      InOrderStep(ordering, Stripped(optstring), s);
      var k := Advanced(ordering, Stripped(optstring), s, s', o);
      RunInOrder(ordering, optstring, s');
      n := k + ReadOn(ordering, optstring, s').1;
      UsedMore(s, k, s', ReadOn(ordering, optstring, s').1, end);
    }
    UsedAll(args, n, end);
  }

  lemma {:induction false} ReadFromStart(ordering: Ordering, optstring: string, args: seq<string>)
    ensures ReadOn(ordering, optstring, Scan([], [], args, "")) == Reads(ordering, optstring, args)
  {
  }

  lemma {:induction false} UsedAll(args: seq<string>, n: nat, end: Scan)
    requires Used(Scan([], [], args, ""), n, end)
    ensures |end.opts| == n && end.opts + end.held + end.rest == args
  {
    assert [] + args[..n] == args[..n] && args[..n] + args[n..] == args;
    Assoc(end.opts, end.held, end.rest);
  }

  /** With a harmless prefix or none it is reading with the stripped option string. */
  lemma {:induction false} ReadCallsHarmless(ordering: Ordering, optstring: string, args: seq<string>)
    requires ordering != Permute && (Prefixed(optstring) ==> Harmless(optstring))
    ensures ReadCalls(ordering, optstring, args) == Reads(ordering, Stripped(optstring), args)
  {
    hide Reads, RunToEnd, Calls, Harmless, ReadOn, Used, ReadCalls;
    var s := Scan([], [], args, "");
    CallsInOrder(ordering, optstring, args);
    CallsAlike(ordering, optstring, s);
    RunInOrder(ordering, Stripped(optstring), s);
    ReadFromStart(ordering, Stripped(optstring), args);
    UsedAll(args, Reads(ordering, Stripped(optstring), args).1, Calls(ordering, optstring, s).1);
  }
}
