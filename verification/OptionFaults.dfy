/** Calls in which the code leaves what it defines: a null table is read, or a character is returned as a negative number. */
module OptionFaults {
  import opened Bytes
  import opened OptionScan
  import opened OptionPrefix

  /** The option string announces long options as arguments of 'W'. `getopt` itself passes none: a null table. */
  predicate LongWord(optstring: string) {
    var n := IndexOf(optstring, 'W');
    n + 1 < |optstring| && optstring[n + 1] == ';'
  }

  /** Reading this character neither looks an argument up in the null table nor returns a `char` that may be negative.
      (A missing argument is reported before the table is read.) */
  predicate Defined(optstring: string, s: Scan)
    requires s.next != "" && s.rest != []
  {
    && (s.next[0] == 'W' && LongWord(optstring) ==> |s.next| == 1 && |s.rest| == 1)
    && (KindOf(optstring, s.next[0]) != Invalid ==> s.next[0] < 128 as char)
  }

  predicate CallDefined(ordering: Ordering, optstring: string, s: Scan)
    requires ValidScan(s)
  {
    Entered(ordering, s).Some? ==> Defined(optstring, Entered(ordering, s).value)
  }

  /** The same of every call until -1. */
  predicate RunDefined(ordering: Ordering, optstring: string, s: Scan)
    requires ValidScan(s)
    decreases Remaining(s)
  {
    && CallDefined(ordering, optstring, s)
    && var (s', o) := Step(ordering, optstring, s);
       o.code == -1 || (StepShrinks(ordering, optstring, s); RunDefined(ordering, optstring, s'))
  }

  /** The same of a caller's loop, whose first call strips the option string. */
  predicate CallsDefined(ordering: Ordering, optstring: string, s: Scan)
    requires ValidScan(s)
  {
    && CallDefined(ordering, Stripped(optstring), s)
    && var (s', o) := Step(ordering, Stripped(optstring), s);
       o.code == -1 || RunDefined(ordering, optstring, s')
  }

  lemma {:induction false} RunDefinedNext(ordering: Ordering, optstring: string, s: Scan)
    requires ValidScan(s) && RunDefined(ordering, optstring, s)
    ensures CallDefined(ordering, optstring, s)
    ensures var (s', o) := Step(ordering, optstring, s); o.code == -1 || RunDefined(ordering, optstring, s')
  {
    hide CallDefined, Step, Remaining;
  }

  // ----- Option strings for which all calls are defined -----

  predicate Safe(optstring: string) {
    !LongWord(optstring) && forall i :: 0 <= i < |optstring| ==> optstring[i] < 128 as char
  }

  lemma {:induction false} SafeCall(ordering: Ordering, optstring: string, s: Scan)
    requires ValidScan(s) && Safe(optstring)
    ensures CallDefined(ordering, optstring, s)
  {
    hide LongWord, Skimmed;
  }

  lemma {:induction false} IndexFirst(s: string, i: nat)
    requires i < |s|
    ensures IndexOf(s, s[i]) <= i
  {
    if i > 0 && s[0] != s[i] {
      IndexFirst(s[1..], i - 1);
    }
  }

  /** Exactly for these option strings every call in every state is defined. */
  lemma {:induction false} SafeExact(ordering: Ordering, optstring: string)
    ensures Safe(optstring) <==> forall s | ValidScan(s) :: CallDefined(ordering, optstring, s)
  {
    hide CallDefined, Safe;
    if Safe(optstring) {
      forall s | ValidScan(s) ensures CallDefined(ordering, optstring, s) {
        SafeCall(ordering, optstring, s);
      }
    } else {
      FaultTold(ordering, optstring);
    }
  }

  lemma {:induction false} FaultTold(ordering: Ordering, optstring: string)
    requires !Safe(optstring)
    ensures exists s :: ValidScan(s) && !CallDefined(ordering, optstring, s)
  {
    hide Skimmed, LongWord, IndexOf;
    var s;
    if LongWord(optstring) {
      s := Telling('W', "Wx");
    } else {
      var i :| 0 <= i < |optstring| && optstring[i] >= 128 as char;
      s := Telling(optstring[i], [optstring[i]]);
      IndexFirst(optstring, i);
    }
    assert Entered(ordering, s) == Some(s) && !Defined(optstring, s);
    assert ValidScan(s) && !CallDefined(ordering, optstring, s);
  }

  lemma {:induction false} SafeRun(ordering: Ordering, optstring: string, s: Scan)
    requires ValidScan(s) && Safe(optstring)
    ensures RunDefined(ordering, optstring, s)
    decreases Remaining(s)
  {
    hide CallDefined, Safe, Step, Remaining;
    SafeCall(ordering, optstring, s);
    if Step(ordering, optstring, s).1.code != -1 {
      StepShrinks(ordering, optstring, s);
      SafeRun(ordering, optstring, Step(ordering, optstring, s).0);
    }
  }

  /** So a caller's loop with such an option string is defined on every command line. */
  lemma {:induction false} SafeCalls(ordering: Ordering, optstring: string, s: Scan)
    requires ValidScan(s) && Safe(optstring)
    ensures CallsDefined(ordering, optstring, s)
  {
    hide CallDefined, Safe, Step, RunDefined;
    SafeStripped(optstring);
    SafeCall(ordering, Stripped(optstring), s);
    if Step(ordering, Stripped(optstring), s).1.code != -1 {
      SafeRun(ordering, optstring, Step(ordering, Stripped(optstring), s).0);
    }
  }

  lemma {:induction false} SafeStripped(optstring: string)
    requires Safe(optstring)
    ensures Safe(Stripped(optstring))
  {
    if Prefixed(optstring) {
      assert IndexOf(optstring, 'W') == 1 + IndexOf(optstring[1..], 'W');
    }
  }

  /** With "W;", the element "-Wx" reads the null table; a lone "-W" is still reported as lacking its argument. */
  lemma NullTableRead()
    ensures !CallDefined(Permute, "W;", Scan([], [], ["-Wx"], ""))
    ensures var s := Scan([], [], ["-W"], "");
            CallDefined(Permute, "W;", s) && Step(Permute, "W;", s).1 == Outcome('?' as int, None, Some('W'))
  {
    var e, f := "-Wx", "-W";
    assert e[1..] == "Wx" && f[1..] == "W" && "W"[1..] == "";
    assert IndexOf("W;", 'W') == 0;
  }

  /** The option character 0xff is returned as -1, which looks like the end. */
  lemma NegativeCharacter()
    ensures var c := 255 as char; !CallDefined(Permute, [c], Scan([], [], [['-', c]], ""))
  {
    var c := 255 as char;
    assert ['-', c][1..] == [c];
    assert IndexOf([c], c) == 0;
  }
}
