/** Option scanning as a function on values: what `getopt` computes. */
module OptionScan {
  import opened Bytes

  datatype Ordering = RequireOrder | Permute | ReturnInOrder

  /** The elements taken as options or their arguments, the operands skipped over, the elements not yet
      scanned, and what is left of the option element being scanned (the first of `rest`). */
  datatype Scan = Scan(opts: seq<string>, held: seq<string>, rest: seq<string>, next: string)

  /** One return of `getopt`: its value, `optarg`, and `optopt` if it was set. */
  datatype Outcome = Outcome(code: int, optarg: Option<string>, optopt: Option<char>)

  const FINISHED := Outcome(-1, None, None)

  /** An element without option syntax. */
  predicate NonOption(e: string) {
    |e| < 2 || e[0] != '-'
  }

  predicate ValidScan(s: Scan) {
    s.next != "" ==> s.rest != []
  }

  /** `my_index`: the first position of a character, or the length. */
  function IndexOf(s: string, c: char): (n: nat)
    ensures n <= |s| && (n < |s| ==> s[n] == c)
  {
    if s == "" || s[0] == c then 0 else 1 + IndexOf(s[1..], c)
  }

  datatype Kind = Invalid | Plain | Required | Optional

  /** How the option string describes a character. "W;" announces a long option as an argument; without long options
      it is left to the caller, as an argument of 'W'. */
  function KindOf(optstring: string, c: char): Kind {
    var n := IndexOf(optstring, c);
    if n == |optstring| || c == ':' then Invalid
    else if c == 'W' && n + 1 < |optstring| && optstring[n + 1] == ';' then Required
    else if n + 1 == |optstring| || optstring[n + 1] != ':' then Plain
    else if n + 2 == |optstring| || optstring[n + 2] != ':' then Required
    else Optional
  }

  function Missing(optstring: string, c: char): Outcome {
    Outcome(if optstring != "" && optstring[0] == ':' then ':' as int else '?' as int, None, Some(c))
  }

  /** Takes the first unscanned element as an option or an argument. */
  function Take(s: Scan): Scan
    requires s.rest != []
  {
    s.(opts := s.opts + [s.rest[0]], rest := s.rest[1..])
  }

  /** The next character of the current option element. */
  function Decode(optstring: string, s: Scan): (r: (Scan, Outcome))
    requires s.next != "" && s.rest != []
    ensures ValidScan(r.0) && r.1.code != -1
  {
    var c, tail := s.next[0], s.next[1..];
    var s' := (if tail == "" then Take(s) else s).(next := tail);
    match KindOf(optstring, c)
    case Invalid => (s', Outcome('?' as int, None, Some(c)))
    case Plain => (s', Outcome(c as int, None, None))
    case Optional =>
      if tail != "" then (Take(s').(next := ""), Outcome(c as int, Some(tail), None)) else (s', Outcome(c as int, None, None))
    case Required =>
      if tail != "" then (Take(s').(next := ""), Outcome(c as int, Some(tail), None))
      else if s'.rest == [] then (s', Missing(optstring, c))
      else (Take(s'), Outcome(c as int, Some(s'.rest[0]), None))
  }

  /** The number of operands at the front. */
  function Leading(rest: seq<string>): (n: nat)
    ensures n <= |rest|
    ensures n < |rest| ==> !NonOption(rest[n])
    ensures forall i :: 0 <= i < n ==> NonOption(rest[i])
  {
    if rest == [] || !NonOption(rest[0]) then 0 else 1 + Leading(rest[1..])
  }

  /** In the default mode, operands at the front are passed over. */
  function Skimmed(ordering: Ordering, s: Scan): Scan {
    var k := if ordering == Permute then Leading(s.rest) else 0;
    s.(held := s.held + s.rest[..k], rest := s.rest[k..])
  }

  /** What happens at the first element that was not passed over. */
  function Enter(ordering: Ordering, optstring: string, s: Scan): (r: (Scan, Outcome))
    requires s.next == ""
    ensures ValidScan(r.0)
    ensures r.1.code == -1 ==> r.1 == FINISHED
  {
    if s.rest == [] then (s, FINISHED)
    else if s.rest[0] == "--" then (Scan(s.opts + ["--"], s.held + s.rest[1..], [], ""), FINISHED)
    else if !NonOption(s.rest[0]) then Decode(optstring, s.(next := s.rest[0][1..]))
    else if ordering == RequireOrder then (s, FINISHED)
    else (Take(s), Outcome(1, Some(s.rest[0]), None))
  }

  /** One call of `getopt`. */
  function Step(ordering: Ordering, optstring: string, s: Scan): (r: (Scan, Outcome))
    requires ValidScan(s)
    ensures ValidScan(r.0)
    ensures r.1.code == -1 ==> r.1 == FINISHED
  {
    if s.next != "" then Decode(optstring, s) else Enter(ordering, optstring, Skimmed(ordering, s))
  }

  // ----- Runs -----

  function Weight(rest: seq<string>): nat {
    if rest == [] then 0 else |rest[0]| + 1 + Weight(rest[1..])
  }

  /** What is left to scan. */
  function Remaining(s: Scan): nat
    requires ValidScan(s)
  {
    if s.next != "" then |s.next| + Weight(s.rest[1..]) else Weight(s.rest)
  }

  lemma {:induction false} DecodeShrinks(optstring: string, s: Scan)
    requires s.next != "" && s.rest != []
    ensures Remaining(Decode(optstring, s).0) < Remaining(s)
  {
  }

  lemma {:induction false} WeightDrop(rest: seq<string>, k: nat)
    requires k <= |rest|
    ensures Weight(rest[k..]) <= Weight(rest)
  {
    if k > 0 {
      WeightDrop(rest[1..], k - 1);
      assert rest[1..][k - 1..] == rest[k..];
    } else {
      assert rest[0..] == rest;
    }
  }

  /** Repeated calls come to an end. */
  lemma {:induction false} StepShrinks(ordering: Ordering, optstring: string, s: Scan)
    requires ValidScan(s) && Step(ordering, optstring, s).1.code != -1
    ensures Remaining(Step(ordering, optstring, s).0) < Remaining(s)
  {
    if s.next != "" {
      DecodeShrinks(optstring, s);
    } else {
      var s' := Skimmed(ordering, s);
      WeightDrop(s.rest, if ordering == Permute then Leading(s.rest) else 0);
      if !NonOption(s'.rest[0]) {
        DecodeShrinks(optstring, s'.(next := s'.rest[0][1..]));
      }
    }
  }

  /** Calls until -1: the outcomes before it, and the final state. */
  function RunToEnd(ordering: Ordering, optstring: string, s: Scan): (r: (seq<Outcome>, Scan))
    requires ValidScan(s)
    decreases Remaining(s)
  {
    var (s', o) := Step(ordering, optstring, s);
    if o.code == -1 then ([], s') else
      StepShrinks(ordering, optstring, s);
      var (os, s'') := RunToEnd(ordering, optstring, s');
      ([o] + os, s'')
  }

  // ----- Reference: reading the elements left to right -----

  /** The outcomes of one option element's characters, and whether the element after it is used up as an argument. */
  function Cluster(optstring: string, chars: string, following: seq<string>): (r: (seq<Outcome>, bool))
    ensures r.1 ==> following != []
  {
    if chars == "" then ([], false) else
      var c, tail := chars[0], chars[1..];
      match KindOf(optstring, c)
      case Invalid => var (os, b) := Cluster(optstring, tail, following); ([Outcome('?' as int, None, Some(c))] + os, b)
      case Plain => var (os, b) := Cluster(optstring, tail, following); ([Outcome(c as int, None, None)] + os, b)
      case Optional => ([Outcome(c as int, if tail == "" then None else Some(tail), None)], false)
      case Required =>
        if tail != "" then ([Outcome(c as int, Some(tail), None)], false)
        else if following == [] then ([Missing(optstring, c)], false)
        else ([Outcome(c as int, Some(following[0]), None)], true)
  }

  /** How many elements the option element at the front takes, with its argument. */
  function Span(optstring: string, args: seq<string>): (n: nat)
    requires args != [] && !NonOption(args[0])
    ensures 1 <= n <= |args| && n <= 2
  {
    if Cluster(optstring, args[0][1..], args[1..]).1 then 2 else 1
  }

  /** Which elements are options, arguments of options or the first "--"; the others are operands. */
  function Marks(optstring: string, args: seq<string>): (m: seq<bool>)
    ensures |m| == |args|
  {
    if args == [] then []
    else if NonOption(args[0]) then [false] + Marks(optstring, args[1..])
    else if args[0] == "--" then [true] + seq(|args| - 1, _ => false)
    else if Span(optstring, args) == 2 then [true, true] + Marks(optstring, args[2..])
    else [true] + Marks(optstring, args[1..])
  }

  /** The outcomes of all option elements. */
  function Results(optstring: string, args: seq<string>): seq<Outcome> {
    if args == [] then []
    else if NonOption(args[0]) then Results(optstring, args[1..])
    else if args[0] == "--" then []
    else Cluster(optstring, args[0][1..], args[1..]).0 + Results(optstring, args[Span(optstring, args)..])
  }

  /** The elements with the given mark, in order. */
  function Select<T>(args: seq<T>, marks: seq<bool>, mark: bool): seq<T>
    requires |marks| == |args|
  {
    if args == [] then [] else (if marks[0] == mark then [args[0]] else []) + Select(args[1..], marks[1..], mark)
  }

  /** One decoded character is the first outcome of its element, and leaves the rest of it or uses it up, with its
      argument if it has one. */
  lemma {:induction false} DecodeCluster(optstring: string, s: Scan)
    requires s.next != "" && s.rest != []
    ensures var (s', o) := Decode(optstring, s);
            var cluster := Cluster(optstring, s.next, s.rest[1..]);
            && s'.held == s.held
            && if s'.next != "" then
                 && s'.rest == s.rest && s'.opts == s.opts
                 && cluster == ([o] + Cluster(optstring, s'.next, s.rest[1..]).0, Cluster(optstring, s'.next, s.rest[1..]).1)
               else
                 && cluster.0 == [o] && s'.rest == s.rest[if cluster.1 then 2 else 1..]
                 && s'.opts == s.opts + s.rest[..if cluster.1 then 2 else 1]
  {
    hide KindOf, Missing;
    var s' := Decode(optstring, s).0;
    var tail := s.next[1..];
    assert s.rest[..1] == [s.rest[0]];
    if |s.rest| - |s'.rest| == 2 {
      assert s.rest[..2] == [s.rest[0]] + [s.rest[1]];
      Assoc(s.opts, [s.rest[0]], [s.rest[1]]);
    } else {
      assert tail == "" ==> Cluster(optstring, tail, s.rest[1..]) == ([], false);
    }
  }

  // ----- A run partitions the elements -----

  /** Where a run from `s` must end. */
  function Partitioned(optstring: string, s: Scan): (seq<Outcome>, Scan)
    requires ValidScan(s)
  {
    if s.next != "" then
      var (os, b) := Cluster(optstring, s.next, s.rest[1..]);
      var n := if b then 2 else 1;
      var rest := s.rest[n..];
      (os + Results(optstring, rest),
       Scan(s.opts + s.rest[..n] + Select(rest, Marks(optstring, rest), true),
            s.held + Select(rest, Marks(optstring, rest), false), [], ""))
    else
      (Results(optstring, s.rest),
       Scan(s.opts + Select(s.rest, Marks(optstring, s.rest), true),
            s.held + Select(s.rest, Marks(optstring, s.rest), false), [], ""))
  }

  lemma {:induction false} SelectCons<T>(a: T, args: seq<T>, m: bool, marks: seq<bool>, mark: bool)
    requires |marks| == |args|
    ensures Select([a] + args, [m] + marks, mark) == (if m == mark then [a] else []) + Select(args, marks, mark)
  {
    assert ([a] + args)[1..] == args && ([m] + marks)[1..] == marks;
  }

  /** When all marks are equal, one selection is everything and the other nothing. */
  lemma {:induction false} SelectUniform<T>(args: seq<T>, marks: seq<bool>, m: bool)
    requires |marks| == |args| && forall i :: 0 <= i < |marks| ==> marks[i] == m
    ensures Select(args, marks, m) == args && Select(args, marks, !m) == []
  {
    if args != [] {
      SelectUniform(args[1..], marks[1..], m);
      assert args == [args[0]] + args[1..];
    }
  }

  /** An operand at the front. */
  lemma {:induction false} FrontOperand(optstring: string, rest: seq<string>)
    requires rest != [] && NonOption(rest[0])
    ensures var m, m' := Marks(optstring, rest), Marks(optstring, rest[1..]);
            && Select(rest, m, true) == Select(rest[1..], m', true)
            && Select(rest, m, false) == [rest[0]] + Select(rest[1..], m', false)
            && Results(optstring, rest) == Results(optstring, rest[1..])
  {
    var m' := Marks(optstring, rest[1..]);
    assert rest == [rest[0]] + rest[1..];
    SelectCons(rest[0], rest[1..], false, m', true);
    SelectCons(rest[0], rest[1..], false, m', false);
  }

  /** An option element at the front, taken with its argument if it has one. */
  lemma {:induction false} FrontOption(optstring: string, rest: seq<string>)
    requires rest != [] && !NonOption(rest[0]) && rest[0] != "--"
    ensures var n := Span(optstring, rest);
            var m, m' := Marks(optstring, rest), Marks(optstring, rest[n..]);
            && Select(rest, m, true) == rest[..n] + Select(rest[n..], m', true)
            && Select(rest, m, false) == Select(rest[n..], m', false)
  {
    var n := Span(optstring, rest);
    var m' := Marks(optstring, rest[n..]);
    hide Marks, Span, Results, Cluster;
    FrontMarks(optstring, rest);
    if n == 2 {
      var t := [rest[1]] + rest[2..];
      assert rest == [rest[0]] + t && [true, true] + m' == [true] + ([true] + m');
      SelectCons(rest[0], t, true, [true] + m', true);
      SelectCons(rest[0], t, true, [true] + m', false);
      SelectCons(rest[1], rest[2..], true, m', true);
      SelectCons(rest[1], rest[2..], true, m', false);
    } else {
      assert rest == [rest[0]] + rest[1..];
      SelectCons(rest[0], rest[1..], true, m', true);
      SelectCons(rest[0], rest[1..], true, m', false);
    }
  }

  lemma {:induction false} FrontMarks(optstring: string, rest: seq<string>)
    requires rest != [] && !NonOption(rest[0]) && rest[0] != "--"
    ensures var n := Span(optstring, rest);
            Marks(optstring, rest) == (if n == 2 then [true, true] else [true]) + Marks(optstring, rest[n..])
  {
    hide Span;
  }

  lemma {:induction false} SkimPartitions(optstring: string, s: Scan, k: nat)
    requires s.next == "" && k <= |s.rest| && forall i :: 0 <= i < k ==> NonOption(s.rest[i])
    ensures Partitioned(optstring, s) == Partitioned(optstring, s.(held := s.held + s.rest[..k], rest := s.rest[k..]))
    decreases k
  {
    if k == 0 {
      assert s.held + s.rest[..0] == s.held && s.rest[0..] == s.rest;
    } else {
      var s' := s.(held := s.held + [s.rest[0]], rest := s.rest[1..]);
      SkimPartitions(optstring, s', k - 1);
      FrontOperand(optstring, s.rest);
      hide Marks, Results, Select;
      assert s'.rest[k - 1..] == s.rest[k..];
      assert s'.held + s'.rest[..k - 1] == s.held + s.rest[..k];
      Assoc(s.held, [s.rest[0]], Select(s'.rest, Marks(optstring, s'.rest), false));
    }
  }

  lemma {:induction false} StopPartitions(optstring: string, s: Scan)
    requires s.next == "" && s.rest != [] && s.rest[0] == "--"
    ensures Partitioned(optstring, s) == ([], Scan(s.opts + ["--"], s.held + s.rest[1..], [], ""))
  {
    var t := seq(|s.rest| - 1, _ => false);
    assert s.rest == ["--"] + s.rest[1..];
    SelectCons("--", s.rest[1..], true, t, true);
    SelectCons("--", s.rest[1..], true, t, false);
    SelectUniform(s.rest[1..], t, false);
    hide Select;
    assert Marks(optstring, s.rest) == [true] + t;
    assert ["--"] + [] == ["--"] && [] + s.rest[1..] == s.rest[1..];
  }

  lemma {:induction false} EnterPartitions(optstring: string, s: Scan)
    requires s.next == "" && s.rest != [] && !NonOption(s.rest[0]) && s.rest[0] != "--"
    ensures Partitioned(optstring, s) == Partitioned(optstring, s.(next := s.rest[0][1..]))
  {
    FrontOption(optstring, s.rest);
    hide Marks, Select, Cluster;
    var n := Span(optstring, s.rest);
    Assoc(s.opts, s.rest[..n], Select(s.rest[n..], Marks(optstring, s.rest[n..]), true));
  }

  /** How the rest of the run follows one decoded character. */
  lemma {:induction false} DecodePartitions(optstring: string, s: Scan)
    requires s.next != "" && s.rest != []
    ensures var (s', o) := Decode(optstring, s);
            Partitioned(optstring, s) == ([o] + Partitioned(optstring, s').0, Partitioned(optstring, s').1)
  {
    hide Marks, Results, Select, Decode, Cluster;
    DecodeCluster(optstring, s);
    var (s', o) := Decode(optstring, s);
    if s'.next != "" {
      var c := Cluster(optstring, s'.next, s.rest[1..]);
      Assoc([o], c.0, Results(optstring, s.rest[if c.1 then 2 else 1..]));
    }
  }

  /** Whatever the interleaving of options and operands, a run in the default mode ends with the options and
      their arguments before the operands, each in the original order, and returns what reading the
      elements left to right would. */
  lemma {:induction false} RunPartitions(optstring: string, s: Scan)
    requires ValidScan(s)
    ensures RunToEnd(Permute, optstring, s) == Partitioned(optstring, s)
    decreases Remaining(s)
  {
    hide Partitioned, Decode, Remaining;
    var (s', o) := Step(Permute, optstring, s);
    if s.next != "" {
      DecodePartitions(optstring, s);
      StepShrinks(Permute, optstring, s);
      RunPartitions(optstring, s');
    } else {
      var t := Skimmed(Permute, s);
      SkimPartitions(optstring, s, Leading(s.rest));
      if t.rest == [] {
        NothingLeft(optstring, t);
      } else if t.rest[0] == "--" {
        StopPartitions(optstring, t);
      } else {
        EnterPartitions(optstring, t);
        DecodePartitions(optstring, t.(next := t.rest[0][1..]));
        StepShrinks(Permute, optstring, s);
        RunPartitions(optstring, s');
      }
    }
  }

  lemma {:induction false} NothingLeft(optstring: string, s: Scan)
    requires s.next == "" && s.rest == []
    ensures Partitioned(optstring, s) == ([], s)
  {
    assert s.opts + [] == s.opts && s.held + [] == s.held;
  }

  /** The two selections hold all elements between them. */
  lemma {:induction false} SelectionsCover(args: seq<string>, marks: seq<bool>)
    requires |marks| == |args|
    ensures multiset(Select(args, marks, true)) + multiset(Select(args, marks, false)) == multiset(args)
  {
    if args != [] {
      SelectionsCover(args[1..], marks[1..]);
      var m := marks[0];
      assert args == [args[0]] + args[1..];
      assert Select(args, marks, m) == [args[0]] + Select(args[1..], marks[1..], m);
      assert Select(args, marks, !m) == Select(args[1..], marks[1..], !m);
    }
  }

  // ----- Runs without permutation -----

  /** Reading the elements in place: what is returned, and how many elements are used. */
  function Reads(ordering: Ordering, optstring: string, args: seq<string>): (r: (seq<Outcome>, nat))
    ensures r.1 <= |args|
  {
    if args == [] then ([], 0)
    else if args[0] == "--" then ([], 1)
    else if NonOption(args[0]) then
      if ordering == RequireOrder then ([], 0) else
        var (os, n) := Reads(ordering, optstring, args[1..]);
        ([Outcome(1, Some(args[0]), None)] + os, n + 1)
    else
      var k := Span(optstring, args);
      var (os, n) := Reads(ordering, optstring, args[k..]);
      (Cluster(optstring, args[0][1..], args[1..]).0 + os, k + n)
  }

  /** The same from the middle of an option element. */
  function ReadOn(ordering: Ordering, optstring: string, s: Scan): (r: (seq<Outcome>, nat))
    requires ValidScan(s)
    ensures r.1 <= |s.rest|
  {
    if s.next == "" then Reads(ordering, optstring, s.rest) else
      var (cluster, b) := Cluster(optstring, s.next, s.rest[1..]);
      var k := if b then 2 else 1;
      var (os, n) := Reads(ordering, optstring, s.rest[k..]);
      (cluster + os, k + n)
  }

  /** One outcome, and the elements used for it. */
  predicate Advances(ordering: Ordering, optstring: string, s: Scan, s': Scan, o: Outcome)
    requires ValidScan(s) && ValidScan(s')
  {
    var k := |s.rest| - |s'.rest|;
    && 0 <= k <= |s.rest| && s'.opts == s.opts + s.rest[..k] && s'.rest == s.rest[k..] && s'.held == s.held
    && ReadOn(ordering, optstring, s) == ([o] + ReadOn(ordering, optstring, s').0, k + ReadOn(ordering, optstring, s').1)
  }

  lemma {:induction false} DecodeReads(ordering: Ordering, optstring: string, s: Scan)
    requires s.next != "" && s.rest != []
    ensures Advances(ordering, optstring, s, Decode(optstring, s).0, Decode(optstring, s).1)
  {
    hide Reads, Decode, Cluster;
    DecodeCluster(optstring, s);
    var (s', o) := Decode(optstring, s);
    if s'.next != "" {
      var c := Cluster(optstring, s'.next, s.rest[1..]);
      Assoc([o], c.0, Reads(ordering, optstring, s.rest[if c.1 then 2 else 1..]).0);
      assert s.opts + s.rest[..0] == s.opts && s.rest[0..] == s.rest;
    }
  }

  lemma {:induction false} EnterReads(ordering: Ordering, optstring: string, s: Scan)
    requires s.next == "" && s.rest != [] && !NonOption(s.rest[0]) && s.rest[0] != "--"
    ensures ReadOn(ordering, optstring, s) == ReadOn(ordering, optstring, s.(next := s.rest[0][1..]))
  {
    hide Cluster;
  }

  lemma {:induction false} OperandReads(optstring: string, s: Scan)
    requires s.next == "" && s.rest != [] && NonOption(s.rest[0])
    ensures Advances(ReturnInOrder, optstring, s, Take(s), Outcome(1, Some(s.rest[0]), None))
  {
    hide Cluster;
    assert s.rest[..1] == [s.rest[0]];
  }

  /** What a run from `s` has done when it used `n` elements. */
  predicate Used(s: Scan, n: nat, end: Scan) {
    n <= |s.rest| && end.opts == s.opts + s.rest[..n] && end.held + end.rest == s.rest[n..] && end.next == ""
  }

  lemma {:induction false} UsedMore(s: Scan, k: nat, s': Scan, n: nat, end: Scan)
    requires k <= |s.rest| && s'.opts == s.opts + s.rest[..k] && s'.rest == s.rest[k..] && Used(s', n, end)
    ensures Used(s, k + n, end)
  {
    Assoc(s.opts, s.rest[..k], s'.rest[..n]);
    assert s.rest[..k] + s'.rest[..n] == s.rest[..k + n] && s'.rest[n..] == s.rest[k + n..];
  }

  /** Without permutation a run returns what reading in place does and leaves every element where it is. */
  lemma {:induction false} RunInOrder(ordering: Ordering, optstring: string, s: Scan)
    requires ValidScan(s) && ordering != Permute && s.held == []
    ensures var (os, n) := ReadOn(ordering, optstring, s);
            RunToEnd(ordering, optstring, s).0 == os && Used(s, n, RunToEnd(ordering, optstring, s).1)
    decreases Remaining(s)
  {
    hide Decode, Remaining, Reads, Used, Skimmed, ReadOn;
    var (s', o) := Step(ordering, optstring, s);
    NothingSkimmed(ordering, s);
    if o.code == -1 {
      InOrderEnds(ordering, optstring, s);
    } else {
      InOrderStep(ordering, optstring, s);
      StepShrinks(ordering, optstring, s);
      RunInOrder(ordering, optstring, s');
      UsedMore(s, |s.rest| - |s'.rest|, s', ReadOn(ordering, optstring, s').1, RunToEnd(ordering, optstring, s').1);
    }
  }

  lemma {:induction false} NothingSkimmed(ordering: Ordering, s: Scan)
    requires ordering != Permute
    ensures Skimmed(ordering, s) == s
  {
    assert s.held + s.rest[..0] == s.held && s.rest[0..] == s.rest;
  }

  lemma {:induction false} InOrderEnds(ordering: Ordering, optstring: string, s: Scan)
    requires ValidScan(s) && ordering != Permute && s.held == [] && Step(ordering, optstring, s).1.code == -1
    ensures var (os, n) := ReadOn(ordering, optstring, s); os == [] && Used(s, n, Step(ordering, optstring, s).0)
  {
    hide Decode, Skimmed;
    NothingSkimmed(ordering, s);
    assert s.rest != [] ==> s.rest[..1] == [s.rest[0]];
    assert [] + s.rest == s.rest && s.opts + s.rest[..0] == s.opts && s.rest[0..] == s.rest;
    assert s.rest != [] ==> [] + s.rest[1..] + [] == s.rest[1..];
  }

  lemma {:induction false} InOrderStep(ordering: Ordering, optstring: string, s: Scan)
    requires ValidScan(s) && ordering != Permute && s.held == [] && Step(ordering, optstring, s).1.code != -1
    ensures Advances(ordering, optstring, s, Step(ordering, optstring, s).0, Step(ordering, optstring, s).1)
  {
    hide Decode, Skimmed, ReadOn;
    NothingSkimmed(ordering, s);
    if s.next != "" {
      DecodeReads(ordering, optstring, s);
    } else if !NonOption(s.rest[0]) {
      EnterReads(ordering, optstring, s);
      DecodeReads(ordering, optstring, s.(next := s.rest[0][1..]));
    } else {
      OperandReads(optstring, s);
    }
  }

  lemma {:induction false} Advanced(ordering: Ordering, optstring: string, s: Scan, s': Scan, o: Outcome) returns (k: nat)
    requires ValidScan(s) && ValidScan(s') && Advances(ordering, optstring, s, s', o)
    ensures k <= |s.rest| && k == |s.rest| - |s'.rest|
    ensures s'.opts == s.opts + s.rest[..k] && s'.rest == s.rest[k..] && s'.held == s.held
  {
    k := |s.rest| - |s'.rest|;
  }

  lemma {:induction false} SameOrder(s: Scan, n: nat, end: Scan)
    requires n <= |s.rest| && end.opts == s.opts + s.rest[..n] && end.held + end.rest == s.rest[n..]
    ensures end.opts + end.held + end.rest == s.opts + s.rest
  {
    SliceJoin(s.rest, n);
    Assoc(s.opts, s.rest[..n], s.rest[n..]);
    Assoc(end.opts, end.held, end.rest);
  }

  /** Every call leaves the elements where they are. */
  lemma {:induction false} OrderKept(ordering: Ordering, optstring: string, s: Scan)
    requires ValidScan(s) && s.held == [] && ordering != Permute
    ensures var (s', o) := Step(ordering, optstring, s);
            s'.opts + s'.held + s'.rest == s.opts + s.rest && (o.code != -1 ==> s'.held == [])
  {
    hide Step, ReadOn, Advances;
    var (s', o) := Step(ordering, optstring, s);
    if o.code == -1 {
      InOrderEnds(ordering, optstring, s);
      SameOrder(s, ReadOn(ordering, optstring, s).1, s');
    } else {
      InOrderStep(ordering, optstring, s);
      var k := Advanced(ordering, optstring, s, s', o);
      assert s'.held + s'.rest == s'.rest;
      SameOrder(s, k, s');
    }
  }
}
