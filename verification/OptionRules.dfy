/** What an option string means for the calls, character by character, without looking anything up. */
module OptionRules {
  import opened Bytes
  import opened OptionScan
  import opened OptionPrefix

  /** The scan after taking `n` more elements, with `next` left of the one after them. */
  function Taken(s: Scan, n: nat, next: string): Scan
    requires n <= |s.rest|
  {
    Scan(s.opts + s.rest[..n], s.held, s.rest[n..], next)
  }

  /** The next call reads the option character `c`, which is followed by `tail` in its element. */
  predicate AtOption(s: Scan, c: char, tail: string) {
    s.rest != [] && (s.next == [c] + tail || (s.next == "" && s.rest[0] == ['-', c] + tail && s.rest[0] != "--"))
  }

  lemma {:induction false} OptionDecoded(ordering: Ordering, optstring: string, s: Scan, c: char, tail: string)
    requires ValidScan(s) && AtOption(s, c, tail)
    ensures Step(ordering, optstring, s) == Decode(optstring, s.(next := [c] + tail))
    ensures ([c] + tail)[0] == c && ([c] + tail)[1..] == tail
  {
    hide Decode;
    if s.next == "" {
      assert s.rest[0][1..] == [c] + tail;
      assert s.held + s.rest[..0] == s.held && s.rest[0..] == s.rest;
    }
  }

  lemma {:induction false} TakenOnce(s: Scan)
    requires s.rest != []
    ensures Take(s) == Taken(s, 1, s.next)
    ensures Taken(s, 0, s.next) == s
    ensures |s.rest| > 1 ==> Take(Take(s)) == Taken(s, 2, s.next)
  {
    assert s.rest[..1] == [s.rest[0]];
    if |s.rest| > 1 {
      assert s.rest[..2] == [s.rest[0]] + [s.rest[1]];
      Assoc(s.opts, [s.rest[0]], [s.rest[1]]);
      assert s.rest[1..][0] == s.rest[1] && s.rest[1..][1..] == s.rest[2..];
    }
  }

  lemma {:induction false} IndexSkips(pre: string, c: char, post: string)
    requires c !in pre
    ensures IndexOf(pre + [c] + post, c) == |pre|
  {
    if pre != "" {
      IndexSkips(pre[1..], c, post);
      assert (pre + [c] + post)[1..] == pre[1..] + [c] + post;
    }
  }

  lemma {:induction false} IndexMissing(s: string, c: char)
    ensures c !in s ==> IndexOf(s, c) == |s|
  {
    if s != "" {
      IndexMissing(s[1..], c);
    }
  }

  /** What is written behind a character in the option string. */
  lemma {:induction false} Behind(pre: string, c: char, post: string)
    requires c !in pre
    ensures var optstring, n := pre + [c] + post, |pre|;
            && IndexOf(optstring, c) == n < |optstring| == n + 1 + |post|
            && (|post| > 0 ==> optstring[n + 1] == post[0]) && (|post| > 1 ==> optstring[n + 2] == post[1])
  {
    IndexSkips(pre, c, post);
  }

  // ----- Option characters -----

  /** A character of the option string that no ':' follows takes no argument; the next element stays. */
  lemma {:induction false} PlainOption(ordering: Ordering, pre: string, c: char, post: string, s: Scan, tail: string)
    requires c !in pre && c != ':' && (post == "" || (post[0] != ':' && !(c == 'W' && post[0] == ';')))
    requires ValidScan(s) && AtOption(s, c, tail)
    ensures Step(ordering, pre + [c] + post, s)
            == (if tail == "" then Taken(s, 1, "") else Taken(s, 0, tail), Outcome(c as int, None, None))
  {
    hide IndexOf, Step;
    Behind(pre, c, post);
    OptionDecoded(ordering, pre + [c] + post, s, c, tail);
    TakenOnce(s);
    hide AtOption;
  }

  /** With one ':' behind it, it takes the rest of its element, or all of the next one; without either it is an error. */
  lemma {:induction false} RequiredArgument(ordering: Ordering, pre: string, c: char, post: string, s: Scan, tail: string)
    requires c !in pre && c != ':' && post != "" && (post[0] == ':' || (c == 'W' && post[0] == ';'))
    requires post[0] == ':' && |post| > 1 ==> post[1] != ':'
    requires ValidScan(s) && AtOption(s, c, tail)
    ensures var optstring := pre + [c] + post;
            Step(ordering, optstring, s)
            == if tail != "" then (Taken(s, 1, ""), Outcome(c as int, Some(tail), None))
               else if |s.rest| > 1 then (Taken(s, 2, ""), Outcome(c as int, Some(s.rest[1]), None))
               else (Taken(s, 1, ""), Outcome(if optstring[0] == ':' then ':' as int else '?' as int, None, Some(c)))
  {
    hide IndexOf, Step;
    Behind(pre, c, post);
    OptionDecoded(ordering, pre + [c] + post, s, c, tail);
    TakenOnce(s);
    hide AtOption;
  }

  /** With "::" behind it, it takes the rest of its element if there is any; the next element stays. */
  lemma {:induction false} OptionalArgument(ordering: Ordering, pre: string, c: char, post: string, s: Scan, tail: string)
    requires c !in pre && c != ':' && |post| > 1 && post[0] == post[1] == ':'
    requires ValidScan(s) && AtOption(s, c, tail)
    ensures Step(ordering, pre + [c] + post, s)
            == (Taken(s, 1, ""), Outcome(c as int, if tail == "" then None else Some(tail), None))
  {
    hide IndexOf, Step;
    Behind(pre, c, post);
    OptionDecoded(ordering, pre + [c] + post, s, c, tail);
    TakenOnce(s);
    hide AtOption;
  }

  /** A character that the option string does not have, and ':', is an error. */
  lemma {:induction false} UnknownOption(ordering: Ordering, optstring: string, c: char, s: Scan, tail: string)
    requires c !in optstring || c == ':'
    requires ValidScan(s) && AtOption(s, c, tail)
    ensures Step(ordering, optstring, s)
            == (if tail == "" then Taken(s, 1, "") else Taken(s, 0, tail), Outcome('?' as int, None, Some(c)))
  {
    hide IndexOf, Step;
    IndexMissing(optstring, c);
    OptionDecoded(ordering, optstring, s, c, tail);
    TakenOnce(s);
    hide AtOption;
  }

  // ----- Operands -----

  /** An element that no '-' begins, and "-" itself. */
  predicate Operand(e: string) {
    e == "" || e == "-" || e[0] != '-'
  }

  lemma OperandIsNonOption(e: string)
    ensures Operand(e) == NonOption(e)
  {
  }

  lemma {:induction false} OperandHeld(seen: string, s: Scan)
    requires ValidScan(s) && s.next == "" && s.rest != [] && Operand(s.rest[0])
    ensures Step(Permute, seen, s) == Step(Permute, seen, Scan(s.opts, s.held + [s.rest[0]], s.rest[1..], ""))
  {
    hide Enter;
    var k := Leading(s.rest[1..]);
    OperandIsNonOption(s.rest[0]);
    assert Leading(s.rest) == 1 + k;
    assert s.rest[..1 + k] == [s.rest[0]] + s.rest[1..][..k] && s.rest[1 + k..] == s.rest[1..][k..];
    Assoc(s.held, [s.rest[0]], s.rest[1..][..k]);
  }

  /** An operand that a scan comes to, with any option string: under '-' it is returned, as the argument of an option
      with code 1; under '+', or if POSIXLY_CORRECT is set, it ends the scan and stays; otherwise it is passed over. */
  lemma {:induction false} OperandMet(optstring: string, posixlyCorrect: bool, seen: string, s: Scan)
    requires ValidScan(s) && s.next == "" && s.rest != [] && Operand(s.rest[0])
    ensures var ordering := OrderingOf(optstring, posixlyCorrect);
            Step(ordering, seen, s)
            == if optstring != "" && optstring[0] == '-' then (Taken(s, 1, ""), Outcome(1, Some(s.rest[0]), None))
               else if (optstring != "" && optstring[0] == '+') || posixlyCorrect then (s, Outcome(-1, None, None))
               else Step(ordering, seen, Scan(s.opts, s.held + [s.rest[0]], s.rest[1..], ""))
  {
    hide Leading, Decode;
    OperandIsNonOption(s.rest[0]);
    if OrderingOf(optstring, posixlyCorrect) == Permute {
      hide Step;
      OperandHeld(seen, s);
    } else {
      NothingSkimmed(OrderingOf(optstring, posixlyCorrect), s);
      TakenOnce(s);
    }
  }

  /** The same of a caller's loop whose first element is an operand. Passing it over changes nothing but that it is the
      first operand in the end. */
  lemma {:induction false} FirstOperand(optstring: string, posixlyCorrect: bool, args: seq<string>)
    requires args != [] && Operand(args[0])
    ensures var ordering := OrderingOf(optstring, posixlyCorrect);
            var (os, end) := Calls(ordering, optstring, Scan([], [], args, ""));
            var (os', end') := Calls(ordering, optstring, Scan([], [], args[1..], ""));
            if optstring != "" && optstring[0] == '-' then
              os != [] && os[0] == Outcome(1, Some(args[0]), None)
            else if (optstring != "" && optstring[0] == '+') || posixlyCorrect then
              os == [] && end == Scan([], [], args, "")
            else
              os == os' && end == Scan(end'.opts, [args[0]] + end'.held, [], "")
  {
    hide Step, RunToEnd;
    OperandMet(optstring, posixlyCorrect, Stripped(optstring), Scan([], [], args, ""));
    if !Prefixed(optstring) && !posixlyCorrect {
      hide Calls, Marks, Results, Select;
      OperandIsNonOption(args[0]);
      CallsPermuting(optstring, Scan([], [], args, ""));
      CallsPermuting(optstring, Scan([], [], args[1..], ""));
      FrontOperand(optstring, args);
    }
  }

  // ----- The end of the options, and the first call -----

  /** "--" ends the scan in every ordering; it goes with the options, and what follows it, whatever it looks like, with the
      operands. */
  lemma {:induction false} MarkMet(ordering: Ordering, optstring: string, s: Scan)
    requires ValidScan(s) && s.next == "" && s.rest != [] && s.rest[0] == "--"
    ensures Step(ordering, optstring, s) == (Scan(s.opts + ["--"], s.held + s.rest[1..], [], ""), Outcome(-1, None, None))
  {
    assert Leading(s.rest) == 0;
    assert s.held + s.rest[..0] == s.held && s.rest[0..] == s.rest;
  }

  /** The first call of a caller's loop reads the option string without a leading '-' or '+', the others read all of it. */
  lemma {:induction false} FirstCall(ordering: Ordering, p: char, rest: string, s: Scan)
    requires (p == '-' || p == '+') && ValidScan(s)
    ensures var (s', o) := Step(ordering, rest, s);
            var (os, end) := Calls(ordering, [p] + rest, s);
            if o.code == -1 then os == [] && end == s'
            else os != [] && os[0] == o && (os[1..], end) == RunToEnd(ordering, [p] + rest, s')
  {
    hide Step, RunToEnd;
    assert ([p] + rest)[1..] == rest;
  }

  /** Without such a character all calls read all of it. */
  lemma {:induction false} NoPrefixCalls(ordering: Ordering, optstring: string, s: Scan)
    requires (optstring == "" || (optstring[0] != '-' && optstring[0] != '+')) && ValidScan(s)
    ensures Calls(ordering, optstring, s) == RunToEnd(ordering, optstring, s)
  {
    hide Step, RunToEnd;
    CallsAlike(ordering, optstring, s);
  }
}
