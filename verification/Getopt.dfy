/** `getopt`: the object is the unit's static state, with argv permuted in place. */
module Getopt {
  import opened Bytes
  import opened OptionScan
  import opened OptionPrefix
  import opened OptionFaults

  // ----- Exchanging two adjacent blocks -----

  function Swapped<T>(s: seq<T>, i: nat, j: nat, n: nat): seq<T>
    requires i + n <= j && j + n <= |s|
  {
    s[..i] + s[j..j + n] + s[i + n..j] + s[i..i + n] + s[j + n..]
  }

  /** Where position `x` gets its element from, once `k` pairs of the blocks at `i` and `j` have been swapped. */
  function From(i: nat, j: nat, k: nat, x: nat): nat {
    if i <= x < i + k then x - i + j else if j <= x < j + k then x - j + i else x
  }

  lemma {:induction false} SwappedFrom<T>(s: seq<T>, s': seq<T>, i: nat, j: nat, n: nat)
    requires i + n <= j && j + n <= |s| == |s'| && forall x :: 0 <= x < |s| ==> s'[x] == s[From(i, j, n, x)]
    ensures s' == Swapped(s, i, j, n)
  {
  }

  /** Swaps two disjoint blocks of the same length. */
  method SwapBlocks<T>(a: array<T>, i: nat, j: nat, n: nat)
    requires i + n <= j && j + n <= a.Length
    modifies a
    ensures a[..] == Swapped(old(a[..]), i, j, n)
  {
    ghost var s := a[..];
    for k := 0 to n
      invariant forall x :: 0 <= x < a.Length ==> a[x] == s[From(i, j, k, x)]
    {
      a[i + k], a[j + k] := a[j + k], a[i + k];
    }
    SwappedFrom(s, a[..], i, j, n);
  }

  /** What is still to be exchanged: the two parts of `s[bottom..top]`, in the other order, make up `t[bottom..top]`. */
  predicate ToExchange<T(==)>(s: seq<T>, t: seq<T>, bottom: nat, middle: nat, top: nat) {
    && bottom <= middle <= top <= |s| == |t|
    && s[..bottom] == t[..bottom] && s[top..] == t[top..]
    && s[middle..top] + s[bottom..middle] == t[bottom..top]
  }

  lemma {:induction false} Parts<T>(t: seq<T>, i: nat, j: nat, k: nat, x: seq<T>, y: seq<T>)
    requires i <= j <= k <= |t| && t[i..k] == x + y && |x| == j - i
    ensures t[i..j] == x && t[j..k] == y
  {
    assert t[i..j] == t[i..k][..j - i] && t[j..k] == t[i..k][j - i..];
  }

  lemma {:induction false} Extend<T>(s: seq<T>, t: seq<T>, i: nat, j: nat)
    requires i <= j <= |s| == |t| && s[i..j] == t[i..j]
    ensures s[..i] == t[..i] ==> s[..j] == t[..j]
    ensures s[j..] == t[j..] ==> s[i..] == t[i..]
  {
    assert s[..j] == s[..i] + s[i..j] && t[..j] == t[..i] + t[i..j];
    assert s[i..] == s[i..j] + s[j..] && t[i..] == t[i..j] + t[j..];
  }

  lemma {:induction false} SwappedParts<T>(s: seq<T>, i: nat, j: nat, n: nat)
    requires i + n <= j && j + n <= |s|
    ensures var s' := Swapped(s, i, j, n);
            && |s'| == |s| && s'[..i] == s[..i] && s'[i..i + n] == s[j..j + n] && s'[i + n..j] == s[i + n..j]
            && s'[j..j + n] == s[i..i + n] && s'[j + n..] == s[j + n..]
  {
  }

  /** The short bottom block goes to the top. */
  lemma {:induction false} BottomDone<T>(s: seq<T>, t: seq<T>, bottom: nat, middle: nat, top: nat)
    requires ToExchange(s, t, bottom, middle, top) && top - middle > middle - bottom
    ensures var n := middle - bottom; ToExchange(Swapped(s, bottom, top - n, n), t, bottom, middle, top - n)
  {
    hide Swapped;
    var n := middle - bottom;
    var top' := top - n;
    var s' := Swapped(s, bottom, top', n);
    SwappedParts(s, bottom, top', n);
    assert s[middle..top] == s[middle..top'] + s[top'..top];
    Assoc(s[middle..top'], s[top'..top], s[bottom..middle]);
    Parts(t, bottom, top', top, s[middle..top'] + s[top'..top], s[bottom..middle]);
    Extend(s', t, top', top);
  }

  /** The short top block goes to the bottom. */
  lemma {:induction false} TopDone<T>(s: seq<T>, t: seq<T>, bottom: nat, middle: nat, top: nat)
    requires ToExchange(s, t, bottom, middle, top) && top - middle <= middle - bottom
    ensures var n := top - middle; ToExchange(Swapped(s, bottom, middle, n), t, bottom + n, middle, top)
  {
    hide Swapped;
    var n := top - middle;
    var bottom' := bottom + n;
    var s' := Swapped(s, bottom, middle, n);
    SwappedParts(s, bottom, middle, n);
    assert s[bottom..middle] == s[bottom..bottom'] + s[bottom'..middle];
    Parts(t, bottom, bottom', top, s[middle..top], s[bottom..middle]);
    Extend(s', t, bottom, bottom');
  }

  lemma {:induction false} ExchangeDone<T>(s: seq<T>, t: seq<T>, bottom: nat, middle: nat, top: nat)
    requires ToExchange(s, t, bottom, middle, top) && (bottom == middle || middle == top)
    ensures s == t
  {
    Extend(s, t, bottom, top);
    Extend(s, t, top, |s|);
  }

  function Exchanged<T>(s: seq<T>, bottom: nat, middle: nat, top: nat): seq<T>
    requires bottom <= middle <= top <= |s|
  {
    s[..bottom] + s[middle..top] + s[bottom..middle] + s[top..]
  }

  lemma {:induction false} ExchangeStart<T>(s: seq<T>, bottom: nat, middle: nat, top: nat)
    requires bottom <= middle <= top <= |s|
    ensures ToExchange(s, Exchanged(s, bottom, middle, top), bottom, middle, top)
  {
  }

  /** `exchange`'s loop: the blocks `a[from..mid]` and `a[mid..to]` change places, each keeping its order. */
  method ExchangeBlocks<T>(a: array<T>, from: nat, mid: nat, to: nat)
    requires from <= mid <= to <= a.Length
    modifies a
    ensures a[..] == Exchanged(old(a[..]), from, mid, to)
  {
    hide Swapped, ToExchange, Exchanged;
    var bottom, middle, top := from, mid, to;
    ghost var t := Exchanged(a[..], from, mid, to);
    ExchangeStart(a[..], from, mid, to);
    ExchangeBounds(a[..], t, bottom, middle, top);
    while top > middle && middle > bottom
      invariant 0 <= bottom <= middle <= top <= a.Length && ToExchange(a[..], t, bottom, middle, top)
      decreases top - bottom
    {
      ghost var s := a[..];
      if top - middle > middle - bottom {
        var len := middle - bottom;
        SwapBlocks(a, bottom, top - len, len);
        BottomDone(s, t, bottom, middle, top);
        top := top - len;
      } else {
        var len := top - middle;
        SwapBlocks(a, bottom, middle, len);
        TopDone(s, t, bottom, middle, top);
        bottom := bottom + len;
      }
    }
    ExchangeDone(a[..], t, bottom, middle, top);
  }

  lemma {:induction false} ExchangeBounds<T>(s: seq<T>, t: seq<T>, bottom: nat, middle: nat, top: nat)
    requires ToExchange(s, t, bottom, middle, top)
    ensures bottom <= middle <= top <= |s|
  {
  }

  // ----- The state as a scan -----

  /** Options moved to the front, operands skipped, options since then, and the unscanned rest. */
  function View(a: seq<string>, start: nat, first: nat, last: nat, ind: nat, next: string): (s: Scan)
    requires start <= first <= last <= ind <= |a|
    ensures s.next == next && s.rest == a[ind..] && |s.rest| == |a| - ind
  {
    Scan(a[start..first] + a[last..ind], a[first..last], a[ind..], next)
  }

  /** Exchanging the blocks changes nothing but the layout. */
  lemma {:induction false} ViewExchanged(a: seq<string>, start: nat, first: nat, last: nat, ind: nat, next: string)
    requires start <= first <= last <= ind <= |a|
    ensures var a' := Exchanged(a, first, last, ind);
            && |a'| == |a| && a'[..start] == a[..start]
            && View(a', start, first + (ind - last), ind, ind, next) == View(a, start, first, last, ind, next)
  {
    var a' := Exchanged(a, first, last, ind);
    var m := first + (ind - last);
    assert a'[start..m] == a[start..first] + a[last..ind];
    assert a'[m..ind] == a[first..last] && a'[ind..] == a[ind..];
    assert a'[start..m] + a'[ind..ind] == a'[start..m];
  }

  /** With no operand held, the block boundary may be anywhere. */
  lemma {:induction false} ViewCollapsed(a: seq<string>, start: nat, first: nat, ind: nat, next: string)
    requires start <= first <= ind <= |a|
    ensures View(a, start, ind, ind, ind, next) == View(a, start, first, first, ind, next)
  {
    assert a[start..ind] + a[ind..ind] == a[start..first] + a[first..ind];
  }

  /** Operands passed over join those held. */
  lemma {:induction false} ViewSkipped(a: seq<string>, start: nat, first: nat, ind: nat, k: nat, next: string)
    requires start <= first <= ind <= ind + k <= |a|
    ensures var s, s' := View(a, start, first, ind, ind, next), View(a, start, first, ind + k, ind + k, next);
            s' == s.(held := s.held + s.rest[..k], rest := s.rest[k..])
  {
    assert a[first..ind + k] == a[first..ind] + a[ind..][..k];
    assert a[ind..][k..] == a[ind + k..];
    assert a[ind..ind] == a[ind + k..ind + k] == [];
  }

  /** Moving `optind` takes an element. */
  lemma {:induction false} ViewTaken(a: seq<string>, start: nat, first: nat, last: nat, ind: nat, next: string)
    requires start <= first <= last <= ind < |a|
    ensures View(a, start, first, last, ind + 1, next) == Take(View(a, start, first, last, ind, next))
    ensures View(a, start, first, last, ind, next).rest[0] == a[ind]
  {
    assert a[last..ind + 1] == a[last..ind] + [a[ind]];
    Assoc(a[start..first], a[last..ind], [a[ind]]);
    assert a[ind..][1..] == a[ind + 1..];
  }

  /** The layout when no exchange is pending. */
  lemma {:induction false} ViewSettled(a: seq<string>, start: nat, first: nat, ind: nat, next: string)
    requires start <= first <= ind <= |a|
    ensures var s := View(a, start, first, ind, ind, next);
            a == a[..start] + s.opts + s.held + s.rest && first == start + |s.opts|
  {
  }

  /** `my_index`. */
  method MyIndex(str: string, chr: char) returns (n: nat)
    ensures n == IndexOf(str, chr)
  {
    n := 0;
    while n < |str| && str[n] != chr
      invariant n <= |str| && IndexOf(str, chr) == n + IndexOf(str[n..], chr)
    {
      assert str[n..][1..] == str[n + 1..];
      n := n + 1;
    }
  }

  class GetoptState {
    const argv: array<string>
    var optind: nat
    var optarg: Option<string>
    var optopt: char
    var initialized: bool
    var nextchar: string  // "" also stands for NULL
    var ordering: Ordering
    var firstNonopt: nat
    var lastNonopt: nat
    ghost var start: nat  // where the scan began

    constructor (argv: array<string>)
      ensures this.argv == argv && !initialized && optind == 1
    {
      this.argv := argv;
      optind, initialized, nextchar, ordering, firstNonopt, lastNonopt := 1, false, "", Permute, 0, 0;
      optarg, optopt := None, '?';
      start := 1;
    }

    /** Between calls. */
    ghost predicate Valid()
      reads this
    {
      && initialized && 1 <= start <= firstNonopt <= lastNonopt <= optind <= argv.Length
      && (nextchar != "" ==> optind < argv.Length)
      && (ordering != Permute ==> firstNonopt == lastNonopt)
    }

    ghost function Current(): (s: Scan)
      requires Valid()
      reads this, argv
      ensures ValidScan(s)
    {
      View(argv[..], start, firstNonopt, lastNonopt, optind, nextchar)
    }

    /** `_getopt_initialize`. */
    method Initialize(optstring: string, posixlyCorrect: bool) returns (seen: string)
      requires 1 <= optind <= argv.Length
      modifies this`firstNonopt, this`lastNonopt, this`nextchar, this`ordering, this`start
      ensures firstNonopt == lastNonopt == start == optind && nextchar == ""
      ensures ordering == OrderingOf(optstring, posixlyCorrect) && seen == Stripped(optstring)
    {
      firstNonopt, lastNonopt, start := optind, optind, optind;
      nextchar := "";
      seen := optstring;
      if optstring != "" && optstring[0] == '-' {
        ordering := ReturnInOrder;
        seen := optstring[1..];
      } else if optstring != "" && optstring[0] == '+' {
        ordering := RequireOrder;
        seen := optstring[1..];
      } else if posixlyCorrect {
        ordering := RequireOrder;
      } else {
        ordering := Permute;
      }
    }

    /** `exchange`. */
    method Exchange()
      requires firstNonopt <= lastNonopt <= optind <= argv.Length
      modifies this`firstNonopt, this`lastNonopt, argv
      ensures argv[..] == Exchanged(old(argv[..]), old(firstNonopt), old(lastNonopt), optind)
      ensures firstNonopt == old(firstNonopt) + (optind - old(lastNonopt)) && lastNonopt == optind
    {
      ExchangeBlocks(argv, firstNonopt, lastNonopt, optind);
      firstNonopt := firstNonopt + (optind - lastNonopt);
      lastNonopt := optind;
    }

    /** Options processed since the last operands are moved before them; nothing stays pending. */
    method Settle()
      requires Valid()
      modifies this`firstNonopt, this`lastNonopt, argv
      ensures Valid() && lastNonopt == optind && Current() == old(Current()) && argv[..start] == old(argv[..start])
    {
      hide Exchanged, View, Take;
      ghost var a := argv[..];
      if firstNonopt != lastNonopt && lastNonopt != optind {
        ViewExchanged(a, start, firstNonopt, lastNonopt, optind, nextchar);
        Exchange();
        assert argv[..start] == argv[..][..start];
      } else if lastNonopt != optind {
        ViewCollapsed(a, start, firstNonopt, optind, nextchar);
        firstNonopt := optind;
        lastNonopt := optind;
      }
    }

    /** The loop over operands. */
    method PassOperands()
      requires optind <= argv.Length
      modifies this`optind
      ensures optind <= argv.Length && optind == old(optind) + Leading(argv[old(optind)..])
    {
      ghost var from, rest := optind, argv[optind..];
      while optind < argv.Length && NonOption(argv[optind])
        invariant from <= optind <= argv.Length && forall i :: 0 <= i < optind - from ==> NonOption(rest[i])
        modifies this`optind
      {
        optind := optind + 1;
      }
      LeadingIs(rest, optind - from);
    }

    /** Operands passed over are held. */
    method HoldOperands()
      requires Valid() && nextchar == "" && lastNonopt == optind && ordering == Permute
      modifies this`lastNonopt, this`optind
      ensures Valid() && lastNonopt == optind && Current() == Skimmed(Permute, old(Current()))
    {
      hide Leading, View;
      ghost var from := optind;
      PassOperands();
      lastNonopt := optind;
      ViewSkipped(argv[..], start, firstNonopt, from, optind - from, nextchar);
    }

    /** In the default mode, passes over operands. */
    method Skim()
      requires Valid() && nextchar == ""
      modifies this`firstNonopt, this`lastNonopt, this`optind, argv
      ensures Valid() && argv[..start] == old(argv[..start])
      ensures lastNonopt == optind || firstNonopt == lastNonopt
      ensures Current() == Skimmed(ordering, old(Current()))
    {
      hide View, Leading;
      if ordering == Permute {
        hide Skimmed;
        Settle();
        HoldOperands();
      } else {
        NoneHeld(Current());
      }
    }

    /** Where the scan has come to an end: options, operands and unscanned elements in this order. */
    ghost predicate Ended(s: Scan)
      requires start <= argv.Length
      reads this, argv
    {
      argv[..] == argv[..start] + s.opts + s.held + s.rest && optind == start + |s.opts|
    }

    /** "--" is taken like an option, everything after it is an operand. */
    method StopAtMark()
      requires Valid() && nextchar == "" && optind < argv.Length && argv[optind] == "--"
      modifies this`firstNonopt, this`lastNonopt, this`optind, argv
      ensures start <= firstNonopt <= lastNonopt == optind == argv.Length && argv[..start] == old(argv[..start])
      ensures var s := old(Current());
              s.rest != [] && s.rest[0] == "--"
              && View(argv[..], start, firstNonopt, optind, optind, "") == Scan(s.opts + ["--"], s.held + s.rest[1..], [], "")
    {
      hide Exchanged, View;
      ViewTaken(argv[..], start, firstNonopt, lastNonopt, optind, "");
      optind := optind + 1;
      ghost var a, from := argv[..], optind;
      if firstNonopt != lastNonopt && lastNonopt != optind {
        ViewExchanged(a, start, firstNonopt, lastNonopt, optind, "");
        Exchange();
        assert argv[..start] == argv[..][..start];
      } else if firstNonopt == lastNonopt {
        ViewCollapsed(a, start, firstNonopt, optind, "");
        firstNonopt := optind;
      }
      lastNonopt := argv.Length;
      optind := argv.Length;
      MarkPassed(argv[..], start, firstNonopt, from);
    }

    /** The end of the scan: `optind` goes back to the operands. */
    method Finish(ghost s: Scan)
      requires start <= firstNonopt <= lastNonopt <= optind == argv.Length
      requires lastNonopt == optind || firstNonopt == lastNonopt
      requires s == View(argv[..], start, firstNonopt, lastNonopt, optind, "")
      modifies this`optind
      ensures Ended(s)
    {
      if firstNonopt != lastNonopt {
        ViewSettled(argv[..], start, firstNonopt, optind, "");
        optind := firstNonopt;
      } else {
        ViewCollapsed(argv[..], start, firstNonopt, optind, "");
        ViewSettled(argv[..], start, optind, optind, "");
      }
    }

    /** Takes a character off the option element; with its last character the element is done. */
    method NextChar() returns (c: char)
      requires Valid() && nextchar != ""
      modifies this`nextchar, this`optind
      ensures Valid() && c == old(nextchar[0])
      ensures var s, tail := old(Current()), old(nextchar[1..]);
              s.rest != [] && Current() == (if tail == "" then Take(s) else s).(next := tail)
    {
      ViewTaken(argv[..], start, firstNonopt, lastNonopt, optind, nextchar[1..]);
      hide Take;
      c := nextchar[0];
      nextchar := nextchar[1..];
      if nextchar == "" {
        optind := optind + 1;
      }
    }

    /** Takes an element as an argument, whole or from its middle. */
    method TakeElement() returns (element: string)
      requires Valid() && optind < argv.Length
      modifies this`nextchar, this`optind
      ensures Valid() && old(Current()).rest != [] && element == old(Current()).rest[0]
      ensures Current() == Take(old(Current())).(next := "")
    {
      ViewTaken(argv[..], start, firstNonopt, lastNonopt, optind, "");
      hide Take;
      nextchar := "";
      element := argv[optind];
      optind := optind + 1;
    }

    /** The argument of an option that requires one. */
    method TakeArgument(optstring: string, c: char) returns (code: int)
      requires Valid() && optarg == None && optstring != ""
      modifies this`nextchar, this`optind, this`optarg, this`optopt
      ensures Valid()
      ensures var s := old(Current());
              if s.next != "" then
                && s.rest != [] && Current() == Take(s).(next := "") && optarg == Some(s.next)
                && code == c as int && optopt == old(optopt)
              else if s.rest == [] then
                Current() == s && optarg == None && code == Missing(optstring, c).code && optopt == c
              else
                Current() == Take(s) && optarg == Some(s.rest[0]) && code == c as int && optopt == old(optopt)
    {
      hide View;
      code := c as int;
      if nextchar != "" {
        optarg := Some(nextchar);
        var _ := TakeElement();
      } else if optind == argv.Length {
        optopt := c;
        code := if optstring[0] == ':' then ':' as int else '?' as int;
      } else {
        var element := TakeElement();
        optarg := Some(element);
      }
    }

    /** The part of `_getopt_internal` for short options. */
    method DecodeNext(optstring: string) returns (code: int)
      requires Valid() && nextchar != "" && optarg == None
      modifies this`nextchar, this`optind, this`optarg, this`optopt
      ensures Valid() && old(Current()).rest != []
      ensures var (s, o) := Decode(optstring, old(Current()));
              && Current() == s && code == o.code && optarg == o.optarg
              && optopt == if o.optopt.Some? then o.optopt.value else old(optopt)
    {
      hide View, IndexOf;
      var c := NextChar();
      var temp := MyIndex(optstring, c);
      if temp == |optstring| || c == ':' {
        optopt := c;
        return '?' as int;
      }
      code := c as int;
      if optstring[temp] == 'W' && temp + 1 < |optstring| && optstring[temp + 1] == ';' {
        code := TakeArgument(optstring, c);
      } else if temp + 1 < |optstring| && optstring[temp + 1] == ':' {
        if temp + 2 < |optstring| && optstring[temp + 2] == ':' {
          if nextchar != "" {
            optarg := Some(nextchar);
            var _ := TakeElement();
          }
        } else {
          code := TakeArgument(optstring, c);
        }
      }
    }

    /** What the last call means: the scan has ended, or is in state `s`. */
    ghost predicate Reached(s: Scan, code: int)
      reads this, argv
    {
      if code == -1 then start <= argv.Length && Ended(s) else Valid() && Current() == s
    }

    /** The outcome as the caller sees it; `optopt` is set only by errors. */
    predicate Shows(o: Outcome, code: int, optoptBefore: char)
      reads this
    {
      code == o.code && optarg == o.optarg && optopt == if o.optopt.Some? then o.optopt.value else optoptBefore
    }

    /** Without operands held, the scan may end anywhere. */
    lemma {:induction false} EndedHere()
      requires Valid() && firstNonopt == lastNonopt && nextchar == ""
      ensures Ended(Current())
    {
      ViewCollapsed(argv[..], start, firstNonopt, optind, "");
      ViewSettled(argv[..], start, optind, optind, "");
    }

    /** Skips the punctuation of an option element. */
    method StartElement()
      requires Valid() && nextchar == "" && optind < argv.Length && !NonOption(argv[optind])
      modifies this`nextchar
      ensures Valid() && nextchar != "" && old(Current()).rest != []
      ensures Current() == old(Current()).(next := old(Current()).rest[0][1..])
    {
      ViewNext(argv[..], start, firstNonopt, lastNonopt, optind, argv[optind][1..]);
      nextchar := argv[optind][1..];
    }

    /** At the first element not passed over: the end, an operand, or an option element. */
    method EnterElement(optstring: string) returns (code: int)
      requires Valid() && nextchar == "" && optarg == None && (lastNonopt == optind || firstNonopt == lastNonopt)
      modifies this`firstNonopt, this`lastNonopt, this`optind, this`nextchar, this`optarg, this`optopt, argv
      ensures argv[..start] == old(argv[..start]) && optind != 0
      ensures var (s, o) := Enter(ordering, optstring, old(Current())); Reached(s, code) && Shows(o, code, old(optopt))
    {
      hide View, Decode, Take, NonOption, Ended;
      ghost var t := Current();
      if optind != argv.Length && argv[optind] == "--" {
        StopAtMark();
        Finish(Scan(t.opts + ["--"], t.held + t.rest[1..], [], ""));
        return -1;
      }
      if optind == argv.Length {
        Finish(t);
        return -1;
      }
      if NonOption(argv[optind]) {
        if ordering == RequireOrder {
          EndedHere();
          return -1;
        }
        var element := TakeElement();
        optarg := Some(element);
        TakeKeepsNext(t);
        return 1;
      }
      StartElement();
      code := DecodeNext(optstring);
    }

    /** Rational values for the operand range, in case the caller has moved `optind` back. */
    method Clamp()
      modifies this`firstNonopt, this`lastNonopt
      ensures lastNonopt == (if old(lastNonopt) > optind then optind else old(lastNonopt))
      ensures firstNonopt == (if old(firstNonopt) > optind then optind else old(firstNonopt))
    {
      if lastNonopt > optind {
        lastNonopt := optind;
      }
      if firstNonopt > optind {
        firstNonopt := optind;
      }
    }

    /** `_getopt_internal` after initialisation. */
    method Advance(optstring: string) returns (code: int)
      requires Valid() && optarg == None
      modifies this`firstNonopt, this`lastNonopt, this`optind, this`nextchar, this`optarg, this`optopt, argv
      ensures argv[..start] == old(argv[..start]) && optind != 0
      ensures var (s, o) := Step(ordering, optstring, old(Current())); Reached(s, code) && Shows(o, code, old(optopt))
    {
      hide View, Decode, Enter, Skimmed;
      if nextchar == "" {
        Clamp();
        Skim();
        code := EnterElement(optstring);
      } else {
        code := DecodeNext(optstring);
      }
    }

    /** Whether the next call starts a scan. */
    predicate Fresh()
      reads this
    {
      optind == 0 || !initialized
    }

    /** Where a scan that starts now begins. */
    ghost function Origin(): (s: Scan)
      requires optind <= argv.Length && 1 <= argv.Length
      reads this, argv
      ensures ValidScan(s)
    {
      Scan([], [], argv[..][if optind == 0 then 1 else optind..], "")
    }

    /** `_getopt_internal` as `getopt` calls it, without long options: where it is defined. */
    method Next(optstring: string, posixlyCorrect: bool) returns (code: int)
      requires if Fresh() then
                 && 1 <= argv.Length && optind <= argv.Length
                 && CallDefined(OrderingOf(optstring, posixlyCorrect), Stripped(optstring), Origin())
               else Valid() && CallDefined(ordering, optstring, Current())
      modifies this`firstNonopt, this`lastNonopt, this`optind, this`nextchar, this`optarg, this`optopt, this`initialized,
               this`ordering, this`start, argv
      ensures !Fresh() && start <= argv.Length && argv[..start] == old(argv[..])[..start]
      ensures old(Fresh()) ==>
                && start == (if old(optind) == 0 then 1 else old(optind)) && ordering == OrderingOf(optstring, posixlyCorrect)
                && var (s, o) := Step(ordering, Stripped(optstring), Scan([], [], old(argv[..])[start..], ""));
                   Reached(s, code) && Shows(o, code, old(optopt))
      ensures !old(Fresh()) ==>
                && start == old(start) && ordering == old(ordering)
                && var (s, o) := Step(ordering, optstring, old(Current())); Reached(s, code) && Shows(o, code, old(optopt))
    {
      hide Step, Reached, CallDefined;
      optarg := None;
      var seen := optstring;
      if optind == 0 || !initialized {
        if optind == 0 {
          optind := 1;
        }
        seen := Initialize(optstring, posixlyCorrect);
        initialized := true;
        ViewStart(argv[..], start);
      }
      assert argv[..start] == argv[..][..start];
      code := Advance(seen);
    }

    /** A caller's loop over a whole command line. */
    method ScanAll(optstring: string, posixlyCorrect: bool) returns (returned: seq<(int, Option<string>)>)
      requires Fresh() && 1 <= argv.Length && optind <= argv.Length
      requires CallsDefined(OrderingOf(optstring, posixlyCorrect), optstring, Origin())
      modifies this`firstNonopt, this`lastNonopt, this`optind, this`nextchar, this`optarg, this`optopt, this`initialized,
               this`ordering, this`start, argv
      ensures var from := if old(optind) == 0 then 1 else old(optind);
              var args := old(argv[..])[from..];
              var (os, end) := Calls(OrderingOf(optstring, posixlyCorrect), optstring, Scan([], [], args, ""));
              && returned == Shown(os)
              && argv[..] == old(argv[..])[..from] + end.opts + end.held + end.rest
              && optind == from + |end.opts|
    {
      hide Step, RunToEnd, Calls, OrderingOf, OnCourse, Remaining, Shown, CallDefined, RunDefined;
      ghost var from := if optind == 0 then 1 else optind;
      ghost var s0, pre := Scan([], [], argv[..][from..], ""), argv[..][..from];
      ghost var chosen := OrderingOf(optstring, posixlyCorrect);
      ghost var goal, end := Shown(Calls(chosen, optstring, s0).0), Calls(chosen, optstring, s0).1;
      var code := Next(optstring, posixlyCorrect);
      ghost var (s, o) := Step(chosen, Stripped(optstring), s0);
      returned := [];
      CourseStart(chosen, optstring, s0);
      while code != -1
        invariant !Fresh() && start == from && ordering == chosen && argv[..start] == pre
        invariant Reached(s, code) && ValidScan(s)
        invariant code != -1 ==> RunDefined(chosen, optstring, s)
        invariant OnCourse(chosen, optstring, returned, code, optarg, s, goal, end)
        decreases if code == -1 then 0 else 1 + Remaining(s)
      {
        RunDefinedNext(chosen, optstring, s);
        CourseStep(chosen, optstring, returned, code, optarg, s, goal, end);
        returned := returned + [(code, optarg)];
        code := Next(optstring, posixlyCorrect);
        s, o := Step(chosen, optstring, s).0, Step(chosen, optstring, s).1;
      }
      CourseEnd(chosen, optstring, returned, optarg, s, goal, end);
    }

    /** The same in the default mode: every option is found wherever it stands, and the operands come last. */
    method ScanPermuting(optstring: string) returns (returned: seq<(int, Option<string>)>)
      requires Fresh() && 1 <= argv.Length && optind <= argv.Length && !Prefixed(optstring)
      requires CallsDefined(Permute, optstring, Origin())
      modifies this`firstNonopt, this`lastNonopt, this`optind, this`nextchar, this`optarg, this`optopt, this`initialized,
               this`ordering, this`start, argv
      ensures var from := if old(optind) == 0 then 1 else old(optind);
              var args := old(argv[..])[from..];
              var marks := Marks(optstring, args);
              && returned == Shown(Results(optstring, args))
              && argv[..] == old(argv[..])[..from] + Select(args, marks, true) + Select(args, marks, false)
              && optind == from + |Select(args, marks, true)|
    {
      hide Calls, Marks, Results, Select, Shown, CallsDefined;
      ghost var from := if optind == 0 then 1 else optind;
      CallsPermuting(optstring, Scan([], [], argv[..][from..], ""));
      returned := ScanAll(optstring, false);
    }

    /** The same where operands end the scan or are returned: the elements stay in place. */
    method ScanInOrder(optstring: string, posixlyCorrect: bool) returns (returned: seq<(int, Option<string>)>)
      requires Fresh() && 1 <= argv.Length && optind <= argv.Length && OrderingOf(optstring, posixlyCorrect) != Permute
      requires CallsDefined(OrderingOf(optstring, posixlyCorrect), optstring, Origin())
      modifies this`firstNonopt, this`lastNonopt, this`optind, this`nextchar, this`optarg, this`optopt, this`initialized,
               this`ordering, this`start, argv
      ensures var from := if old(optind) == 0 then 1 else old(optind);
              var (os, n) := ReadCalls(OrderingOf(optstring, posixlyCorrect), optstring, old(argv[..])[from..]);
              && returned == Shown(os) && optind == from + n
              && argv[..] == old(argv[..])
    {
      hide Calls, ReadCalls, Shown, OrderingOf, CallsDefined;
      ghost var from := if optind == 0 then 1 else optind;
      ghost var args := argv[..][from..];
      assert argv[..] == argv[..][..from] + args;
      CallsInOrder(OrderingOf(optstring, posixlyCorrect), optstring, args);
      ghost var end := Calls(OrderingOf(optstring, posixlyCorrect), optstring, Scan([], [], args, "")).1;
      Assoc(argv[..][..from], end.opts, end.held);
      Assoc(argv[..][..from], end.opts + end.held, end.rest);
      returned := ScanAll(optstring, posixlyCorrect);
    }
  }

  lemma {:induction false} TakeKeepsNext(s: Scan)
    requires s.rest != []
    ensures Take(s).next == s.next
  {
  }

  lemma {:induction false} LeadingIs(rest: seq<string>, k: nat)
    requires k <= |rest| && (forall i :: 0 <= i < k ==> NonOption(rest[i])) && (k < |rest| ==> !NonOption(rest[k]))
    ensures Leading(rest) == k
  {
  }

  lemma {:induction false} MarkPassed(a: seq<string>, start: nat, first: nat, ind: nat)
    requires start <= first <= ind <= |a|
    ensures var s := View(a, start, first, ind, ind, "");
            View(a, start, first, |a|, |a|, "") == Scan(s.opts, s.held + s.rest, [], "")
  {
    var s := View(a, start, first, ind, ind, "");
    ViewSkipped(a, start, first, ind, |a| - ind, "");
    assert s.rest[..|a| - ind] == s.rest;
  }

  lemma {:induction false} NoneHeld(s: Scan)
    ensures s.(held := s.held + s.rest[..0], rest := s.rest[0..]) == s
  {
  }

  lemma {:induction false} ViewNext(a: seq<string>, start: nat, first: nat, last: nat, ind: nat, next: string)
    requires start <= first <= last <= ind <= |a|
    ensures View(a, start, first, last, ind, next) == View(a, start, first, last, ind, "").(next := next)
  {
  }

  lemma {:induction false} ViewStart(a: seq<string>, start: nat)
    requires start <= |a|
    ensures View(a, start, start, start, start, "") == Scan([], [], a[start..], "")
  {
  }

  /** What a caller sees of a list of outcomes. */
  function Shown(os: seq<Outcome>): (r: seq<(int, Option<string>)>)
    ensures |r| == |os|
  {
    seq(|os|, i requires 0 <= i < |os| => (os[i].code, os[i].optarg))
  }

  lemma {:induction false} ShownCons(o: Outcome, os: seq<Outcome>)
    ensures Shown([o] + os) == [(o.code, o.optarg)] + Shown(os)
  {
  }

  /** The calls so far returned what they should, and the rest of the run will. */
  predicate OnCourse(ordering: Ordering, optstring: string, returned: seq<(int, Option<string>)>, code: int,
                     optarg: Option<string>, s: Scan, goal: seq<(int, Option<string>)>, end: Scan)
    requires ValidScan(s)
  {
    if code == -1 then returned == goal && s == end
    else
      var (os, s') := RunToEnd(ordering, optstring, s);
      returned + [(code, optarg)] + Shown(os) == goal && s' == end
  }

  lemma {:induction false} CourseStart(ordering: Ordering, optstring: string, s: Scan)
    requires ValidScan(s)
    ensures var (s', o) := Step(ordering, Stripped(optstring), s);
            OnCourse(ordering, optstring, [], o.code, o.optarg, s', Shown(Calls(ordering, optstring, s).0),
                     Calls(ordering, optstring, s).1)
  {
    hide Step, RunToEnd;
    var (s', o) := Step(ordering, Stripped(optstring), s);
    ShownCons(o, RunToEnd(ordering, optstring, s').0);
  }

  lemma {:induction false} CourseStep(ordering: Ordering, optstring: string, returned: seq<(int, Option<string>)>, code: int,
                                      optarg: Option<string>, s: Scan, goal: seq<(int, Option<string>)>, end: Scan)
    requires ValidScan(s) && code != -1 && OnCourse(ordering, optstring, returned, code, optarg, s, goal, end)
    ensures var (s', o) := Step(ordering, optstring, s);
            && OnCourse(ordering, optstring, returned + [(code, optarg)], o.code, o.optarg, s', goal, end)
            && (o.code != -1 ==> Remaining(s') < Remaining(s))
  {
    hide Step, RunToEnd, Remaining;
    RunStep(ordering, optstring, s);
    var (s', o) := Step(ordering, optstring, s);
    ShownCons(o, RunToEnd(ordering, optstring, s').0);
    hide Shown;
    Assoc(returned + [(code, optarg)], [(o.code, o.optarg)], Shown(RunToEnd(ordering, optstring, s').0));
    assert Shown([]) == [];
    assert returned + [(code, optarg)] + [] == returned + [(code, optarg)];
  }

  lemma {:induction false} CourseEnd(ordering: Ordering, optstring: string, returned: seq<(int, Option<string>)>,
                                     optarg: Option<string>, s: Scan, goal: seq<(int, Option<string>)>, end: Scan)
    requires ValidScan(s) && OnCourse(ordering, optstring, returned, -1, optarg, s, goal, end)
    ensures returned == goal && s == end
  {
  }

  lemma {:induction false} RunStep(ordering: Ordering, optstring: string, s: Scan)
    requires ValidScan(s)
    ensures var (s', o) := Step(ordering, optstring, s);
            if o.code == -1 then RunToEnd(ordering, optstring, s) == ([], s')
            else RunToEnd(ordering, optstring, s)
                 == ([o] + RunToEnd(ordering, optstring, s').0, RunToEnd(ordering, optstring, s').1)
                 && Remaining(s') < Remaining(s)
  {
    hide Step, Remaining;
    if Step(ordering, optstring, s).1.code != -1 {
      StepShrinks(ordering, optstring, s);
    }
  }
}
