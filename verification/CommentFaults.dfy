/** Comment headers that are cut short or corrupt: what is printed before the complaint, and where the walk stops. */
module CommentFaults {
  import opened Bytes
  import opened Comments

  /** No counted string lies at the front: its length is missing, negative, or reaches past the end. */
  predicate NoString(rest: seq<byte>) {
    |rest| < 4 || ReadInt(rest, 0) < 0 || 4 + ReadInt(rest, 0) > |rest|
  }

  /** The walk stops behind the length, if there is one. */
  function Stop(rest: seq<byte>): nat {
    if |rest| < 4 then 0 else 4
  }

  lemma {:induction false} ReadBehind(before: seq<byte>, rest: seq<byte>)
    requires |rest| >= 4
    ensures ReadInt(before + rest, |before|) == ReadInt(rest, 0)
  {
    assert (before + rest)[|before|..|before| + 4] == rest[0..4];
    hide ReadInt;
  }

  // ----- The walk before a fault -----

  lemma {:induction false} WalkOne(before: seq<byte>, field: seq<byte>, more: seq<byte>, n: int)
    requires |field| < TWO31 && n > 0
    ensures var buf, at := before + Counted(field) + more, |before + Counted(field)|;
            var w := WalkFields(buf, at, n - 1);
            WalkFields(buf, |before|, n) == w.(lines := [field] + w.lines)
  {
    hide ReadInt, Counted;
    CountedSize(field);
    CountedAt(before, field, more);
  }

  /** Encoded fields are printed, whatever the walk does behind them. */
  lemma {:induction false} WalkPast(before: seq<byte>, fields: seq<seq<byte>>, rest: seq<byte>, n: int)
    requires |EncodeFields(fields)| < TWO31 && n >= |fields|
    ensures var buf, at := before + EncodeFields(fields) + rest, |before + EncodeFields(fields)|;
            var w := WalkFields(buf, at, n - |fields|);
            WalkFields(buf, |before|, n) == w.(lines := fields + w.lines)
    decreases |fields|
  {
    hide Counted, WalkFields;
    if fields == [] {
      var w := WalkFields(before + [] + rest, |before|, n);
      assert [] + w.lines == w.lines;
      assert before + EncodeFields([]) == before;
    } else {
      var c, more := Counted(fields[0]), EncodeFields(fields[1..]);
      CountedSize(fields[0]);
      WalkOne(before, fields[0], more + rest, n);
      WalkPast(before + c, fields[1..], rest, n - 1);
      hide EncodeFields;
      Assoc(before, c, more);
      Assoc(before + c, more, rest);
      var w := WalkFields(before + c + more + rest, |before + c + more|, n - |fields|);
      Assoc([fields[0]], fields[1..], w.lines);
      assert fields == [fields[0]] + fields[1..];
    }
  }

  lemma {:induction false} FieldFault(before: seq<byte>, rest: seq<byte>, n: int)
    requires NoString(rest) && n > 0
    ensures WalkFields(before + rest, |before|, n) == Walk([], false, |before| + Stop(rest))
  {
    hide ReadInt;
    if |rest| >= 4 {
      ReadBehind(before, rest);
    }
  }

  /** The vendor string and its count, in front of anything. */
  lemma {:induction false} HeaderRead(vendor: seq<byte>, count: int, rest: seq<byte>)
    requires |vendor| < TWO31 && Int32(count)
    ensures var front := Counted(vendor) + ToLE(count, 4);
            var buf := front + rest;
            var w := WalkFields(buf, |front|, count);
            |front| == 8 + |vendor| && WalkAll(buf) == w.(lines := [vendor] + w.lines)
  {
    hide ToLE, FromLE, Signed32, WalkFields;
    var front := Counted(vendor) + ToLE(count, 4);
    var buf := front + rest;
    assert buf[0..4] == ToLE(|vendor|, 4) && buf[4..4 + |vendor|] == vendor;
    assert buf[4 + |vendor|..8 + |vendor|] == ToLE(count, 4);
    Signed32RoundTrip(|vendor|);
    Signed32RoundTrip(count);
  }

  /** A field that is missing, or whose length is negative or reaches past the end: everything before it is printed. */
  lemma {:induction false} FieldsBeforeFault(vendor: seq<byte>, fields: seq<seq<byte>>, count: nat, rest: seq<byte>)
    requires |vendor| < TWO31 && |EncodeFields(fields)| < TWO31 && |fields| < count < TWO31 && NoString(rest)
    ensures var built := Counted(vendor) + ToLE(count, 4) + EncodeFields(fields);
            WalkAll(built + rest) == Walk([vendor] + fields, false, |built| + Stop(rest))
  {
    hide ReadInt, Counted, ToLE, WalkAll, EncodeFields, WalkFields, NoString;
    var front := Counted(vendor) + ToLE(count, 4);
    HeaderRead(vendor, count, EncodeFields(fields) + rest);
    Assoc(front, EncodeFields(fields), rest);
    WalkPast(front, fields, rest, count);
    FieldFault(front + EncodeFields(fields), rest, count - |fields|);
    assert fields + [] == fields;
  }

  /** A length that was written is a fault exactly if it is negative or more than what follows it. */
  lemma {:induction false} WrittenLength(len: int, rest: seq<byte>)
    requires Int32(len)
    ensures NoString(ToLE(len, 4) + rest) <==> len < 0 || len > |rest|
  {
    hide ToLE, FromLE, Signed32;
    assert (ToLE(len, 4) + rest)[0..4] == ToLE(len, 4);
    Signed32RoundTrip(len);
  }

  /** A negative number of fields is taken for none, without complaint. */
  lemma {:induction false} NegativeCount(vendor: seq<byte>, count: int, rest: seq<byte>)
    requires |vendor| < TWO31 && -TWO31 <= count < 0
    ensures WalkAll(Counted(vendor) + ToLE(count, 4) + rest) == Walk([vendor], true, 8 + |vendor|)
  {
    hide ReadInt, ToLE, Counted, WalkAll;
    HeaderRead(vendor, count, rest);
    assert [vendor] + [] == [vendor];
  }

  /** Without room for the number of fields the vendor string alone is printed. */
  lemma {:induction false} CountMissing(vendor: seq<byte>, rest: seq<byte>)
    requires |vendor| < TWO31 && |rest| < 4 && |vendor| + |rest| >= 4
    ensures WalkAll(Counted(vendor) + rest) == Walk([vendor], false, 4 + |vendor|)
  {
    CountedAt([], vendor, rest);
    hide ReadInt, WalkFields;
    assert [] + Counted(vendor) + rest == Counted(vendor) + rest;
  }

  /** Less than eight octets, or a vendor string that is not there: nothing is printed. */
  lemma {:induction false} VendorMissing(buf: seq<byte>)
    ensures |buf| < 8 ==> WalkAll(buf) == Walk([], false, 0)
    ensures |buf| >= 8 && NoString(buf) ==> WalkAll(buf) == Walk([], false, 4)
  {
    hide ReadInt, WalkFields;
  }

  // ----- The faults are the only reasons to complain -----

  lemma {:induction false} FaultHere(buf: seq<byte>, at: nat, n: int)
    requires at <= |buf| && n > 0 && NoString(buf[at..])
    ensures WalkFields(buf, at, n) == Walk([], false, at + Stop(buf[at..]))
  {
    hide WalkFields, NoString;
    SliceJoin(buf, at);
    FieldFault(buf[..at], buf[at..], n);
  }

  lemma {:induction false} StringHere(buf: seq<byte>, at: nat, n: int)
    requires at <= |buf| && n > 0 && !NoString(buf[at..])
    ensures at + 4 <= |buf| && 0 <= ReadInt(buf, at) && at + 4 + ReadInt(buf, at) <= |buf|
    ensures var next := at + 4 + ReadInt(buf, at);
            var w, w' := WalkFields(buf, at, n), WalkFields(buf, next, n - 1);
            && w == w'.(lines := [buf[at + 4..next]] + w'.lines) && buf[at..next] == Counted(buf[at + 4..next])
            && EncodeFields(w.lines) == Counted(buf[at + 4..next]) + EncodeFields(w'.lines)
  {
    hide ReadInt, Counted;
    SliceJoin(buf, at);
    ReadBehind(buf[..at], buf[at..]);
    ReadCounted(buf, at);
    var next := at + 4 + ReadInt(buf, at);
    var w' := WalkFields(buf, next, n - 1);
    assert ([buf[at + 4..next]] + w'.lines)[1..] == w'.lines;
  }

  lemma {:induction false} FieldFaulty(buf: seq<byte>, at: nat, n: int)
    requires at <= |buf| && !WalkFields(buf, at, n).ok
    ensures var w := WalkFields(buf, at, n);
            var m := |EncodeFields(w.lines)|;
            && |w.lines| < n && at + m <= |buf| && buf[at..at + m] == EncodeFields(w.lines)
            && NoString(buf[at + m..]) && w.end == at + m + Stop(buf[at + m..])
    decreases n
  {
    hide ReadInt, Counted, NoString, WalkFields, EncodeFields;
    WalkStops(buf, at, n, []);
    if NoString(buf[at..]) {
      FaultHere(buf, at, n);
      NothingEncoded([]);
    } else {
      StringHere(buf, at, n);
      var next := at + 4 + ReadInt(buf, at);
      FieldFaulty(buf, next, n - 1);
      var m := |EncodeFields(WalkFields(buf, next, n - 1).lines)|;
      assert buf[at..next + m] == buf[at..next] + buf[next..next + m];
    }
  }

  /** A complaint has one of these reasons, and the lines printed are those in front of the fault. */
  lemma {:induction false} ComplaintExact(buf: seq<byte>)
    requires !WalkAll(buf).ok
    ensures var w := WalkAll(buf);
            if |buf| < 8 then w == Walk([], false, 0)
            else if w.lines == [] then NoString(buf) && w.end == 4
            else
              var vendor, fields := w.lines[0], w.lines[1..];
              var at := 4 + |vendor|;
              && at <= |buf| && buf[..at] == Counted(vendor)
              && if |buf| < at + 4 then fields == [] && w.end == at
                 else
                   var m := at + 4 + |EncodeFields(fields)|;
                   && |fields| < ReadInt(buf, at) && m <= |buf| && buf[at + 4..m] == EncodeFields(fields)
                   && NoString(buf[m..]) && w.end == m + Stop(buf[m..])
  {
    hide ReadInt, Counted, EncodeFields, NoString;
    if |buf| >= 8 {
      var len := ReadInt(buf, 0);
      if len < 0 || 4 + len > |buf| {
        VendorFault(buf);
      } else {
        ReadCounted(buf, 0);
        assert buf[0..4 + len] == buf[..4 + len];
        if 8 + len <= |buf| {
          FieldFaulty(buf, 8 + len, ReadInt(buf, 4 + len));
          var w := WalkFields(buf, 8 + len, ReadInt(buf, 4 + len));
          assert ([buf[4..4 + len]] + w.lines)[1..] == w.lines;
        }
      }
    }
  }

  lemma {:induction false} VendorFault(buf: seq<byte>)
    requires |buf| >= 8 && (ReadInt(buf, 0) < 0 || 4 + ReadInt(buf, 0) > |buf|)
    ensures NoString(buf)
  {
    hide ReadInt;
  }

  // ----- Truncation -----

  /** Where the vendor string (`k` = 0) or field `k` of a built header ends. */
  function EndOf(vendor: seq<byte>, fields: seq<seq<byte>>, k: nat): nat
    requires k <= |fields|
  {
    if k == 0 then 4 + |vendor| else |Encode(vendor, fields[..k])|
  }

  lemma {:induction false} FieldsSplit(fields: seq<seq<byte>>, k: nat)
    requires k <= |fields|
    ensures EncodeFields(fields) == EncodeFields(fields[..k]) + EncodeFields(fields[k..])
  {
    hide Counted;
    if k == 0 {
      assert fields[0..] == fields;
    } else {
      FieldsSplit(fields[1..], k - 1);
      assert fields[..k][1..] == fields[1..][..k - 1] && fields[k..] == fields[1..][k - 1..];
      Assoc(Counted(fields[0]), EncodeFields(fields[1..][..k - 1]), EncodeFields(fields[k..]));
    }
  }

  /** Fields end one behind the other. */
  lemma {:induction false} FieldsGrow(fields: seq<seq<byte>>, i: nat, j: nat)
    requires i <= j <= |fields|
    ensures |EncodeFields(fields[..i])| <= |EncodeFields(fields[..j])|
  {
    FieldsSplit(fields[..j], i);
    assert fields[..j][..i] == fields[..i];
  }

  /** The number of fields, of the first `j`, that lie wholly within the first `m` octets. */
  lemma {:induction false} WholeFields(fields: seq<seq<byte>>, m: nat, j: nat) returns (k: nat)
    requires j <= |fields| && m < |EncodeFields(fields[..j])|
    ensures k < |fields| && |EncodeFields(fields[..k])| <= m < |EncodeFields(fields[..k + 1])|
  {
    hide EncodeFields;
    NothingEncoded(fields);
    if m < |EncodeFields(fields[..j - 1])| {
      k := WholeFields(fields, m, j - 1);
    } else {
      k := j - 1;
    }
  }

  lemma {:induction false} NothingEncoded(fields: seq<seq<byte>>)
    ensures EncodeFields(fields[..0]) == []
  {
  }

  /** What is left of the field that was cut. */
  lemma {:induction false} CutField(fields: seq<seq<byte>>, m: nat, k: nat)
    requires |EncodeFields(fields)| < TWO31
    requires k < |fields| && |EncodeFields(fields[..k])| <= m < |EncodeFields(fields[..k + 1])|
    ensures m <= |EncodeFields(fields)|
    ensures var rest := EncodeFields(fields)[|EncodeFields(fields[..k])|..m];
            EncodeFields(fields)[..m] == EncodeFields(fields[..k]) + rest && NoString(rest)
  {
    hide EncodeFields, Counted, ReadInt;
    var whole, before := EncodeFields(fields), EncodeFields(fields[..k]);
    FieldsGrow(fields, k + 1, |fields|);
    assert fields[..|fields|] == fields;
    FieldsSplit(fields, k);
    var rest := whole[|before|..m];
    assert whole[..|before|] == before;
    assert whole[..m] == before + rest;
    OneMore(fields, k);
    NoStringInCut(fields[k], EncodeFields(fields[k + 1..]), rest);
  }

  lemma {:induction false} OneMore(fields: seq<seq<byte>>, k: nat)
    requires k < |fields|
    ensures |EncodeFields(fields[..k + 1])| == |EncodeFields(fields[..k])| + 4 + |fields[k]|
    ensures EncodeFields(fields[k..]) == Counted(fields[k]) + EncodeFields(fields[k + 1..])
  {
    assert fields[k..][1..] == fields[k + 1..];
    EncodeFieldsAppend(fields[..k], fields[k]);
    assert fields[..k + 1] == fields[..k] + [fields[k]];
  }

  lemma {:induction false} NoStringInCut(field: seq<byte>, more: seq<byte>, rest: seq<byte>)
    requires |field| < TWO31 && |rest| < 4 + |field| && rest <= Counted(field) + more
    ensures NoString(rest)
  {
    hide FromLE, Signed32, ToLE;
    if |rest| >= 4 {
      assert rest[0..4] == (Counted(field) + more)[0..4] == ToLE(|field|, 4);
      Signed32RoundTrip(|field|);
    }
  }

  /** Of a built header that is cut short, exactly the strings are printed that lie wholly within what is left, which
      takes eight octets at least; then comes the complaint. */
  lemma {:induction false} Truncated(vendor: seq<byte>, fields: seq<seq<byte>>, n: nat)
    requires n < |Encode(vendor, fields)| < TWO31
    ensures var w := WalkAll(Encode(vendor, fields)[..n]);
            && !w.ok && w.lines <= [vendor] + fields
            && (forall k :: 0 <= k <= |fields| ==> (k < |w.lines| <==> 8 <= n && EndOf(vendor, fields, k) <= n))
            && w.end == if n < 8 then 0 else if w.lines == [] then 4
                        else if n < 8 + |vendor| then 4 + |vendor|
                        else var m := |Encode(vendor, fields[..|w.lines| - 1])|; if n < m + 4 then m else m + 4
  {
    hide Encode, WalkAll, EndOf;
    EncodedSizes(vendor, fields);
    var buf := Encode(vendor, fields)[..n];
    if n < 8 {
      VendorMissing(buf);
    } else if n < 8 + |vendor| {
      CutInFront(vendor, fields, n);
    } else {
      CutBehind(vendor, fields, n);
    }
  }

  /** The places where the strings end. */
  lemma {:induction false} EncodedSizes(vendor: seq<byte>, fields: seq<seq<byte>>)
    ensures forall k :: 0 <= k <= |fields| ==>
              && |Encode(vendor, fields[..k])| == 8 + |vendor| + |EncodeFields(fields[..k])|
              && EndOf(vendor, fields, k) == if k == 0 then 4 + |vendor| else 8 + |vendor| + |EncodeFields(fields[..k])|
    ensures EndOf(vendor, fields, 0) == 4 + |vendor|
    ensures |Encode(vendor, fields)| == 8 + |vendor| + |EncodeFields(fields)|
  {
    hide EncodeFields, ToLE;
  }

  lemma {:induction false} CutInFront(vendor: seq<byte>, fields: seq<seq<byte>>, n: nat)
    requires 8 <= n < 8 + |vendor| && |Encode(vendor, fields)| < TWO31
    ensures n <= |Encode(vendor, fields)|
    ensures WalkAll(Encode(vendor, fields)[..n])
            == if n < 4 + |vendor| then Walk([], false, 4) else Walk([vendor], false, 4 + |vendor|)
  {
    hide EncodeFields, Counted, ToLE, WalkAll;
    CountedSize(vendor);
    var more := ToLE(|fields|, 4) + EncodeFields(fields);
    var buf := Encode(vendor, fields)[..n];
    if n < 4 + |vendor| {
      NoStringInCut(vendor, more, buf);
      VendorMissing(buf);
    } else {
      assert buf == Counted(vendor) + buf[4 + |vendor|..];
      CountMissing(vendor, buf[4 + |vendor|..]);
    }
  }

  lemma {:induction false} CutBehind(vendor: seq<byte>, fields: seq<seq<byte>>, n: nat)
    requires 8 + |vendor| <= n < |Encode(vendor, fields)| < TWO31
    ensures var w := WalkAll(Encode(vendor, fields)[..n]);
            && w.lines <= [vendor] + fields && w.lines != [] && !w.ok
            && (forall k :: 0 <= k <= |fields| ==> (k < |w.lines| <==> EndOf(vendor, fields, k) <= n))
            && var m := |Encode(vendor, fields[..|w.lines| - 1])|; w.end == if n < m + 4 then m else m + 4
  {
    hide EncodeFields, Counted, ToLE, WalkAll, Encode, EndOf, NoString;
    EncodedSizes(vendor, fields);
    var front, m := Counted(vendor) + ToLE(|fields|, 4), n - (8 + |vendor|);
    EncodedFront(vendor, fields, n);
    assert fields[..|fields|] == fields;
    var k := WholeFields(fields, m, |fields|);
    CutField(fields, m, k);
    var before, rest := EncodeFields(fields[..k]), EncodeFields(fields)[|EncodeFields(fields[..k])|..m];
    Assoc(front, before, rest);
    FieldsGrow(fields, k, |fields|);
    FieldCountFits(fields);
    FieldsBeforeFault(vendor, fields[..k], |fields|, rest);
    forall j | 0 <= j <= |fields|
      ensures j < k + 1 <==> EndOf(vendor, fields, j) <= n
    {
      if j <= k {
        FieldsGrow(fields, j, k);
      } else {
        FieldsGrow(fields, k + 1, j);
      }
    }
  }

  lemma {:induction false} EncodedFront(vendor: seq<byte>, fields: seq<seq<byte>>, n: nat)
    requires 8 + |vendor| <= n <= |Encode(vendor, fields)|
    ensures var front := Counted(vendor) + ToLE(|fields|, 4);
            var m := n - (8 + |vendor|);
            |front| == 8 + |vendor| && m <= |EncodeFields(fields)|
            && Encode(vendor, fields)[..n] == front + EncodeFields(fields)[..m]
  {
    hide EncodeFields, ToLE;
    var front := Counted(vendor) + ToLE(|fields|, 4);
    Assoc(Counted(vendor), ToLE(|fields|, 4), EncodeFields(fields));
    assert (front + EncodeFields(fields))[..n] == front + EncodeFields(fields)[..n - |front|];
  }

  lemma {:induction false} FieldCountFits(fields: seq<seq<byte>>)
    ensures |EncodeFields(fields)| >= 4 * |fields|
  {
    EncodeFieldsAppend(fields, []);
  }
}
