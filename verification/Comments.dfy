/** The Speex comment header: built by speexenc.c, walked by speexdec.c. */
module Comments {
  import opened Bytes
  import opened Lacings

  /** The `readint` macro: four octets, least significant first, as a signed 32-bit number. */
  function ReadInt(buf: seq<byte>, base: nat): int
    requires base + 4 <= |buf|
  {
    Signed32(FromLE(buf[base..base + 4]))
  }

  /** The `writeint` macro. */
  method WriteInt(buf: array<byte>, base: nat, val: int)
    requires base + 4 <= buf.Length
    modifies buf
    ensures buf[..] == old(buf[..base]) + ToLE(val, 4) + old(buf[base + 4..])
  {
    buf[base + 3] := val / 0x100_0000 % 256;
    buf[base + 2] := val / 0x1_0000 % 256;
    buf[base + 1] := val / 0x100 % 256;
    buf[base] := val % 256;
    FourOctets(val);
  }

  // ----- The layout -----

  /** A string with its length in front. */
  function Counted(s: seq<byte>): seq<byte> {
    ToLE(|s|, 4) + s
  }

  function EncodeFields(fields: seq<seq<byte>>): seq<byte> {
    if fields == [] then [] else Counted(fields[0]) + EncodeFields(fields[1..])
  }

  /** The whole comment header, without the framing bit. */
  function Encode(vendor: seq<byte>, fields: seq<seq<byte>>): seq<byte> {
    Counted(vendor) + (ToLE(|fields|, 4) + EncodeFields(fields))
  }

  /** A header of two short strings, octet by octet. */
  lemma {:induction false} EncodedShort(vendor: seq<byte>, field: seq<byte>)
    requires |vendor| < 256 && |field| < 256
    ensures Encode(vendor, [field])
            == [|vendor|, 0, 0, 0] + vendor + [1, 0, 0, 0] + [|field|, 0, 0, 0] + field
  {
    FourOctets(|vendor|);
    FourOctets(1);
    FourOctets(|field|);
    hide ToLE;
    assert [field][1..] == [];
    assert EncodeFields([field]) == Counted(field) + EncodeFields([]) == [|field|, 0, 0, 0] + field;
  }

  lemma {:induction false} EncodeFieldsAppend(fields: seq<seq<byte>>, field: seq<byte>)
    ensures EncodeFields(fields + [field]) == EncodeFields(fields) + Counted(field)
    ensures |EncodeFields(fields)| >= 4 * |fields|
  {
    if fields == [] {
      assert [field][1..] == [];
      assert EncodeFields([field]) == Counted(field) + EncodeFields([]);
    } else {
      EncodeFieldsAppend(fields[1..], field);
      assert (fields + [field])[1..] == fields[1..] + [field];
      Assoc(Counted(fields[0]), EncodeFields(fields[1..]), Counted(field));
    }
  }

  // ----- Building -----

  class CommentBuffer {
    var comments: array<byte>
    ghost var vendor: seq<byte>
    ghost var fields: seq<seq<byte>>

    /** The buffer holds exactly the encoded vendor string and fields, and its length fits an `int`. */
    ghost predicate Valid()
      reads this, comments
    {
      comments[..] == Encode(vendor, fields) && comments.Length < TWO31
    }

    /** `comment_init`. */
    constructor (vendorString: seq<byte>)
      requires |vendorString| + 8 < TWO31
      ensures Valid() && vendor == vendorString && fields == [] && fresh(comments)
    {
      var p := new byte[8 + |vendorString|];
      WriteInt(p, 0, |vendorString|);
      assert p[..4] == ToLE(|vendorString|, 4);
      CopyIn(p, 4, vendorString);
      WriteInt(p, 4 + |vendorString|, 0);
      comments, vendor, fields := p, vendorString, [];
    }

    /** `comment_add`; without a tag the value stands alone. */
    method Add(tag: Option<seq<byte>>, val: seq<byte>)
      requires Valid() && comments.Length + 4 + (if tag.Some? then |tag.value| else 0) + |val| < TWO31
      modifies this
      ensures Valid() && fresh(comments) && vendor == old(vendor)
      ensures fields == old(fields) + [(if tag.Some? then tag.value else []) + val]
    {
      hide Encode, ReadInt, Counted, ToLE;
      var tagText := if tag.Some? then tag.value else [];
      EncodedAt(vendor, fields, comments[..]);
      var vendorLength := ReadInt(comments[..], 0);
      var count := ReadInt(comments[..], 4 + vendorLength);
      var length := comments.Length;
      var p := Grow(comments, length + 4 + |tagText| + |val|);
      ghost var b := comments[..];
      AppendField(p, length, tagText, val);
      ghost var field := tagText + val;
      WriteInt(p, 4 + vendorLength, count + 1);
      AddedField(vendor, fields, field, b);
      comments, fields := p, fields + [field];
    }
  }

  /** Stores a counted string, given in two parts, at the end of a buffer. */
  method AppendField(p: array<byte>, length: nat, tag: seq<byte>, val: seq<byte>)
    requires p.Length == length + 4 + |tag| + |val|
    modifies p
    ensures p[..] == old(p[..length]) + Counted(tag + val)
  {
    hide ToLE, Counted;
    ghost var front := p[..length];
    WriteInt(p, length, |tag| + |val|);
    ghost var n := ToLE(|tag| + |val|, 4);
    assert p[..length + 4] == front + n;
    CopyIn(p, length + 4, tag);
    assert p[..length + 4 + |tag|] == front + n + tag;
    CopyIn(p, length + 4 + |tag|, val);
    assert p[..] == p[..length + 4 + |tag| + |val|];
    TwoParts(front, tag, val);
  }

  lemma {:induction false} TwoParts(front: seq<byte>, tag: seq<byte>, val: seq<byte>)
    ensures front + ToLE(|tag| + |val|, 4) + tag + val == front + Counted(tag + val)
  {
    hide ToLE;
    var n := ToLE(|tag| + |val|, 4);
    Assoc(front + n, tag, val);
    Assoc(front, n, tag + val);
  }

  /** What an encoded buffer says of its vendor string and its number of fields. */
  lemma {:induction false} EncodedAt(vendor: seq<byte>, fields: seq<seq<byte>>, b: seq<byte>)
    requires b == Encode(vendor, fields) && |b| < TWO31
    ensures |b| >= 8 + |vendor| && ReadInt(b, 0) == |vendor| && ReadInt(b, 4 + |vendor|) == |fields| && |fields| < TWO31
  {
    hide ToLE, FromLE, Signed32;
    EncodeFieldsAppend(fields, []);
    assert b[0..4] == ToLE(|vendor|, 4);
    assert b[4 + |vendor|..8 + |vendor|] == ToLE(|fields|, 4);
    Signed32RoundTrip(|vendor|);
    Signed32RoundTrip(|fields|);
  }

  /** Appending a field and counting it. */
  lemma {:induction false} AddedField(vendor: seq<byte>, fields: seq<seq<byte>>, field: seq<byte>, b: seq<byte>)
    requires b == Encode(vendor, fields)
    ensures var b', at := b + Counted(field), 4 + |vendor|;
            at + 4 <= |b'| && b'[..at] + ToLE(|fields| + 1, 4) + b'[at + 4..] == Encode(vendor, fields + [field])
  {
    hide ToLE;
    EncodeFieldsAppend(fields, field);
    var b', at := b + Counted(field), 4 + |vendor|;
    assert b'[..at] == Counted(vendor);
    assert b'[at + 4..] == EncodeFields(fields) + Counted(field);
    Assoc(Counted(vendor), ToLE(|fields| + 1, 4), EncodeFields(fields) + Counted(field));
  }

  // ----- Walking -----

  /** The lines printed, whether the walk went through without the complaint about corruption, and where it ended. */
  datatype Walk = Walk(lines: seq<seq<byte>>, ok: bool, end: nat)

  /** The walk over `n` counted strings from position `at`. */
  function WalkFields(buf: seq<byte>, at: nat, n: int): (w: Walk)
    requires at <= |buf|
    ensures w.end <= |buf|
    decreases n
  {
    if n <= 0 then Walk([], true, at)
    else if at + 4 > |buf| then Walk([], false, at)
    else
      var len := ReadInt(buf, at);
      if len < 0 || at + 4 + len > |buf| then Walk([], false, at + 4) else
        var w := WalkFields(buf, at + 4 + len, n - 1);
        w.(lines := [buf[at + 4..at + 4 + len]] + w.lines)
  }

  function WalkAll(buf: seq<byte>): Walk {
    if |buf| < 8 then Walk([], false, 0) else
      var len := ReadInt(buf, 0);
      if len < 0 || 4 + len > |buf| then Walk([], false, 4)
      else if 4 + len + 4 > |buf| then Walk([buf[4..4 + len]], false, 4 + len)
      else
        var w := WalkFields(buf, 8 + len, ReadInt(buf, 4 + len));
        w.(lines := [buf[4..4 + len]] + w.lines)
  }

  /** `print_comments`: the lines it prints, and whether it complains. */
  method PrintComments(comments: array<byte>) returns (lines: seq<seq<byte>>, ok: bool, c: nat)
    ensures Walk(lines, ok, c) == WalkAll(comments[..])
  {
    hide ReadInt;
    lines, ok, c := [], false, 0;
    if comments.Length < 8 {
      return;
    }
    var end := comments.Length;
    var len := ReadInt(comments[..], 0);
    c := c + 4;
    if len < 0 || c + len > end {
      return;
    }
    lines := [comments[c..c + len]];
    c := c + len;
    if c + 4 > end {
      return;
    }
    var count := ReadInt(comments[..], c);
    c := c + 4;
    hide WalkFields;
    var more: seq<seq<byte>>;
    more, ok, c := PrintFields(comments, c, count);
    lines := lines + more;
  }

  /** The loop over the fields. */
  method PrintFields(comments: array<byte>, at: nat, count: int) returns (lines: seq<seq<byte>>, ok: bool, c: nat)
    requires at <= comments.Length
    ensures Walk(lines, ok, c) == WalkFields(comments[..], at, count)
  {
    hide ReadInt, WalkFields;
    lines, ok, c := [], false, at;
    ghost var buf := comments[..];
    ghost var goal := WalkFields(buf, at, count);
    var i := 0;
    while i < count
      invariant 0 <= i && c <= |buf|
      invariant goal == WalkFields(buf, c, count - i).(lines := lines + WalkFields(buf, c, count - i).lines)
    {
      WalkStops(buf, c, count - i, lines);
      if c + 4 > comments.Length {
        return;
      }
      var len := ReadInt(comments[..], c);
      if len < 0 || c + 4 + len > comments.Length {
        c := c + 4;
        return;
      }
      WalkOn(buf, c, count - i, lines);
      lines := lines + [comments[c + 4..c + 4 + len]];
      c := c + 4 + len;
      i := i + 1;
    }
    WalkStops(buf, c, count - i, lines);
    ok := true;
  }

  /** Where the walk ends. */
  lemma {:induction false} WalkStops(buf: seq<byte>, at: nat, n: int, before: seq<seq<byte>>)
    requires at <= |buf|
    ensures var w := WalkFields(buf, at, n);
            && (n <= 0 ==> w == Walk([], true, at))
            && (n > 0 && at + 4 > |buf| ==> w == Walk([], false, at))
            && (n > 0 && at + 4 <= |buf| && (ReadInt(buf, at) < 0 || at + 4 + ReadInt(buf, at) > |buf|)
                ==> w == Walk([], false, at + 4))
            && (w.lines == [] ==> before + w.lines == before)
  {
    hide ReadInt;
  }

  /** One field of the walk. */
  lemma {:induction false} WalkOn(buf: seq<byte>, at: nat, n: int, before: seq<seq<byte>>)
    requires n > 0 && at + 4 <= |buf| && ReadInt(buf, at) >= 0 && at + 4 + ReadInt(buf, at) <= |buf|
    ensures var len := ReadInt(buf, at);
            var w, w' := WalkFields(buf, at, n), WalkFields(buf, at + 4 + len, n - 1);
            w.(lines := before + w.lines) == w'.(lines := before + [buf[at + 4..at + 4 + len]] + w'.lines)
  {
    hide ReadInt;
    var len := ReadInt(buf, at);
    Assoc(before, [buf[at + 4..at + 4 + len]], WalkFields(buf, at + 4 + len, n - 1).lines);
  }

  // ----- Round trip -----

  /** A counted string is read back wherever it lies. */
  lemma {:induction false} CountedAt(before: seq<byte>, s: seq<byte>, rest: seq<byte>)
    requires |s| < TWO31
    ensures var buf, at := before + Counted(s) + rest, |before|;
            at + 4 + |s| <= |buf| && ReadInt(buf, at) == |s| && buf[at + 4..at + 4 + |s|] == s
  {
    hide ToLE, FromLE, Signed32;
    var buf, at := before + Counted(s) + rest, |before|;
    assert buf[at..at + 4] == ToLE(|s|, 4);
    Signed32RoundTrip(|s|);
  }

  lemma {:induction false} CountedSize(s: seq<byte>)
    ensures |Counted(s)| == 4 + |s|
  {
  }

  lemma {:induction false} WalkEncodedFields(before: seq<byte>, fields: seq<seq<byte>>, rest: seq<byte>)
    requires |EncodeFields(fields)| < TWO31
    ensures WalkFields(before + EncodeFields(fields) + rest, |before|, |fields|)
            == Walk(fields, true, |before + EncodeFields(fields)|)
    decreases |fields|
  {
    hide ReadInt, Counted;
    if fields != [] {
      var c, more := Counted(fields[0]), EncodeFields(fields[1..]);
      CountedSize(fields[0]);
      Assoc(before, c, more);
      Assoc(before + c, more, rest);
      CountedAt(before, fields[0], more + rest);
      WalkEncodedFields(before + c, fields[1..], rest);
      assert fields == [fields[0]] + fields[1..];
    }
  }

  /** The walk over a built header finds the vendor string and every field, in order, and ends with the header. */
  lemma {:induction false} WalkEncoded(vendor: seq<byte>, fields: seq<seq<byte>>, rest: seq<byte>)
    requires |Encode(vendor, fields)| < TWO31
    ensures WalkAll(Encode(vendor, fields) + rest) == Walk([vendor] + fields, true, |Encode(vendor, fields)|)
  {
    hide ReadInt, WalkFields, Encode, EncodeFields, Counted, ToLE;
    EncodedParts(vendor, fields, rest);
    CountedSize(vendor);
    WalkEncodedFields(Counted(vendor) + ToLE(|fields|, 4), fields, rest);
  }

  lemma {:induction false} EncodedParts(vendor: seq<byte>, fields: seq<seq<byte>>, rest: seq<byte>)
    requires |Encode(vendor, fields)| < TWO31
    ensures var buf, n := Encode(vendor, fields) + rest, |vendor|;
            && 8 + n <= |buf| && ReadInt(buf, 0) == n && buf[4..4 + n] == vendor && ReadInt(buf, 4 + n) == |fields|
            && Encode(vendor, fields) == Counted(vendor) + ToLE(|fields|, 4) + EncodeFields(fields)
            && |EncodeFields(fields)| < TWO31
  {
    hide ReadInt, EncodeFields, ToLE;
    var b := Encode(vendor, fields);
    EncodedAt(vendor, fields, b);
    ReadInPrefix(b, rest, 0);
    ReadInPrefix(b, rest, 4 + |vendor|);
    Assoc(Counted(vendor), ToLE(|fields|, 4), EncodeFields(fields));
  }

  lemma {:induction false} ReadInPrefix(b: seq<byte>, rest: seq<byte>, at: nat)
    requires at + 4 <= |b|
    ensures ReadInt(b + rest, at) == ReadInt(b, at)
  {
    assert (b + rest)[at..at + 4] == b[at..at + 4];
    hide ReadInt;
  }

  // ----- A header built and printed -----

  /** What is passed to `comment_add`: a tag, if any, and a value. */
  type Addition = (Option<seq<byte>>, seq<byte>)

  function FieldOf(addition: Addition): seq<byte> {
    (if addition.0.Some? then addition.0.value else []) + addition.1
  }

  function FieldsOf(additions: seq<Addition>): (fields: seq<seq<byte>>)
    ensures |fields| == |additions|
  {
    if |additions| == 0 then []
    else FieldsOf(additions[..|additions| - 1]) + [FieldOf(additions[|additions| - 1])]
  }

  /** What one addition adds to the header, and that no beginning is longer than the whole. */
  lemma {:induction false} EncodeGrows(vendor: seq<byte>, additions: seq<Addition>, i: nat)
    requires i <= |additions|
    ensures i < |additions| ==>
              && FieldsOf(additions[..i + 1]) == FieldsOf(additions[..i]) + [FieldOf(additions[i])]
              && |Encode(vendor, FieldsOf(additions[..i + 1]))|
                 == |Encode(vendor, FieldsOf(additions[..i]))| + 4 + |FieldOf(additions[i])|
    ensures |Encode(vendor, FieldsOf(additions[..i]))| <= |Encode(vendor, FieldsOf(additions))|
    decreases |additions| - i
  {
    hide ToLE, EncodeFields, FieldOf;
    if i < |additions| {
      assert additions[..i + 1][..i] == additions[..i];
      EncodeFieldsAppend(FieldsOf(additions[..i]), FieldOf(additions[i]));
      EncodeGrows(vendor, additions, i + 1);
    } else {
      assert additions[..i] == additions;
    }
  }

  /** What is added to a header is what is printed of it: the vendor string and every field, in order and without
      complaint. */
  method BuildAndPrint(vendor: seq<byte>, additions: seq<Addition>) returns (lines: seq<seq<byte>>, ok: bool)
    requires |Encode(vendor, FieldsOf(additions))| < TWO31
    ensures ok && lines == [vendor] + FieldsOf(additions)
  {
    hide Encode, FieldsOf;
    EncodeGrows(vendor, additions, 0);
    NoFields(vendor, additions);
    var buffer := new CommentBuffer(vendor);
    for i := 0 to |additions|
      invariant fresh(buffer) && fresh(buffer.comments) && buffer.Valid()
      invariant buffer.vendor == vendor && buffer.fields == FieldsOf(additions[..i])
    {
      EncodeGrows(vendor, additions, i);
      EncodeGrows(vendor, additions, i + 1);
      buffer.Add(additions[i].0, additions[i].1);
    }
    assert additions[..|additions|] == additions;
    WalkEncoded(vendor, FieldsOf(additions), []);
    assert buffer.comments[..] + [] == buffer.comments[..];
    var c;
    lines, ok, c := PrintComments(buffer.comments);
  }

  lemma {:induction false} NoFields(vendor: seq<byte>, additions: seq<Addition>)
    ensures FieldsOf(additions[..0]) == [] && |Encode(vendor, [])| == 8 + |vendor|
  {
  }

  // ----- Acceptance -----

  lemma {:induction false} ToFromLE(s: seq<byte>)
    ensures ToLE(FromLE(s), |s|) == s
  {
    if s != [] {
      ToFromLE(s[1..]);
      var x := FromLE(s);
      assert x % 256 == s[0] && x / 256 == FromLE(s[1..]);
      hide FromLE;
      assert s == [s[0]] + s[1..];
    }
  }

  lemma {:induction false} FromLEBound(s: seq<byte>)
    ensures FromLE(s) < Pow256(|s|)
  {
    if s != [] {
      FromLEBound(s[1..]);
    }
  }

  lemma {:induction false} CountRead(buf: seq<byte>, at: nat)
    requires at + 4 <= |buf| && ReadInt(buf, at) >= 0
    ensures ToLE(ReadInt(buf, at), 4) == buf[at..at + 4]
  {
    hide ToLE, FromLE;
    ToFromLE(buf[at..at + 4]);
    FromLEBound(buf[at..at + 4]);
    Pow256Values();
  }

  /** A counted string that was read could have been written. */
  lemma {:induction false} ReadCounted(buf: seq<byte>, at: nat)
    requires at + 4 <= |buf| && 0 <= ReadInt(buf, at) && at + 4 + ReadInt(buf, at) <= |buf|
    ensures var len := ReadInt(buf, at); buf[at..at + 4 + len] == Counted(buf[at + 4..at + 4 + len])
  {
    hide ToLE, ReadInt;
    CountRead(buf, at);
    var len := ReadInt(buf, at);
    assert buf[at..at + 4 + len] == buf[at..at + 4] + buf[at + 4..at + 4 + len];
  }

  lemma {:induction false} WalkedFields(buf: seq<byte>, at: nat, n: int)
    requires at <= |buf| && n >= 0 && WalkFields(buf, at, n).ok
    ensures var w := WalkFields(buf, at, n); |w.lines| == n && at <= w.end && buf[at..w.end] == EncodeFields(w.lines)
    decreases n
  {
    hide ReadInt, Counted;
    if n > 0 {
      var len := ReadInt(buf, at);
      var w := WalkFields(buf, at + 4 + len, n - 1);
      ReadCounted(buf, at);
      WalkedFields(buf, at + 4 + len, n - 1);
      assert buf[at..w.end] == buf[at..at + 4 + len] + buf[at + 4 + len..w.end];
      assert ([buf[at + 4..at + 4 + len]] + w.lines)[1..] == w.lines;
    }
  }

  /** A walk without complaint that met a non-negative count has read exactly a header that could have been
      built from the lines it printed; with a negative count it prints the vendor string and stops. */
  lemma {:induction false} AcceptedIsEncoded(buf: seq<byte>)
    requires WalkAll(buf).ok
    ensures var w := WalkAll(buf);
            && w.lines != [] && 8 + |w.lines[0]| <= |buf|
            && (if ReadInt(buf, 4 + |w.lines[0]|) >= 0 then buf[..w.end] == Encode(w.lines[0], w.lines[1..])
                else |w.lines| == 1 && buf[..w.end] == Counted(w.lines[0]) + buf[4 + |w.lines[0]|..8 + |w.lines[0]|])
  {
    hide ReadInt, Counted;
    var len := ReadInt(buf, 0);
    var vendor := buf[4..4 + len];
    ReadCounted(buf, 0);
    assert buf[0..4 + len] == buf[..4 + len];
    var n, w := ReadInt(buf, 4 + len), WalkFields(buf, 8 + len, ReadInt(buf, 4 + len));
    if n >= 0 {
      WalkedFields(buf, 8 + len, n);
      CountRead(buf, 4 + len);
      assert buf[..w.end] == buf[..4 + len] + (buf[4 + len..8 + len] + buf[8 + len..w.end]);
      assert ([vendor] + w.lines)[1..] == w.lines;
    } else {
      assert buf[..8 + len] == buf[..4 + len] + buf[4 + len..8 + len];
    }
  }
}
