/** The Ogg page: header layout, accessors and checksum. */
module OggPage {
  import opened Bytes
  import Crc

  /** `ogg_page`, copied out of the buffers that the C struct points into. */
  datatype Page = Page(header: seq<byte>, body: seq<byte>)

  const CAPTURE: seq<byte> := [79, 103, 103, 83]  // "OggS"
  const HEADER_BASE := 27

  // ----- Accessors -----

  predicate HasHeader(p: Page) {
    |p.header| >= HEADER_BASE && |p.header| == HEADER_BASE + p.header[26]
  }

  /** What `ogg_sync_pageseek` guarantees of the pages it hands out. */
  predicate WellFormed(p: Page) {
    HasHeader(p) && |p.body| == Sum(Lens(p))
  }

  function Version(p: Page): byte requires HasHeader(p) { p.header[4] }
  predicate Continued(p: Page) requires HasHeader(p) { p.header[5] % 2 == 1 }
  predicate Bos(p: Page) requires HasHeader(p) { p.header[5] / 2 % 2 == 1 }
  predicate Eos(p: Page) requires HasHeader(p) { p.header[5] / 4 % 2 == 1 }
  function Granulepos(p: Page): int requires HasHeader(p) { Signed64(FromLE(p.header[6..14])) }
  function Serialno(p: Page): int requires HasHeader(p) { Signed32(FromLE(p.header[14..18])) }
  function Pageno(p: Page): int requires HasHeader(p) { Signed32(FromLE(p.header[18..22])) }

  /** The segment table. */
  function Lens(p: Page): seq<byte> requires HasHeader(p) { p.header[27..] }

  /** The number of segments that end a packet. */
  function Ended(lens: seq<byte>): nat {
    if |lens| == 0 then 0 else Ended(lens[..|lens| - 1]) + if lens[|lens| - 1] < 255 then 1 else 0
  }

  /** `ogg_page_packets`. */
  method PagePackets(p: Page) returns (count: nat)
    requires HasHeader(p)
    ensures count == Ended(Lens(p))
  {
    var n := p.header[26];
    count := 0;
    for i := 0 to n
      invariant count == Ended(Lens(p)[..i])
    {
      assert Lens(p)[..i + 1][..i] == Lens(p)[..i];
      if p.header[27 + i] < 255 {
        count := count + 1;
      }
    }
    assert Lens(p)[..n] == Lens(p);
  }

  // ----- Checksum -----

  /** The header with its checksum field cleared. */
  function Cleared(header: seq<byte>): (h: seq<byte>)
    requires |header| >= HEADER_BASE
    ensures |h| == |header|
  {
    header[..22] + [0, 0, 0, 0] + header[26..]
  }

  function Checksum(header: seq<byte>, body: seq<byte>): seq<byte>
    requires |header| >= HEADER_BASE
  {
    Crc.CrcBytes(Crc.CrcFrom(0, Cleared(header) + body))
  }

  function WithChecksum(header: seq<byte>, body: seq<byte>): (h: seq<byte>)
    requires |header| >= HEADER_BASE
    ensures |h| == |header|
  {
    header[..22] + Checksum(header, body) + header[26..]
  }

  lemma CrcNone(crc: bv32)
    ensures Crc.CrcFrom(crc, []) == crc
  {
  }

  lemma {:induction false} CrcNext(crc: bv32, s: seq<byte>, b: byte)
    ensures Crc.CrcFrom(crc, s + [b]) == Crc.Step(Crc.CrcFrom(crc, s), b)
  {
    hide Crc.Step;
    assert (s + [b])[..|s|] == s;
  }

  /** Runs the checksum loop over `n` octets of a buffer. */
  method UpdateCrc(crc: bv32, data: array<byte>, at: nat, n: nat) returns (r: bv32)
    requires at + n <= data.Length
    ensures r == Crc.CrcFrom(crc, data[at..at + n])
  {
    hide Crc.CrcFrom, Crc.Step;
    r := crc;
    CrcNone(crc);
    assert data[at..at + 0] == [];
    for i := 0 to n
      invariant r == Crc.CrcFrom(crc, data[at..at + i])
    {
      assert data[at..at + i + 1] == data[at..at + i] + [data[at + i]];
      CrcNext(crc, data[at..at + i], data[at + i]);
      r := Crc.Step(r, data[at + i]);
    }
  }

  /** Overwrites four octets. */
  method Store(data: array<byte>, at: nat, field: seq<byte>)
    requires |field| == 4 && at + 4 <= data.Length
    modifies data
    ensures data[..] == old(data[..at]) + field + old(data[at + 4..])
  {
    data[at] := field[0];
    data[at + 1] := field[1];
    data[at + 2] := field[2];
    data[at + 3] := field[3];
  }

  /** Overwriting the field in the buffer overwrites it in the header. */
  lemma {:induction false} FieldInBuffer(buffer: seq<byte>, at: nat, n: nat, field: seq<byte>)
    requires n >= HEADER_BASE && at + n <= |buffer| && |field| == 4
    ensures var header := buffer[at..at + n];
            buffer[..at + 22] + field + buffer[at + 26..]
            == buffer[..at] + (header[..22] + field + header[26..]) + buffer[at + n..]
  {
    var header := buffer[at..at + n];
    assert buffer[..at + 22] == buffer[..at] + header[..22];
    assert buffer[at + 26..] == header[26..] + buffer[at + n..];
  }

  /** `ogg_page_checksum_set`: the page's header lies at `data[at..]`, its body at `bodyData[bodyAt..]`. */
  method ChecksumSet(data: array<byte>, at: nat, headerLen: nat, bodyData: array<byte>, bodyAt: nat, bodyLen: nat)
    requires headerLen >= HEADER_BASE && at + headerLen <= data.Length && bodyAt + bodyLen <= bodyData.Length
    requires data == bodyData ==> bodyAt + bodyLen <= at + 22 || at + 26 <= bodyAt
    modifies data
    ensures data[..] == old(data[..at])
                        + WithChecksum(old(data[at..at + headerLen]), old(bodyData[bodyAt..bodyAt + bodyLen]))
                        + old(data[at + headerLen..])
  {
    hide Crc.CrcFrom, Crc.CrcBytes;
    ghost var buffer, header := data[..], data[at..at + headerLen];
    ghost var body := bodyData[bodyAt..bodyAt + bodyLen];
    Store(data, at + 22, [0, 0, 0, 0]);
    FieldInBuffer(buffer, at, headerLen, [0, 0, 0, 0]);
    ghost var zeroed := data[..];
    assert data[at..at + headerLen] == zeroed[at..at + headerLen] == Cleared(header);
    assert bodyData[bodyAt..bodyAt + bodyLen] == body by {
      if data == bodyData {
        assert data[bodyAt..bodyAt + bodyLen] == zeroed[bodyAt..bodyAt + bodyLen];
      }
    }
    var crc := UpdateCrc(0, data, at, headerLen);
    crc := UpdateCrc(crc, bodyData, bodyAt, bodyLen);
    Crc.CrcFromAppend(0, Cleared(header), body);
    Store(data, at + 22, Crc.CrcBytes(crc));
    FieldInBuffer(zeroed, at, headerLen, Crc.CrcBytes(crc));
    assert zeroed[..at] == buffer[..at] && zeroed[at + headerLen..] == buffer[at + headerLen..];
    assert Cleared(header)[..22] == header[..22] && Cleared(header)[26..] == header[26..];
  }

  // ----- Building a page -----

  function Flags(continued: bool, bos: bool, eos: bool): byte {
    (if continued then 1 else 0) + (if bos then 2 else 0) + (if eos then 4 else 0)
  }

  /** The header up to the checksum field. */
  function HeaderFront(flags: byte, granulepos: int, serialno: int, pageno: int): (h: seq<byte>)
    ensures |h| == 22
  {
    CAPTURE + [0, flags] + ToLE(granulepos, 8) + ToLE(serialno, 4) + ToLE(pageno, 4)
  }

  /** The header before its checksum is known. */
  function Header(flags: byte, granulepos: int, serialno: int, pageno: int, lens: seq<byte>): (h: seq<byte>)
    requires |lens| <= 255
    ensures |h| == HEADER_BASE + |lens|
  {
    HeaderFront(flags, granulepos, serialno, pageno) + [0, 0, 0, 0] + [|lens|] + lens
  }

  function MakePage(continued: bool, bos: bool, eos: bool, granulepos: int, serialno: int, pageno: int,
                    lens: seq<byte>, body: seq<byte>): Page
    requires |lens| <= 255
  {
    Page(WithChecksum(Header(Flags(continued, bos, eos), granulepos, serialno, pageno, lens), body), body)
  }

  lemma {:induction false} PageBuilt(continued: bool, bos: bool, eos: bool, granulepos: int, serialno: int, pageno: int,
                                     lens: seq<byte>, body: seq<byte>)
    requires |lens| <= 255
    ensures MakePage(continued, bos, eos, granulepos, serialno, pageno, lens, body)
            == Page(WithChecksum(Header(Flags(continued, bos, eos), granulepos, serialno, pageno, lens), body), body)
  {
    hide WithChecksum, Header, Flags;
  }

  /** Each accessor reads back what the header was built from; granule position, serial number and page
      number survive exactly when they fit the field's signed width. */
  lemma {:induction false} MakePageFields(continued: bool, bos: bool, eos: bool, granulepos: int, serialno: int, pageno: int,
                       lens: seq<byte>, body: seq<byte>)
    requires |lens| <= 255 && |body| == Sum(lens)
    ensures var p := MakePage(continued, bos, eos, granulepos, serialno, pageno, lens, body);
            && p.body == body && WellFormed(p) && p.header[..4] == CAPTURE && Version(p) == 0 && Lens(p) == lens
            && Continued(p) == continued && Bos(p) == bos && Eos(p) == eos
            && (Granulepos(p) == granulepos <==> Int64(granulepos))
            && (Serialno(p) == serialno <==> Int32(serialno))
            && (Pageno(p) == pageno <==> Int32(pageno))
  {
    var flags := Flags(continued, bos, eos);
    FlagBits(continued, bos, eos);
    hide ToLE, FromLE, Int32, Int64, Signed32, Signed64, Header, WithChecksum, Sum, Flags;
    HeaderLayout(flags, granulepos, serialno, pageno, lens);
    ChecksumLayout(Header(flags, granulepos, serialno, pageno, lens), body);
    Signed64RoundTrip(granulepos);
    Signed32RoundTrip(serialno);
    Signed32RoundTrip(pageno);
  }

  lemma FlagBits(continued: bool, bos: bool, eos: bool)
    ensures var f := Flags(continued, bos, eos);
            (f % 2 == 1) == continued && (f / 2 % 2 == 1) == bos && (f / 4 % 2 == 1) == eos
  {
  }

  lemma {:induction false} HeaderLayout(flags: byte, granulepos: int, serialno: int, pageno: int, lens: seq<byte>)
    requires |lens| <= 255
    ensures var h := Header(flags, granulepos, serialno, pageno, lens);
            && h[..4] == CAPTURE && h[4] == 0 && h[5] == flags
            && h[6..14] == ToLE(granulepos, 8) && h[14..18] == ToLE(serialno, 4) && h[18..22] == ToLE(pageno, 4)
            && h[26] == |lens| && h[27..] == lens
  {
    hide ToLE;
  }

  /** Storing the checksum leaves the other fields alone. */
  lemma {:induction false} ChecksumLayout(h: seq<byte>, body: seq<byte>)
    requires |h| >= HEADER_BASE
    ensures var h' := WithChecksum(h, body);
            && h'[..4] == h[..4] && h'[4] == h[4] && h'[5] == h[5]
            && h'[6..14] == h[6..14] && h'[14..18] == h[14..18] && h'[18..22] == h[18..22]
            && h'[26] == h[26] && h'[27..] == h[27..]
  {
    hide Crc.CrcFrom, Crc.CrcBytes;
  }

  /** Storing the checksum does not change what it is computed from. */
  lemma {:induction false} ChecksumStored(h: seq<byte>, body: seq<byte>)
    requires |h| >= HEADER_BASE
    ensures var h' := WithChecksum(h, body); Cleared(h') == Cleared(h) && h'[22..26] == Checksum(h, body)
  {
    hide Crc.CrcFrom, Crc.CrcBytes;
  }

  /** A built page carries the checksum of its own content. */
  lemma {:induction false} MakePageChecksum(continued: bool, bos: bool, eos: bool, granulepos: int, serialno: int, pageno: int,
                         lens: seq<byte>, body: seq<byte>)
    requires |lens| <= 255
    ensures var p := MakePage(continued, bos, eos, granulepos, serialno, pageno, lens, body);
            p.header[22..26] == Checksum(p.header, p.body)
  {
    hide Header, Flags, WithChecksum, Cleared, Crc.CrcFrom, Crc.CrcBytes;
    ChecksumStored(Header(Flags(continued, bos, eos), granulepos, serialno, pageno, lens), body);
  }

  /** The octets of the checksum field, fed last first behind the page with the field cleared, bring the register back
      to zero, and no other four do. */
  lemma {:induction false} FieldClears(header: seq<byte>, body: seq<byte>, field: seq<byte>)
    requires |header| >= HEADER_BASE && |field| == 4
    ensures var cleared := header[..22] + [0, 0, 0, 0] + header[26..] + body;
            Crc.CrcFrom(0, cleared + [field[3], field[2], field[1], field[0]]) == 0 <==> field == Checksum(header, body)
  {
    hide Crc.CrcFrom, Crc.CrcBytes;
    var cleared := header[..22] + [0, 0, 0, 0] + header[26..] + body;
    Crc.CrcFromAppend(0, cleared, [field[3], field[2], field[1], field[0]]);
    Crc.StoredOrder(Crc.CrcFrom(0, cleared), field);
  }

  /** The layout of section 6 of RFC 3533, offset by offset. */
  lemma {:induction false} MakePageLayout(continued: bool, bos: bool, eos: bool, granulepos: int, serialno: int, pageno: int,
                                          lens: seq<byte>, body: seq<byte>)
    requires |lens| <= 255
    ensures var h := MakePage(continued, bos, eos, granulepos, serialno, pageno, lens, body).header;
            && |h| == 27 + |lens| && h[0] == 'O' as int && h[1] == 'g' as int && h[2] == 'g' as int && h[3] == 'S' as int
            && h[4] == 0 && h[5] == (if continued then 1 else 0) + (if bos then 2 else 0) + (if eos then 4 else 0)
            && h[6..14] == ToLE(granulepos, 8) && h[14..18] == ToLE(serialno, 4) && h[18..22] == ToLE(pageno, 4)
            && h[26] == |lens| && h[27..] == lens
  {
    hide ToLE, Header, WithChecksum;
    var flags := Flags(continued, bos, eos);
    HeaderLayout(flags, granulepos, serialno, pageno, lens);
    var h := Header(flags, granulepos, serialno, pageno, lens);
    ChecksumLayout(h, body);
    assert h[..4] == WithChecksum(h, body)[..4];
    FourAlike(WithChecksum(h, body));
  }

  lemma {:induction false} FourAlike(h: seq<byte>)
    requires |h| >= 4 && h[..4] == CAPTURE
    ensures h[0] == 'O' as int && h[1] == 'g' as int && h[2] == 'g' as int && h[3] == 'S' as int
  {
    assert h[0] == h[..4][0] && h[1] == h[..4][1] && h[2] == h[..4][2] && h[3] == h[..4][3];
  }

  /** The page number a decoder expects next, `n + 1` read through a signed 32-bit field, is the number
      it will read, except where the counter passes from 2^31 - 1 to 2^31 (modulo 2^32). */
  lemma PagenoSequence(n: nat)
    ensures Signed32(FromLE(ToLE(n, 4))) + 1 == Signed32(FromLE(ToLE(n + 1, 4))) <==> (n + 1) % TWO32 != TWO31
    ensures (n + 1) % TWO32 == TWO31 ==> Signed32(FromLE(ToLE(n, 4))) == TWO31 - 1
  {
    hide ToLE, FromLE;
    Pow256Values();
    var q := FromToLE(n, 4);
    var q' := FromToLE(n + 1, 4);
    var x, x' := FromLE(ToLE(n, 4)), FromLE(ToLE(n + 1, 4));
    assert n == q * TWO32 + x && n + 1 == q' * TWO32 + x';
    assert x' == if x == TWO32 - 1 then 0 else x + 1;
    assert (n + 1) % TWO32 == x';
  }
}
