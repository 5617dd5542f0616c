# Ogg framing, bit packing, option scanning, comment headers and UTF-8: a verified model

A Dafny 4.11 model of the code in MediaWS that moves bytes between layers, with proofs of what that code is for.

* **Ogg framing** (`framing.c`; sections 5 and 6 of RFC 3533). The encoder cuts packets into lacing segments and
  decides what goes on each page; the page buffer finds pages in an arbitrary octet stream; the decoder rebuilds the
  packets and marks the gaps. Each of the three is modelled twice: as a class over arrays with the fields of
  `ogg_stream_state` and `ogg_sync_state`, whose methods move, grow and patch the buffers in place (`StreamState`,
  `SyncState`), and as a function on values (`Encoder`, `Sync`, `Decoder`). The contracts of the methods equate the two;
  the whole-run theorems are about the functions. `Transmission` drives the objects together.
* **Bit packer** (`bitwise.c`; section 2 of the Vorbis I specification), least and most significant bit first:
  `Packing` says what the stores and the assembled words mean bit by bit, `BitPacker` is the buffer, `BitRuns` are the
  whole-run theorems.
* **GNU getopt's scan** (`getopt.c`): `OptionScan` is the scan on lists and its left-to-right references, `Getopt` the
  static state and the argv array that is permuted in place, `OptionRules` what each character of the option string
  means for a call, `OptionPrefix` the option string's leading '-' or '+', `OptionFaults` the calls that the code
  leaves undefined.
* **Speex comment headers** (`speexenc.c`, `speexdec.c`; section 5 of the Vorbis I specification): `Comments`,
  and `CommentFaults` for headers that are cut short or corrupt.
* **UTF-8 macros** (`common.h`; section 3 of RFC 3629, with the longer forms of section 2 of RFC 2279): `Utf8`.

`dafny verify dfyconfig.toml` checks the whole project.

## How the proofs are organised

`Segments`, `Framing` and `Lacings` define lacing, pages in sequence, and how the parallel arrays read as segments.
`EncoderRuns` carries an invariant through every run of the encoder; `Emission` says from the segment table alone when
a page is emitted and where it ends. `SyncReports` says what is found, skipped and reported of arbitrary octets.
`Delivery` defines, without the decoder, which packets survive when some segments are lost; `Loss` and `Reception`
show that the decoder returns those, with the gaps in their places; `RoundTrip`, `LastFlags` and `GranulePositions`
add flags and granule positions; `Pipeline` puts the octet stream in between, and `Channel` damage, garbage and other
streams. `StreamFields` and `DecodeFields` connect the fields of the object with the values. `Crc` holds the checksum:
the table, the bit-serial division it stands for, and the burst argument.

## What the code does, where its comments or its intent say otherwise

* The first page of a stream carries granule position 0 whatever packet ends on it (`framing.c:388-389`), and a packet
  that does not end last on its page comes back with granule position -1. `GranulePositions.GranuleSeen` says what each
  packet arrives with and `GranulePositions.OwnGranule` exactly when that is its own; `GranulePositions.PositionsLost` is a
  run of three packets of which only the last keeps its position.
* A page number is read through a 32-bit `int` (`framing.c:65-70`), so the decoder sees a gap where the counter passes
  2^31. `OggPage.PagenoSequence` gives the exact condition on the numbers, `Decoder.GapWherePagenoJumps` on the decoder;
  the theorems over runs are for fewer pages.
* The decoder takes the continued flag on trust where it cannot be right: a page that claims to begin a packet is
  appended to an unfinished one, and a page that claims to continue one where none is unfinished is stored whole if the
  last entry held is something other than an unflagged gap marker, but skipped once the entries held have been taken
  (`framing.c:856-905`). `Foreign.HonestExact` says exactly when a page is
  read otherwise than its flag says, `Foreign.Spliced` and `Foreign.DrainMatters` what comes out then, `Foreign.TwoPages`
  is a stream of two pages that comes back as one packet of both, and `Foreign.EncodedReadRight` that no page of an
  encoder is misread.
* `oggpack_writecopy` at an octet boundary never grows its buffer: the test at `bitwise.c:202` follows from the one at
  199, so the buffer is cleared instead. `BitPacker.OggPackBuffer.WriteCopy` and `BitRuns.CopyIntoFresh` say exactly when.
* Only the first call of `getopt` strips the leading '-' or '+' of the option string (`getopt.c:522`); later calls take
  that character for an option, and look for a ':' behind it in vain. `OptionPrefix.LaterCalls` says exactly in which states
  that changes what a call returns, `OptionPrefix.HarmlessExact` for which option strings it never does. With "+a" and the
  element "-a+", the second call returns '+' instead of an error (`OptionPrefix.PrefixTakenForOption`).
* `getopt` passes no table of long options (`getopt.c:962-974`), but an option string with "W;" makes it look an argument up
  there, and an option character 0xff is returned as -1, as the end is. `OptionFaults.SafeExact` says for exactly which option
  strings every call is defined; `OptionFaults.NullTableRead` and `NegativeCharacter` are inputs where one is not. The
  contracts of `Getopt.GetoptState.Next` and the loops over it require the calls made to be defined.
* `oggpack_adv` with a negative width lands one octet too far when it moves back over an octet boundary and does not end at
  one: the octet is counted by truncating, the bit by masking (`bitwise.c:343-345`). `BitPacker.OggPackBuffer.Adv` says
  exactly when.
* `GET_UTF8` accepts octets that `PUT_UTF8` never writes. `Utf8.AcceptedExact` says exactly which strings are accepted, and
  `Utf8.CanonicalExact` exactly which of them are encodings: those in the shortest form and of six octets at most.
  `Utf8.OverlongAccepted` and `Utf8.SevenAccepted` are inputs that are not.

## Model

| member | source | states |
|---|---|---|
| Bytes.Signed32RoundTrip | MediaWS/OggLib/OggLib/framing.c:58-70 | a serial or page number read back from its four octets is the one written, exactly when it fits a signed 32-bit int |
| Bytes.Signed64RoundTrip | MediaWS/OggLib/OggLib/framing.c:45-56 | the same for granule positions and 64 bits |
| Bytes.FourOctets | MediaWS/OggLib/OggLib/framing.c:447-470 | a number's field holds its digits to base 256, least significant first |
| Bytes.EightOctets | MediaWS/OggLib/OggLib/framing.c:441-446 | the same for the eight octets of a granule position |
| Bytes.FourDigits | MediaWS/OggLib/OggLib/framing.c:58-70 | and those digits are what is read back |
| Crc.LookupCorrect | MediaWS/OggLib/OggLib/framing.c:103-184 | each of the 256 table entries is its index shifted through the generator polynomial eight times |
| Crc.TableIsDivision | MediaWS/OggLib/OggLib/framing.c:291-294 | the table-driven loop is bit-by-bit division by 0x04c11db7, for every message and start register |
| Crc.CrcLinear | MediaWS/OggLib/OggLib/framing.c:291-294 | the checksum of an xor of equally long messages is the xor of their checksums |
| Crc.CrcFromInjective | MediaWS/OggLib/OggLib/framing.c:291-294 | different registers stay different under the same further octets |
| Crc.FourSteps | MediaWS/OggLib/OggLib/framing.c:291-294 | four octets enter the register as one 32-bit word |
| Crc.BurstDetected | MediaWS/OggLib/OggLib/framing.c:291-294 | messages differing only inside four consecutive octets have different registers, whatever surrounds them |
| Crc.CrcBytesInjective | MediaWS/OggLib/OggLib/framing.c:296-299 | the four stored octets determine the register |
| Crc.StoredOrder | MediaWS/OggLib/OggLib/framing.c:296-299 | the four stored octets, fed to the loop last first, clear the register, for every register, and no other four do: they stand least significant first |
| OggPage.PagePackets | MediaWS/OggLib/OggLib/framing.c:91-96 | counts the segments that end a packet |
| OggPage.ChecksumSet | MediaWS/OggLib/OggLib/framing.c:280-302 | in place, the checksum of cleared header and body replaces the field and nothing else changes, also when header and body share the buffer, as long as the field lies outside the body |
| OggPage.FieldClears | MediaWS/OggLib/OggLib/framing.c:280-302 | the checksum field is right exactly if its octets, last first, bring the register to 0 behind the page with the field cleared |
| OggPage.MakePageFields | MediaWS/OggLib/OggLib/framing.c:29-70 | every accessor reads back what the header was built from; the numbers exactly when they fit their fields |
| OggPage.MakePageLayout | MediaWS/OggLib/OggLib/framing.c:426-481 | pattern, version, flag bits, numbers and segment table at their offsets, as section 6 of RFC 3533 lays them out |
| OggPage.MakePageChecksum | MediaWS/OggLib/OggLib/framing.c:483-498 | a built page carries the checksum of its own content |
| OggPage.PagenoSequence | MediaWS/OggLib/OggLib/framing.c:65-70 | page n + 1 is the one expected after page n, exactly except where the counter passes 2^31 modulo 2^32 |
| Segments.ChunksJoin | MediaWS/OggLib/OggLib/framing.c:304-360 | a packet's segments are full except the last, which has the remainder (0 for a multiple of 255), and join to the packet |
| Segments.PacketSegmentsShape | MediaWS/OggLib/OggLib/framing.c:341-351 | only the last segment ends the packet and only the first is flagged as its beginning |
| Segments.SplitUnique | MediaWS/OggLib/OggLib/framing.c:790-916 | cutting a body along its segment table recovers the segments it was joined from |
| StreamFields.PacketLacingSegments | MediaWS/OggLib/OggLib/framing.c:341-351 | the lacing and granule values stored for a packet, read with its octets, are the packet's segments |
| StreamFields.AppendPacketFields | MediaWS/OggLib/OggLib/framing.c:304-360 | appending octets, lacing and granule values to the buffers appends the packet's segments to the stream |
| StreamFields.TakeFields | MediaWS/OggLib/OggLib/framing.c:488-493 | moving the arrays down and the body index up drops exactly the segments that went on the page |
| StreamFields.ChooseSegments | MediaWS/OggLib/OggLib/framing.c:384-424 | the two selection loops stop where the first packet ends, or at the first nominal stop, or after 255 segments, and find the granule position of the last packet to end |
| StreamFields.WriteLE | MediaWS/OggLib/OggLib/framing.c:441-470 | the shift loops store a number's low octets, least significant first |
| StreamState.OggStreamState.constructor | MediaWS/OggLib/OggLib/framing.c:188-208 | an initialised stream is the initial state of encoder and decoder |
| StreamState.OggStreamState.Reset | MediaWS/OggLib/OggLib/framing.c:930-949 | a reset stream is the initial state with page number -1, whatever it held |
| StreamState.OggStreamState.BodyExpand | MediaWS/OggLib/OggLib/framing.c:239-252 | room for the octets needed, contents kept |
| StreamState.OggStreamState.LacingExpand | MediaWS/OggLib/OggLib/framing.c:254-275 | the same for the two lacing arrays |
| StreamState.OggStreamState.StoreLacing | MediaWS/OggLib/OggLib/framing.c:341-351 | the lacing and granule values of a packet follow those already stored |
| StreamState.OggStreamState.IovecIn | MediaWS/OggLib/OggLib/framing.c:304-360 | the object after submitting a packet in any number of vectors is the value state after `Encoder.PacketIn` of their concatenation |
| StreamState.OggStreamState.BuildHeader | MediaWS/OggLib/OggLib/framing.c:426-481 | flags, granule position, numbers and segment table are laid out in the header buffer as section 6 of RFC 3533 says |
| StreamState.OggStreamState.TakePage | MediaWS/OggLib/OggLib/framing.c:426-500 | the page built in place carries the first segments and their octets, and the arrays keep the rest |
| StreamState.OggStreamState.FlushI | MediaWS/OggLib/OggLib/framing.c:372-501 | object state and page are those of `Encoder.Flush`, forced or not |
| StreamState.OggStreamState.PageOutFill | MediaWS/OggLib/OggLib/framing.c:548-557 | the same for `ogg_stream_pageout_fill`, which forces the first page and pages after the end of the stream |
| Encoder.FlushEmits | MediaWS/OggLib/OggLib/framing.c:372-501 | a page takes between 1 and 255 segments, carries exactly their octets, and its fields say whether it continues, begins or ends the stream |
| EncoderRuns.RunReached | MediaWS/OggLib/OggLib/framing.c:304-557 | over every run of submissions and page requests: pages numbered in sequence, checksummed, continued exactly after an open page; a page ends mid-packet only when full; the granule position is that of the last packet to end, -1 if none does, 0 on the first page; segments conserved |
| EncoderRuns.BodiesConserved | MediaWS/OggLib/OggLib/framing.c:304-501 | page bodies followed by pending segments are the packets' octets in order; packets counted on pages plus pending ones are those submitted |
| EncoderRuns.FlushProgress | MediaWS/OggLib/OggLib/framing.c:517-519 | a forced flush emits a page exactly when something is pending, and takes at least one segment |
| EncoderRuns.FlushesDrain | MediaWS/OggLib/OggLib/framing.c:503-519 | from any point of any run finitely many flushes put every packet on a page |
| EncoderRuns.UnforcedPage | MediaWS/OggLib/OggLib/framing.c:393-424 | a page nobody forced is full, or ends on a packet boundary with four packets or more and more than the nominal size |
| Emission.FlushExact | MediaWS/OggLib/OggLib/framing.c:372-424 | a flush emits a page exactly if something is pending and it is forced, or a page was out and 255 segments are pending or some place before the last and the 255th has more than the nominal size and the end of a fourth or later packet; the page ends at the first such place, or at the first packet's end on the first page, and nothing else of the state changes |
| Emission.PageOutExact | MediaWS/OggLib/OggLib/framing.c:548-557 | the same for `ogg_stream_pageout_fill`, which is forced exactly once the end was announced or while no page is out |
| Emission.TriesDrain | MediaWS/OggLib/OggLib/framing.c:521-557 | once the end was announced, from any point of any run finitely many calls put every packet on a page |
| Emission.RunCounters | MediaWS/OggLib/OggLib/framing.c:341-357 | in every run the packet counter is the number of packets submitted, and the position kept is the last one's |
| Sync.JudgeStable | MediaWS/OggLib/OggLib/framing.c:659-744 | what is decided about the octets at hand stays decided when more arrive |
| Sync.PageOutScan | MediaWS/OggLib/OggLib/framing.c:757-785 | each call takes from the whole-string scan exactly the page it returns, whatever follows |
| Sync.ChunkIndependence | MediaWS/OggLib/OggLib/framing.c:610-785 | for arbitrary octets, chunks and interleaving, the pages returned by the time more data is needed are those of a scan of the concatenation |
| Sync.GenuinePrefix | MediaWS/OggLib/OggLib/framing.c:659-744 | a page of which only a beginning has arrived is never taken for garbage |
| Sync.BurstRejected | MediaWS/OggLib/OggLib/framing.c:685-711 | a page damaged inside four consecutive octets, which are the checksum field or lie outside it, with pattern and length intact, is rejected whatever follows |
| SyncReports.PageFound | MediaWS/OggLib/OggLib/framing.c:659-744 | a page is found exactly if it is genuine and the octets at hand begin with all of it |
| SyncReports.MoreNeeded | MediaWS/OggLib/OggLib/framing.c:659-683 | more data is needed exactly below 27 octets, or if the pattern is there and less than the header and body announced |
| SyncReports.SeekExact | MediaWS/OggLib/OggLib/framing.c:659-744 | 0, the length of the page found, or a skip to the next 'O' behind the first octet, or to the end |
| SyncReports.ReportsExact | MediaWS/OggLib/OggLib/framing.c:610-785 | for arbitrary octets, chunks and interleaving, pages and losses of synchronisation are reported as by a scan of the concatenation, each in its place |
| SyncReports.LossesApart | MediaWS/OggLib/OggLib/framing.c:746-785 | a loss is reported once for each stretch of garbage |
| SyncReports.NoLossExact | MediaWS/OggLib/OggLib/framing.c:746-785 | none is reported exactly of genuine pages one behind the other and a beginning of one more |
| SyncState.Verify | MediaWS/OggLib/OggLib/framing.c:685-711 | the checksum is recomputed in the buffer and put back if it differs: the buffer ends unchanged and the answer is whether they agree |
| SyncState.SeekCases | MediaWS/OggLib/OggLib/framing.c:659-744 | the remembered header and body sizes decide the call as the octets themselves would |
| SyncState.OggSyncState.Buffer | MediaWS/OggLib/OggLib/framing.c:610-640 | returned octets are reclaimed and room is made; what was unread stays unread |
| SyncState.OggSyncState.Wrote | MediaWS/OggLib/OggLib/framing.c:642-647 | octets stored behind the fill mark join the unread ones, or -1 and no change when they do not fit |
| SyncState.OggSyncState.PageSeek | MediaWS/OggLib/OggLib/framing.c:659-744 | buffered octets unchanged; returns the page length, minus the octets skipped, or 0, as `Sync.Seek` of the unread octets, and advances by that absolute value |
| SyncState.OggSyncState.PageOut | MediaWS/OggLib/OggLib/framing.c:757-785 | terminates; result and state are those of `Sync.PageOut` |
| SyncState.OggSyncState.Reset | MediaWS/OggLib/OggLib/framing.c:919-928 | nothing unread, synchronised |
| Decoder.PageInValid | MediaWS/OggLib/OggLib/framing.c:790-916 | for every page whose body length is its segment table's sum: complete packets and gap markers first, then at most one unfinished packet, markers only between packets |
| Decoder.PacketOutValid | MediaWS/OggLib/OggLib/framing.c:958-1010 | taking a packet or a gap keeps that invariant |
| Decoder.GapWherePagenoJumps | MediaWS/OggLib/OggLib/framing.c:838-853 | between consecutive pages the decoder notes a gap exactly where the counter passes 2^31 modulo 2^32 |
| Decoder.PageRefused | MediaWS/OggLib/OggLib/framing.c:834-836 | a page is refused exactly for another serial number or a version other than 0, and then nothing changes |
| Decoder.FirstPage | MediaWS/OggLib/OggLib/framing.c:838-853 | an initialised stream notes a gap before its first page exactly if that is not page 0, a stream that was reset never does |
| Decoder.RunWithinComplete | MediaWS/OggLib/OggLib/framing.c:983-991 | the gather loop stops at a packet end inside the complete part |
| DecodeFields.PreparedContents | MediaWS/OggLib/OggLib/framing.c:840-853 | after unrolling, body and lacing arrays hold the complete packets and, where pages were seen before, a gap marker |
| DecodeFields.PageContents | MediaWS/OggLib/OggLib/framing.c:856-905 | the entries stored from segment k on describe the page's segments from k on, the granule position at the last that ends a packet |
| DecodeFields.AddedContents | MediaWS/OggLib/OggLib/framing.c:856-905 | an orphan continuation is skipped, any other page is stored whole |
| DecodeFields.PageInFields | MediaWS/OggLib/OggLib/framing.c:790-916 | the buffers after an accepted page are the value state after `Decoder.PageIn` |
| DecodeFields.PacketReady | MediaWS/OggLib/OggLib/framing.c:980-1001 | the slice of the body, the flags and the granule value gathered are the packet at the front, and the slice lies within the filled body |
| StreamState.OggStreamState.CleanUp | MediaWS/OggLib/OggLib/framing.c:807-832 | what was handed out is dropped from the three arrays and the indices move with it |
| StreamState.OggStreamState.PrepareFor | MediaWS/OggLib/OggLib/framing.c:838-853 | in sequence nothing changes; otherwise the unfinished packet goes and the gap is noted |
| StreamState.OggStreamState.Skip | MediaWS/OggLib/OggLib/framing.c:856-872 | a continuation without its beginning is skipped up to its end, anything else not at all |
| StreamState.OggStreamState.AddLacing | MediaWS/OggLib/OggLib/framing.c:880-904 | entries, granule values and the packet boundary after storing a segment table |
| StreamState.OggStreamState.PageIn | MediaWS/OggLib/OggLib/framing.c:790-916 | object state and status are those of `Decoder.PageIn`, and the invariant holds |
| StreamState.OggStreamState.Gather | MediaWS/OggLib/OggLib/framing.c:980-991 | the loop counts the entries, octets and flags of exactly the packet at the front |
| StreamState.OggStreamState.PacketOutI | MediaWS/OggLib/OggLib/framing.c:958-1020 | packet or gap, and the new state, are those of `Decoder.PacketOut`, or of `Decoder.PacketPeek` when not advancing |
| Delivery.PacketOutNext | MediaWS/OggLib/OggLib/framing.c:958-1015 | packets and gaps come out one by one, in order, and nothing else |
| Delivery.PacketPeekNext | MediaWS/OggLib/OggLib/framing.c:958-1020 | a peek shows the next packet or gap; a packet stays, a gap is taken |
| Delivery.BrokenPacketLost | MediaWS/OggLib/OggLib/framing.c:856-872 | a packet with a lost beginning is lost, and only it |
| Loss.DeliveredStep | MediaWS/OggLib/OggLib/framing.c:790-916 | a delivered page keeps the invariant that ties the decoder to the pages delivered and lost so far |
| Reception.ReceiveTracks | MediaWS/OggLib/OggLib/framing.c:790-1015 | so does every interleaving of deliveries, losses and drains |
| Loss.AccountCounts | MediaWS/OggLib/OggLib/framing.c:790-1015 | the reference sequence of packets and gaps holds exactly the packets all of whose segments arrived, in order, and one gap per maximal missing run before a page that arrived |
| Reception.LossExact | MediaWS/OggLib/OggLib/framing.c:790-1015 | for pages in sequence of which any arrive, what is returned is that reference sequence: packets with their flags and granule positions, each gap before the packets that end on the page after it |
| LastFlags.RunLasts | MediaWS/OggLib/OggLib/framing.c:437-438 | in every run the end-of-stream flags on the pages give the packets the flags that the calls say: a page that leaves nothing pending after the end was announced flags the packet submitted last |
| LastFlags.LastExact | MediaWS/OggLib/OggLib/framing.c:437-438 | a packet is flagged exactly if the end was announced with it or before, and at some moment it was the last submitted and nothing was pending |
| LastFlags.OnlyLast | MediaWS/OggLib/OggLib/framing.c:437-438 | if the end is announced with the last packet only, that packet alone is flagged once all are on pages |
| RoundTrip.RunReturns | MediaWS/OggLib/OggLib/framing.c:304-1015 | with all pages delivered, the packets with the first flag on the first only, the last flags of `LastsSeen` and the granule positions of `GranulesSeen` |
| GranulePositions.GranuleSeen | MediaWS/OggLib/OggLib/framing.c:388-424 | a packet arrives with its own granule position if it is the last to end on its page, 0 if that is the first page, and with -1 otherwise |
| GranulePositions.OwnGranule | MediaWS/OggLib/OggLib/framing.c:388-424 | in every run, exactly which packets arrive with the position they were submitted with |
| GranulePositions.PositionsLost | MediaWS/OggLib/OggLib/framing.c:388-424 | three short packets, the first flushed alone, of which only the last keeps its position |
| RoundTrip.LossReturns | MediaWS/OggLib/OggLib/framing.c:304-1015 | whichever pages are lost, the surviving packets are those submitted less those of which a segment did not arrive, with the flags and granule positions they would come with anyway |
| RoundTrip.EncoderLossExact | MediaWS/OggLib/OggLib/framing.c:304-1015 | loss exactness in terms of the packets submitted to an encoder: data, flags, granule positions and the places of the gaps |
| Foreign.HonestExact | MediaWS/OggLib/OggLib/framing.c:838-905 | a page is read as its continued flag says exactly unless it begins a packet while one is unfinished, or continues one while none is unfinished and the last entry held is something other than an unflagged gap marker |
| Foreign.EncodedReadRight | MediaWS/OggLib/OggLib/framing.c:790-916 | that never happens with an encoder's pages, whichever are lost |
| Foreign.Spliced | MediaWS/OggLib/OggLib/framing.c:856-905 | a page that does not continue the unfinished packet gets its first packet joined to it, where an honest reading returns that packet alone |
| Foreign.DrainMatters | MediaWS/OggLib/OggLib/framing.c:856-872 | an orphan continuation comes back as a packet of its own while the last entry held is something other than an unflagged gap marker, and is skipped once the entries held have been taken |
| Foreign.TwoPages | MediaWS/OggLib/OggLib/framing.c:790-1015 | two pages of which the decoder returns one packet made of both |
| Pipeline.RunOnTrack | MediaWS/OggLib/OggLib/framing.c:610-1015 | however octets arrive and calls interleave, the page buffer stands inside the next delivered page and the decoder has seen the ones before |
| Pipeline.ReturnedCounted | MediaWS/OggLib/OggLib/framing.c:958-1010 | in every run of a receiver the packet counter counts packets and gaps returned |
| Pipeline.LossyPipeline | MediaWS/OggLib/OggLib/framing.c:304-1015 | encoder, serialisation, loss of any pages, any chunks and any interleaving of calls: exactly the intact packets with data, flags and granule positions, the gaps in their places, and no loss of synchronisation |
| Pipeline.RoundTripTheorem | MediaWS/OggLib/OggLib/framing.c:304-1015 | with nothing lost, what comes out is what went in, flags included, for all packet lengths and all calls |
| Channel.CleanScan | MediaWS/OggLib/OggLib/framing.c:659-785 | a scan of a wire with damaged pages and garbage finds exactly the pages that arrive as they were written |
| Channel.ScanDecides | MediaWS/OggLib/OggLib/framing.c:610-1015 | what a receiver returns depends on nothing but its own pages among those that a scan of all octets finds, whatever the garbage, the other streams, the chunks and the calls |
| Channel.NoisyPipeline | MediaWS/OggLib/OggLib/framing.c:304-1015 | loss exactness over a wire that loses and damages pages and carries garbage and pages of other serial numbers |
| Channel.DamageIsLoss | MediaWS/OggLib/OggLib/framing.c:610-1015 | a damaged page has the effect of a lost one on everything returned |
| Transmission.Send | MediaWS/OggLib/OggLib/framing.c:304-557 | a run on the encoding object emits the pages of the run on values |
| Transmission.PullAll | MediaWS/OggLib/OggLib/framing.c:757-1015 | the application's loop over pages and packets terminates with nothing left to take |
| Transmission.Receive | MediaWS/OggLib/OggLib/framing.c:610-1015 | the two receiving objects fed with chunks return what the receiver on values does |
| Transmission.Transmit | MediaWS/OggLib/OggLib/framing.c:304-1015 | the three objects together return the packets submitted, for any chunk sizes |
| Bits.IntShlBit | MediaWS/OggLib/OggLib/bitwise.c:282-292 | an octet shifted in a 32-bit int and sign-extended to 64 bits has the right low 32 bits |
| Bits.LowIsMod | MediaWS/OggLib/OggLib/bitwise.c:28-36 | masking is the remainder by a power of two |
| Bits.ValueOfBits | MediaWS/OggLib/OggLib/bitwise.c:83-166 | packing a value in either order and unpacking it keeps its low bits |
| Packing.StoredBit | MediaWS/OggLib/OggLib/bitwise.c:96-160 | which bit of the old octet or of the value each bit of the five stored octets is, both orders |
| Packing.StoreAppends | MediaWS/OggLib/OggLib/bitwise.c:96-163 | the stores append the value's bits to the bit string |
| Packing.StoreKeepsTail | MediaWS/OggLib/OggLib/bitwise.c:96-163 | and leave the rest of the last octet clear |
| Packing.FifthByte | MediaWS/OggLib/OggLib/bitwise.c:107-112 | the special case for an aligned 32-bit value stores what the general shift would |
| Packing.ExtractIsValue | MediaWS/OggLib/OggLib/bitwise.c:282-325 | the assembled and masked word is the number that the bit string denotes at the position, both orders |
| Packing.TruncCuts | MediaWS/OggLib/OggLib/bitwise.c:60-80 | masking the last octet keeps the prefix and clears the rest |
| Packing.CopyAppends | MediaWS/OggLib/OggLib/bitwise.c:195-214 | a block copy at an octet boundary appends the source's bits |
| BitPacker.OggPackBuffer.constructor | MediaWS/OggLib/OggLib/bitwise.c:40-49 | a fresh buffer holds no bits, in either order |
| BitPacker.OggPackBuffer.Write | MediaWS/OggLib/OggLib/bitwise.c:83-123 | for widths 0 to 32 appends exactly the value's bits, growing as needed with every store in bounds; other widths clear the buffer |
| BitPacker.OggPackBuffer.WriteB | MediaWS/OggLib/OggLib/bitwise.c:126-166 | the same, most significant bit first |
| BitPacker.OggPackBuffer.WriteTrunc | MediaWS/OggLib/OggLib/bitwise.c:60-80 | keeps exactly the prefix and clears the rest of its last octet |
| BitPacker.OggPackBuffer.WriteAlign | MediaWS/OggLib/OggLib/bitwise.c:168-178 | appends zeros to the next octet boundary |
| BitPacker.OggPackBuffer.WriteCopy | MediaWS/OggLib/OggLib/bitwise.c:180-233 | appends exactly the first bits of the source, except that at an octet boundary a copy needing growth clears the buffer |
| BitPacker.OggPackBuffer.Reset | MediaWS/OggLib/OggLib/bitwise.c:235-244 | no bits |
| BitPacker.OggPackBuffer.WriteClear | MediaWS/OggLib/OggLib/bitwise.c:246-253 | cleared |
| BitPacker.OggPackBuffer.PackedBytes | MediaWS/OggLib/OggLib/bitwise.c:499-501 | the least number of octets that hold the bits |
| BitPacker.OggPackBuffer.ReadInit | MediaWS/OggLib/OggLib/bitwise.c:255-259 | position 0 of the given octets |
| BitPacker.OggPackBuffer.Look | MediaWS/OggLib/OggLib/bitwise.c:266-326 | the bits at the position, or -1 exactly when they reach past the storage or the width is out of range; accesses in bounds although the full test runs only near the end |
| BitPacker.OggPackBuffer.Look1 | MediaWS/OggLib/OggLib/bitwise.c:328-336 | as a look of width 1 |
| BitPacker.OggPackBuffer.Adv | MediaWS/OggLib/OggLib/bitwise.c:338-352 | moves on, or gets stuck past the end; a negative width moves back, landing one octet too far exactly when it leaves the octet and does not end at a boundary |
| BitPacker.OggPackBuffer.Adv1 | MediaWS/OggLib/OggLib/bitwise.c:358-364 | moves on by one without a test |
| BitPacker.OggPackBuffer.Read | MediaWS/OggLib/OggLib/bitwise.c:371-455 | value of a look and position moved on by the width; -1 and a position past the end exactly when the width is out of range or reaches past the storage |
| BitPacker.OggPackBuffer.Read1 | MediaWS/OggLib/OggLib/bitwise.c:457-497 | as a read of width 1 |
| BitRuns.ReaderExact | MediaWS/OggLib/OggLib/bitwise.c:266-352 | after any mixture of reads, looks and advances a request fails exactly when what was asked for in all reaches past the end; otherwise it yields the bits there |
| BitRuns.PositionExact | MediaWS/OggLib/OggLib/bitwise.c:338-412 | the position is the sum of what was asked for until that passes the end, and then bit 1 of the octet behind the data |
| BitRuns.FailureSticks | MediaWS/OggLib/OggLib/bitwise.c:405-411 | after a failed read or advance every later read and look fails |
| BitRuns.LookThenAdvance | MediaWS/OggLib/OggLib/bitwise.c:266-412 | a look and an advance do what a read does |
| BitRuns.ItemAt | MediaWS/OggLib/OggLib/bitwise.c:83-497 | wherever packed items lie in a buffer, reading an item's width at its position yields its value modulo 2^width |
| BitRuns.RoundTrip | MediaWS/OggLib/OggLib/bitwise.c:83-501 | whatever is packed into a fresh buffer is read back from its octets, by read, look and advance, or read1, and ends at the same bit, both orders |
| BitRuns.CopyIntoFresh | MediaWS/OggLib/OggLib/bitwise.c:199-209 | a copy into a fresh buffer fails exactly when it does not fit the first allocation |
| Getopt.SwapBlocks | MediaWS/SpeexLib/SpeexLib/getopt.c:342-369 | swaps two disjoint blocks of equal length, element by element |
| Getopt.ExchangeBlocks | MediaWS/SpeexLib/SpeexLib/getopt.c:336-372 | terminates with the two adjacent blocks exchanged, each in its own order, and nothing else changed |
| Getopt.ViewExchanged | MediaWS/SpeexLib/SpeexLib/getopt.c:336-378 | exchanging changes the layout only: same options, same operands, same rest |
| Getopt.GetoptState.Exchange | MediaWS/SpeexLib/SpeexLib/getopt.c:300-378 | argv exchanged and both indices moved with the operands |
| Getopt.GetoptState.Initialize | MediaWS/SpeexLib/SpeexLib/getopt.c:386-449 | the ordering selected by prefix and environment, nothing skipped yet |
| Getopt.GetoptState.Skim | MediaWS/SpeexLib/SpeexLib/getopt.c:549-565 | operands passed over are held, options processed since are moved before them |
| Getopt.GetoptState.StopAtMark | MediaWS/SpeexLib/SpeexLib/getopt.c:567-584 | "--" goes with the options, everything after it with the operands |
| Getopt.GetoptState.NextChar | MediaWS/SpeexLib/SpeexLib/getopt.c:766-772 | takes a character off the element, and the element with its last one |
| Getopt.GetoptState.TakeArgument | MediaWS/SpeexLib/SpeexLib/getopt.c:929-956 | the argument from the rest of the element or the next one, or the code for a missing one |
| Getopt.GetoptState.DecodeNext | MediaWS/SpeexLib/SpeexLib/getopt.c:913-960 | a short option, its argument from the rest of the element or the next one, or the error code |
| Getopt.GetoptState.Advance | MediaWS/SpeexLib/SpeexLib/getopt.c:538-612 | one call after initialisation is one step of the scan on lists, in all three orderings; at the end argv is options, operands, rest and optind the first operand |
| Getopt.GetoptState.Next | MediaWS/SpeexLib/SpeexLib/getopt.c:516-612 | the same with initialisation when optind is 0 or on the first call |
| Getopt.GetoptState.ScanAll | MediaWS/SpeexLib/SpeexLib/getopt.c:516-612 | in every mode repeated calls terminate and return what the calls on lists do, the first with the stripped option string, the others with the whole one; argv is options, operands, rest and optind behind the options |
| Getopt.GetoptState.ScanPermuting | MediaWS/SpeexLib/SpeexLib/getopt.c:537-612 | in the default mode that is what reading left to right would return, and argv ends as the options with their arguments and "--", then the operands, each in the original order, with optind at the first operand |
| Getopt.GetoptState.ScanInOrder | MediaWS/SpeexLib/SpeexLib/getopt.c:566-612 | in the other two modes it is what reading in place returns, up to the first operand or with every operand as a result; argv is unchanged and optind behind what was read |
| OptionScan.StepShrinks | MediaWS/SpeexLib/SpeexLib/getopt.c:537-612 | every call that returns something leaves less to scan |
| OptionScan.RunPartitions | MediaWS/SpeexLib/SpeexLib/getopt.c:537-612 | the run on lists is the stable partition by the left-to-right marking, with the same results |
| OptionScan.SelectionsCover | MediaWS/SpeexLib/SpeexLib/getopt.c:464-467 | options and operands together are the original elements |
| OptionScan.RunInOrder | MediaWS/SpeexLib/SpeexLib/getopt.c:566-612 | without permutation a run returns what reading in place does, and uses exactly the elements read |
| OptionScan.OrderKept | MediaWS/SpeexLib/SpeexLib/getopt.c:597-607 | in the two orderings without permutation every call leaves the elements where they are |
| OptionRules.PlainOption | MediaWS/SpeexLib/SpeexLib/getopt.c:766-772 | an option character without ":" behind it takes no argument, in a cluster or alone; the next element stays |
| OptionRules.RequiredArgument | MediaWS/SpeexLib/SpeexLib/getopt.c:929-956 | with one ":" it takes the rest of its element or the whole next one; without either it is returned as '?', or as ':' if the option string begins so |
| OptionRules.OptionalArgument | MediaWS/SpeexLib/SpeexLib/getopt.c:915-927 | with "::" it takes the rest of its element if there is any; the next element stays |
| OptionRules.UnknownOption | MediaWS/SpeexLib/SpeexLib/getopt.c:774-788 | a character that the option string lacks, and ':', is an error |
| OptionRules.OperandMet | MediaWS/SpeexLib/SpeexLib/getopt.c:403-417 | an operand that the scan comes to is returned with code 1 under '-', ends the scan under '+' or POSIXLY_CORRECT, and is passed over otherwise |
| OptionRules.FirstOperand | MediaWS/SpeexLib/SpeexLib/getopt.c:549-600 | the same of a caller's loop whose first element is an operand: what it returns and how the elements end up |
| OptionRules.MarkMet | MediaWS/SpeexLib/SpeexLib/getopt.c:567-584 | "--" ends the scan in every ordering, and all that follows it is operands |
| OptionRules.FirstCall | MediaWS/SpeexLib/SpeexLib/getopt.c:516-524 | the first call reads the option string without a leading '-' or '+', the later ones with it |
| OptionPrefix.KindsAlike | MediaWS/SpeexLib/SpeexLib/getopt.c:518-524 | a leading '-' or '+' left in place changes how a character is described exactly if it is that character, and does not also occur in the rest with as many ':' |
| OptionPrefix.LaterCalls | MediaWS/SpeexLib/SpeexLib/getopt.c:518-524 | exactly when it changes what a call returns or leaves |
| OptionPrefix.HarmlessExact | MediaWS/SpeexLib/SpeexLib/getopt.c:518-524 | exactly for which option strings no call in any state is changed |
| OptionPrefix.ReadCallsHarmless | MediaWS/SpeexLib/SpeexLib/getopt.c:518-524 | for those, and without a prefix, a whole run in the other two modes returns what reading with the stripped option string does |
| OptionFaults.SafeExact | MediaWS/SpeexLib/SpeexLib/getopt.c:789-907 | exactly for which option strings no call in any state reads the null table of long options or returns a negative character |
| OptionFaults.SafeCalls | MediaWS/SpeexLib/SpeexLib/getopt.c:789-907 | for those, a caller's loop is defined on every command line |
| OptionFaults.NullTableRead | MediaWS/SpeexLib/SpeexLib/getopt.c:789-907 | with "W;", "-Wx" reads the null table and a lone "-W" is reported as lacking its argument |
| OptionFaults.NegativeCharacter | MediaWS/SpeexLib/SpeexLib/getopt.c:766-774 | the option character 0xff is returned as -1 |
| OptionPrefix.PrefixTakenForOption | MediaWS/SpeexLib/SpeexLib/getopt.c:518-524 | with "+a" and the element "-a+" the second call returns '+' |
| Comments.WriteInt | MediaWS/SpeexLib/SpeexLib/speexenc.c:950-954 | four octets, least significant first, and nothing else changes |
| Comments.CommentBuffer.constructor | MediaWS/SpeexLib/SpeexLib/speexenc.c:956-971 | the header with the vendor string and no fields |
| Comments.CommentBuffer.Add | MediaWS/SpeexLib/SpeexLib/speexenc.c:972-994 | the header with one more field, tag and value joined |
| Comments.EncodedShort | MediaWS/SpeexLib/SpeexLib/speexenc.c:956-994 | the octets of a header with a short vendor string and field, in order |
| Comments.PrintComments | MediaWS/SpeexLib/SpeexLib/speexdec.c:95-142 | the lines printed, the complaint and the place where the walk ends, on every input |
| Comments.WalkEncoded | MediaWS/SpeexLib/SpeexLib/speexdec.c:95-142 | the walk over a built header finds vendor string and fields in order and ends with the header, whatever follows |
| Comments.BuildAndPrint | MediaWS/SpeexLib/SpeexLib/speexenc.c:956-994 | a vendor string and any list of additions, built into a buffer and printed, come back as the lines, in order and without complaint |
| Comments.AcceptedIsEncoded | MediaWS/SpeexLib/SpeexLib/speexdec.c:95-142 | a walk without complaint has read exactly a header that could have been built from the lines it printed, or met a negative count |
| CommentFaults.Truncated | MediaWS/SpeexLib/SpeexLib/speexdec.c:95-142 | of a built header cut short anywhere, exactly the strings are printed that lie wholly within the rest, eight octets at least; then the complaint, at the place stated |
| CommentFaults.FieldsBeforeFault | MediaWS/SpeexLib/SpeexLib/speexdec.c:122-141 | a field whose length is missing, negative or reaches past the end: vendor string and all fields before it are printed, then the complaint |
| CommentFaults.WrittenLength | MediaWS/SpeexLib/SpeexLib/speexdec.c:131-137 | a length written in front of a string is such a fault exactly if it is negative or more than what follows |
| CommentFaults.NegativeCount | MediaWS/SpeexLib/SpeexLib/speexdec.c:122-124 | a negative number of fields is taken for none, without complaint |
| CommentFaults.CountMissing | MediaWS/SpeexLib/SpeexLib/speexdec.c:114-121 | without room for the number of fields the vendor string is printed, then the complaint |
| CommentFaults.VendorMissing | MediaWS/SpeexLib/SpeexLib/speexdec.c:101-113 | below eight octets, or without a vendor string, nothing is printed |
| CommentFaults.ComplaintExact | MediaWS/SpeexLib/SpeexLib/speexdec.c:95-142 | these are the only reasons for a complaint, on every input, and the lines are those in front of the fault |
| Utf8.LengthFromLog | MediaWS/FFmpegLib/include/libavutil/common.h:340 | the length computed from the logarithm is the table's |
| Utf8.PutUtf8 | MediaWS/FFmpegLib/include/libavutil/common.h:332-350 | for values below 2^31, the octets of the table in section 2 of RFC 2279 |
| Utf8.GetUtf8 | MediaWS/FFmpegLib/include/libavutil/common.h:279-293 | value and octets used, or the error branch, with 32-bit wrap-around |
| Utf8.PartialBits | MediaWS/FFmpegLib/include/libavutil/common.h:284-292 | the tested bit is set exactly while octets are missing, and the mask then leaves the value |
| Utf8.GetPut | MediaWS/FFmpegLib/include/libavutil/common.h:279-350 | every value below 2^31 is read back from its octets, whatever follows, using exactly those |
| Utf8.Accepted | MediaWS/FFmpegLib/include/libavutil/common.h:279-293 | a lead octet with as many continuation octets as it announces is read with exactly those octets; up to six of them give a value below 2^31, and for such a value they are its encoding exactly if they have its length |
| Utf8.AcceptedExact | MediaWS/FFmpegLib/include/libavutil/common.h:279-293 | exactly the strings that begin with a lead octet and as many continuation octets as it announces are accepted |
| Utf8.CanonicalExact | MediaWS/FFmpegLib/include/libavutil/common.h:279-350 | for a string of that shape, the octets used are the encoding of the value read exactly if the lead and second octet say that no shorter form would do |
| Utf8.WrittenExact | MediaWS/FFmpegLib/include/libavutil/common.h:279-350 | nor are they the encoding of any other value |
| Utf8.OverlongAccepted | MediaWS/FFmpegLib/include/libavutil/common.h:279-293 | two octets are accepted for zero |
| Utf8.SevenAccepted | MediaWS/FFmpegLib/include/libavutil/common.h:279-293 | seven octets are accepted for zero |
| Utf8.DecodeEncodeAll | MediaWS/FFmpegLib/include/libavutil/common.h:279-350 | so are strings of code points |

## Left out

- Allocation failure: malloc and realloc succeed; `int` sizes and positions do not overflow.
- `ogg_stream_clear`, `_destroy`, `_check`, `_reset_serialno`, `ogg_sync_clear`, `ogg_packet_clear`, `ogg_stream_eos`: constant-time bookkeeping.
- Pages and packets are values copied out when they are returned; the C code returns pointers into buffers that the next call moves.
- One `ogg_stream_state` used for encoding and decoding at the same time.
- A lacing value is a record of its low octet and its three flag bits rather than an `int` with bits.
- The granule value beside a gap marker, which the code never sets or reads, is not part of the decoder's state.
- OggPage.PagenoSequence: runs of 2^31 pages or more are covered by this condition only; the theorems over runs are for fewer pages.
- RoundTrip.EncoderLossExact: is about the pages of one encoder; what other streams do is in `Foreign`, page by page.
- StreamState.OggStreamState.PageIn: requires that the body length is the sum of the segment table, which `ogg_sync_pageseek` guarantees and `ogg_stream_pagein` does not test.
- StreamState.OggStreamState.IovecIn: null vectors and a null packet destination in `_packetout` are not modelled.
- SyncState.OggSyncState.Wrote: negative byte counts, which the code does not reject, are not modelled.
- BitPacker.OggPackBuffer.Adv: negative widths that would move before the start of the buffer, or back after the end was met, which the code does not reject, are not modelled.
- OggPage.ChecksumSet: the body does not overlap the checksum field.
- BitPacker.OggPackBuffer.Write: `long` has 64 bits, and buffers stay below LONG_MAX.
- BitPacker.OggPackBuffer.WriteTrunc: requires the cut to lie inside the buffer, which the code does not test.
- Getopt.GetoptState.Next: long options, error messages and the C library's non-option flags are not modelled; calls that look an argument up in the null table of long options, or return a `char` above 0x7f, are excluded by `OptionFaults.CallDefined`; POSIXLY_CORRECT is a parameter.
- Channel.NoisyPipeline: damage that changes a page's capture pattern or length, and garbage in which the capture pattern occurs, are not covered; nor are the losses of synchronisation that are then reported.
- Comments.CommentBuffer.Add: requires a total length below 2^31.
- Utf8.PutUtf8: values of 2^31 and more, for which the macro shifts by more than the word size, are not modelled. The body of `av_log2` is not part of this model; it is taken as the position of the highest bit.
- Utf8.GetUtf8: the position of the one bit of `top` stands for the mask; input that ends early counts as invalid.
- The Speex, Opus and FFmpeg codecs, file and device input and output, the Objective-C layers, `skeleton.c` and the self-tests.
