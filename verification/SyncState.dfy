/** `ogg_sync_state`: the mutable buffer in which pages are found. */
module SyncState {
  import opened Bytes
  import opened OggPage
  import opened Lacings
  import S = Sync

  lemma {:induction false} WindowSplit(b: seq<byte>, at: nat, n: nat)
    requires at + n <= |b|
    ensures b == b[..at] + b[at..at + n] + b[at + n..]
  {
  }

  lemma {:induction false} SameChecksum(h: seq<byte>, h': seq<byte>, body: seq<byte>)
    requires |h| == |h'| >= HEADER_BASE && h'[..22] == h[..22] && h'[26..] == h[26..]
    ensures Checksum(h', body) == Checksum(h, body) && WithChecksum(h', body) == WithChecksum(h, body)
  {
    assert Cleared(h') == Cleared(h);
    hide Cleared;
  }

  lemma {:induction false} WithIs(h: seq<byte>, body: seq<byte>)
    requires |h| >= HEADER_BASE
    ensures WithChecksum(h, body) == h[..22] + Checksum(h, body) + h[26..] && |Checksum(h, body)| == 4
  {
  }

  /** A field replaced and put back. */
  lemma {:induction false} PutBack(b: seq<byte>, at: nat, n: nat, field: seq<byte>)
    requires n >= HEADER_BASE && at + n <= |b| && |field| == 4
    ensures var h := b[at..at + n];
            var b' := b[..at] + (h[..22] + field + h[26..]) + b[at + n..];
            && b'[at + 22..at + 26] == field && b[at + 22..at + 26] == h[22..26]
            && b'[..at + 22] + h[22..26] + b'[at + 26..] == b
            && (field == h[22..26] ==> b' == b)
  {
    var h := b[at..at + n];
    assert h == h[..22] + h[22..26] + h[26..];
    WindowSplit(b, at, n);
  }

  lemma {:induction false} Windows(b: seq<byte>, h: seq<byte>, b': seq<byte>, at: nat, n: nat, m: nat)
    requires at + n + m <= |b| && |h| == n && b' == b[..at] + h + b[at + n..]
    ensures |b'| == |b| && b'[..at] == b[..at] && b'[at..at + n] == h && b'[at + n..] == b[at + n..]
    ensures b'[at + n..at + n + m] == b[at + n..at + n + m]
  {
  }

  /** Setting the checksum of a page whose field was cleared before. */
  lemma {:induction false} Recomputed(b: seq<byte>, b0: seq<byte>, at: nat, n: nat, m: nat)
    requires n >= HEADER_BASE && at + n + m <= |b| && b0 == b[..at + 22] + [0, 0, 0, 0] + b[at + 26..]
    ensures |b0| == |b|
    ensures var h, body := b[at..at + n], b[at + n..at + n + m];
            b0[..at] + WithChecksum(b0[at..at + n], b0[at + n..at + n + m]) + b0[at + n..]
            == b[..at] + (h[..22] + Checksum(h, body) + h[26..]) + b[at + n..]
  {
    hide Checksum, WithChecksum, Cleared;
    var h, body := b[at..at + n], b[at + n..at + n + m];
    FieldInBuffer(b, at, n, [0, 0, 0, 0]);
    var h0 := h[..22] + [0, 0, 0, 0] + h[26..];
    Windows(b, h0, b0, at, n, m);
    SameChecksum(h, h0, body);
    WithIs(h, body);
  }

  /** Clears the checksum field of a candidate page and computes it anew. */
  method Recompute(data: array<byte>, at: nat, headerLen: nat, bodyLen: nat)
    requires headerLen >= HEADER_BASE && at + headerLen + bodyLen <= data.Length
    modifies data
    ensures var b, h, n := old(data[..]), old(data[at..at + headerLen]), at + headerLen;
            data[..] == b[..at] + (h[..22] + Checksum(h, b[n..n + bodyLen]) + h[26..]) + b[n..]
  {
    hide Checksum, WithChecksum, Cleared;
    ghost var b := data[..];
    Store(data, at + 22, [0, 0, 0, 0]);
    ghost var b0 := data[..];
    ChecksumSet(data, at, headerLen, data, at + headerLen, bodyLen);
    Recomputed(b, b0, at, headerLen, bodyLen);
  }

  /** Checks a candidate page in place; a checksum that differs from the computed one is put back. */
  method Verify(data: array<byte>, at: nat, headerLen: nat, bodyLen: nat) returns (ok: bool)
    requires headerLen >= HEADER_BASE && at + headerLen + bodyLen <= data.Length
    modifies data
    ensures data[..] == old(data[..])
    ensures var h, body := old(data[at..at + headerLen]), old(data[at + headerLen..at + headerLen + bodyLen]);
            ok == (h[22..26] == Checksum(h, body))
  {
    hide Checksum, WithChecksum;
    ghost var b, h := data[..], data[at..at + headerLen];
    ghost var body := b[at + headerLen..at + headerLen + bodyLen];
    var saved := data[at + 22..at + 26];
    WithIs(h, body);
    PutBack(b, at, headerLen, Checksum(h, body));
    Recompute(data, at, headerLen, bodyLen);
    ghost var b' := data[..];
    ok := data[at + 22..at + 26] == saved;
    assert data[at + 22..at + 26] == b'[at + 22..at + 26];
    if !ok {
      Store(data, at + 22, saved);
    }
  }

  /** What a header tells, once its capture pattern and segment table were read. */
  predicate Cached(u: seq<byte>, headerbytes: nat, bodybytes: nat) {
    if headerbytes == 0 then bodybytes == 0
    else |u| >= HEADER_BASE && u[..4] == CAPTURE && headerbytes == S.HeaderSize(u) <= |u| && bodybytes == Sum(u[27..headerbytes])
  }

  lemma {:induction false} CachedStable(u: seq<byte>, v: seq<byte>, headerbytes: nat, bodybytes: nat)
    requires Cached(u, headerbytes, bodybytes)
    ensures Cached(u + v, headerbytes, bodybytes)
  {
    hide Sum, CAPTURE;
    if headerbytes != 0 {
      assert (u + v)[..4] == u[..4] && (u + v)[27..headerbytes] == u[27..headerbytes];
    }
  }

  /** The pattern test and the two length tests decide all but the checksum. */
  lemma {:induction false} SeekCases(u: seq<byte>, h: nat, b: nat)
    ensures |u| < HEADER_BASE ==> S.Seek(u) == 0
    ensures |u| >= HEADER_BASE && u[..4] != CAPTURE ==> S.Seek(u) == 0 - S.NextO(u, 1)
    ensures |u| >= HEADER_BASE && u[..4] == CAPTURE && |u| < S.HeaderSize(u) ==> S.Seek(u) == 0
    ensures h != 0 && Cached(u, h, b) ==>
              && HEADER_BASE <= h <= |u|
              && (h + b > |u| ==> S.Seek(u) == 0)
              && (h + b <= |u| ==>
                    if u[22..26] == Checksum(u[..h], u[h..h + b])
                    then S.Judge(u) == S.PageHere(h + b) && S.Seek(u) == h + b && S.PageAt(u) == Page(u[..h], u[h..h + b])
                    else S.Seek(u) == 0 - S.NextO(u, 1))
  {
    hide Checksum, Sum, S.NextO, CAPTURE;
  }

  lemma {:induction false} InWindow(b: seq<byte>, from: nat, to: nat, h: nat, n: nat)
    requires from <= to <= |b| && h + n <= to - from
    ensures var u := b[from..to]; u[..h] == b[from..from + h] && u[h..h + n] == b[from + h..from + h + n]
  {
    var u := b[from..to];
    var x, y := u[h..h + n], b[from + h..from + h + n];
    forall k | 0 <= k < n
      ensures x[k] == y[k]
    {
      assert u[h + k] == b[from + h + k];
    }
  }

  lemma {:induction false} CachedFits(u: seq<byte>, h: nat, b: nat)
    requires Cached(u, h, b) && h != 0
    ensures HEADER_BASE <= h <= |u|
  {
    hide Sum, CAPTURE;
  }

  /** What the checksum test says of the page at the front. */
  predicate FrontSays(u: seq<byte>, h: nat, b: nat, ok: bool)
    requires h + b <= |u|
  {
    if ok then S.Judge(u) == S.PageHere(h + b) && S.Seek(u) == h + b && S.PageAt(u) == Page(u[..h], u[h..h + b])
    else |u| > 0 && S.Seek(u) == 0 - S.NextO(u, 1)
  }

  lemma {:induction false} FrontVerdict(u: seq<byte>, h: nat, b: nat, ok: bool)
    requires Cached(u, h, b) && h != 0 && h + b <= |u|
    requires h >= HEADER_BASE && ok == (u[..h][22..26] == Checksum(u[..h], u[h..h + b]))
    ensures FrontSays(u, h, b, ok)
  {
    SeekCases(u, h, b);
    hide S.Judge, S.Seek, Checksum, S.NextO, S.PageAt;
    assert u[..h][22..26] == u[22..26];
  }

  /** The same in the buffer that the page lies in. */
  lemma {:induction false} BufferVerdict(buffer: seq<byte>, from: nat, to: nat, h: nat, b: nat, ok: bool)
    requires from <= to <= |buffer| && h != 0 && h + b <= to - from && Cached(buffer[from..to], h, b)
    requires h >= HEADER_BASE && ok == (buffer[from..from + h][22..26]
             == Checksum(buffer[from..from + h], buffer[from + h..from + h + b]))
    ensures FrontSays(buffer[from..to], h, b, ok)
  {
    hide Cached, FrontSays, Checksum;
    InWindow(buffer, from, to, h, b);
    FrontVerdict(buffer[from..to], h, b, ok);
  }

  /** What copying behind the fill mark leaves and adds. */
  lemma {:induction false} CopiedBehind(before: seq<byte>, after: seq<byte>, from: nat, to: nat, chunk: seq<byte>)
    requires from <= to && to + |chunk| <= |before| == |after| && after[..to + |chunk|] == before[..to] + chunk
    ensures after[from..to] == before[from..to] && after[to..to + |chunk|] == chunk
  {
    assert after[..to] == after[..to + |chunk|][..to];
    assert after[from..to] == after[..to][from..] && before[from..to] == before[..to][from..];
    assert after[to..to + |chunk|] == after[..to + |chunk|][to..];
  }

  class OggSyncState {
    var data: array<byte>
    var fill: nat
    var returned: nat
    var unsynced: bool
    var headerbytes: nat
    var bodybytes: nat

    ghost predicate Valid()
      reads this, data
    {
      returned <= fill <= data.Length && Cached(data[returned..fill], headerbytes, bodybytes)
    }

    ghost function View(): S.SyncView
      requires Valid()
      reads this, data
    {
      S.SyncView(data[returned..fill], unsynced)
    }

    /** `ogg_sync_init`. */
    constructor ()
      ensures Valid() && View() == S.SyncView([], false) && fresh(data)
    {
      data := new byte[0];
      fill, returned, unsynced, headerbytes, bodybytes := 0, 0, false, 0, 0;
    }

    /** `ogg_sync_buffer`: room for `size` octets at position `fill`. */
    method Buffer(size: nat)
      requires Valid()
      modifies this`data, this`fill, this`returned, data
      ensures Valid() && View() == old(View())
      ensures returned == 0 && fill + size <= data.Length
      ensures data == old(data) || fresh(data)
    {
      ghost var u := data[returned..fill];
      if returned != 0 {
        fill := fill - returned;
        if fill > 0 {
          MoveDown(data, returned, fill);
        }
        returned := 0;
      }
      assert data[..fill] == u;
      if size > data.Length - fill {
        var grown := Grow(data, size + fill + 4096);
        assert grown[..fill] == grown[..data.Length][..fill] == data[..fill];
        data := grown;
      }
      assert data[returned..fill] == u;
    }

    /** `ogg_sync_wrote`: the octets stored at position `fill` become part of the stream. */
    method Wrote(bytes: nat) returns (status: int)
      requires Valid()
      modifies this`fill
      ensures Valid() && status == if old(fill) + bytes > data.Length then -1 else 0
      ensures status == -1 ==> fill == old(fill)
      ensures status == 0 ==> View() == S.SyncView(old(View()).unread + data[old(fill)..old(fill) + bytes], unsynced)
    {
      if fill + bytes > data.Length {
        return -1;
      }
      CachedStable(data[returned..fill], data[fill..fill + bytes], headerbytes, bodybytes);
      assert data[returned..fill] + data[fill..fill + bytes] == data[returned..fill + bytes];
      fill := fill + bytes;
      status := 0;
    }

    /** A caller delivering a chunk of the stream. */
    method Deliver(chunk: seq<byte>)
      requires Valid()
      modifies this`data, this`fill, this`returned, data
      ensures Valid() && View() == S.SyncView(old(View()).unread + chunk, unsynced)
      ensures data == old(data) || fresh(data)
    {
      hide Cached;
      Buffer(|chunk|);
      ghost var before := data[..];
      CopyIn(data, fill, chunk);
      CopiedBehind(before, data[..], returned, fill, chunk);
      var status := Wrote(|chunk|);
    }

    /** Reads the header at the front, if there is one: the sizes are remembered for the next call. */
    method ReadHeader() returns (decided: bool, lost: bool)
      requires Valid() && headerbytes == 0
      modifies this`headerbytes, this`bodybytes
      ensures Valid()
      ensures decided && lost ==> |View().unread| >= HEADER_BASE
      ensures decided ==> headerbytes == 0 && S.Seek(View().unread) == if lost then 0 - S.NextO(View().unread, 1) else 0
      ensures lost ==> decided
      ensures !decided ==> headerbytes != 0
    {
      ghost var u := data[returned..fill];
      SeekCases(u, 0, 0);
      hide S.Judge, S.Seek;
      var bytes := fill - returned;
      if bytes < 27 {
        return true, false;
      }
      assert u[..4] == data[returned..returned + 4];
      if data[returned..returned + 4] != CAPTURE {
        return true, true;
      }
      var size: nat := data[returned + 26] as int + 27;
      if bytes < size {
        return true, false;
      }
      for i := 0 to data[returned + 26]
        invariant bodybytes == Sum(u[27..27 + i])
        modifies this`bodybytes
      {
        assert u[27..27 + i + 1][..i] == u[27..27 + i];
        assert u[27..27 + i + 1][i] == data[returned + 27 + i];
        bodybytes := bodybytes + data[returned + 27 + i];
      }
      headerbytes := size;
      decided, lost := false, false;
    }

    /** Steps to the next possible capture. */
    method LoseSync() returns (skipped: nat)
      requires returned < fill <= data.Length
      modifies this`headerbytes, this`bodybytes, this`returned
      ensures Valid() && headerbytes == 0 && returned == old(returned) + skipped
      ensures skipped == S.NextO(old(data[returned..fill]), 1)
    {
      ghost var u := data[returned..fill];
      headerbytes, bodybytes := 0, 0;
      var next := returned + 1;
      while next < fill && data[next] != 79
        invariant returned < next <= fill && S.NextO(u, 1) == S.NextO(u, next - returned)
      {
        next := next + 1;
      }
      skipped := next - returned;
      returned := next;
    }

    /** The checksum test on the page at the front, all of which is buffered. */
    method VerifyFront() returns (ok: bool)
      requires Valid() && headerbytes != 0 && headerbytes + bodybytes <= fill - returned
      modifies data
      ensures data[..] == old(data[..]) && data[returned..fill] == old(data[returned..fill])
      ensures Valid() && HEADER_BASE <= headerbytes
      ensures FrontSays(data[returned..fill], headerbytes, bodybytes, ok)
    {
      hide S.Judge, S.Seek, S.PageAt, Checksum, S.NextO, Cached, CAPTURE, FrontSays;
      ghost var before := data[..];
      assert data[returned..fill] == before[returned..fill];
      CachedFits(before[returned..fill], headerbytes, bodybytes);
      ok := Verify(data, returned, headerbytes, bodybytes);
      assert data[returned..fill] == before[returned..fill];
      BufferVerdict(before, returned, fill, headerbytes, bodybytes, ok);
    }

    /** The part of `ogg_sync_pageseek` past the header. */
    method CheckPage() returns (ret: int, page: Option<Page>)
      requires Valid() && headerbytes != 0
      modifies this`returned, this`unsynced, this`headerbytes, this`bodybytes, data
      ensures Valid() && data[..] == old(data[..])
      ensures ret == S.Seek(old(View()).unread)
      ensures ret > 0 ==> S.Judge(old(View()).unread).PageHere? && page == Some(S.PageAt(old(View()).unread))
      ensures ret <= 0 ==> page == None
      ensures returned == old(returned) + (if ret < 0 then -ret else ret) && unsynced == (old(unsynced) && ret <= 0)
      ensures View().unread == old(View()).unread[returned - old(returned)..]
    {
      hide S.Judge, S.Seek, Checksum, S.NextO;
      ghost var u := data[returned..fill];
      if bodybytes + headerbytes > fill - returned {
        SeekCases(u, headerbytes, bodybytes);
        return 0, None;
      }
      var ok := VerifyFront();
      if !ok {
        var skipped := LoseSync();
        ret, page := 0 - (skipped as int), None;
      } else {
        ret := headerbytes + bodybytes;
        page := TakeFront();
      }
    }

    method TakeFront() returns (page: Option<Page>)
      requires Valid() && headerbytes != 0 && headerbytes + bodybytes <= fill - returned
      modifies this`returned, this`unsynced, this`headerbytes, this`bodybytes
      ensures Valid() && !unsynced && returned == old(returned) + old(headerbytes + bodybytes)
      ensures var u, h, n := old(data[returned..fill]), old(headerbytes), old(headerbytes + bodybytes);
              && page == Some(Page(u[..h], u[h..n]))
              && data[returned..fill] == u[n..]
    {
      ghost var u, n := data[returned..fill], headerbytes + bodybytes;
      InWindow(data[..], returned, fill, headerbytes, bodybytes);
      page := Some(Page(data[returned..returned + headerbytes],
          data[returned + headerbytes..returned + headerbytes + bodybytes]));
      unsynced := false;
      returned := returned + headerbytes + bodybytes;
      headerbytes, bodybytes := 0, 0;
      assert data[returned..fill] == u[n..];
    }

    /** `ogg_sync_pageseek`; the page is copied out of the buffer. */
    method PageSeek() returns (ret: int, page: Option<Page>)
      requires Valid()
      modifies this`returned, this`unsynced, this`headerbytes, this`bodybytes, data
      ensures Valid() && data[..] == old(data[..])
      ensures ret == S.Seek(old(View()).unread)
      ensures ret > 0 ==> S.Judge(old(View()).unread).PageHere? && page == Some(S.PageAt(old(View()).unread))
      ensures ret <= 0 ==> page == None
      ensures returned == old(returned) + (if ret < 0 then -ret else ret) && unsynced == (old(unsynced) && ret <= 0)
      ensures View().unread == old(View()).unread[returned - old(returned)..]
    {
      hide S.Judge, S.Seek, Checksum, S.NextO;
      ghost var u := data[returned..fill];
      if headerbytes == 0 {
        var decided, lost := ReadHeader();
        if lost {
          var skipped := LoseSync();
          return 0 - (skipped as int), None;
        }
        if decided {
          return 0, None;
        }
      }
      ret, page := CheckPage();
    }

    /** `ogg_sync_pageout`. */
    method PageOut() returns (pulled: S.Pulled)
      requires Valid()
      modifies this`returned, this`unsynced, this`headerbytes, this`bodybytes, data
      ensures Valid() && data[..] == old(data[..])
      ensures (View(), pulled) == S.PageOut(old(View()))
    {
      hide S.Judge, S.Seek, S.NextO, S.PageOut, S.PageAt, Cached;
      while true
        invariant Valid() && data[..] == old(data[..]) && S.PageOut(View()) == S.PageOut(old(View()))
        decreases fill - returned
      {
        ghost var s := View();
        PageOutStep(s);
        var ret, page := PageSeek();
        if ret > 0 {
          return S.Got(page.value);
        }
        if ret == 0 {
          return S.NeedData;
        }
        if !unsynced {
          unsynced := true;
          return S.Lost;
        }
      }
    }

    /** `ogg_sync_reset`. */
    method Reset()
      requires fill <= data.Length
      modifies this`fill, this`returned, this`unsynced, this`headerbytes, this`bodybytes
      ensures Valid() && View() == S.SyncView([], false)
    {
      fill, returned, unsynced, headerbytes, bodybytes := 0, 0, false, 0, 0;
    }
  }

  /** One round of `S.PageOut` in terms of `S.Seek`. */
  lemma {:induction false} PageOutStep(s: S.SyncView)
    ensures var r := S.Seek(s.unread);
            && (r == 0 ==> S.PageOut(s) == (s, S.NeedData))
            && (r > 0 ==> S.Judge(s.unread).PageHere?
                          && S.PageOut(s) == (S.SyncView(s.unread[r..], false), S.Got(S.PageAt(s.unread))))
            && (r < 0 ==> var s' := S.SyncView(s.unread[-r..], true);
                          S.PageOut(s) == if s.unsynced then S.PageOut(s') else (s', S.Lost))
  {
  }
}
