/** How an archive is refused: a payload limit passed at some record, or else a malformed archive. */
module ArchiveRefusal {
  import opened Wrappers
  import opened Bytes
  import opened PackageLimits
  import opened CentralDirectory
  import opened ZipLayout

  ghost const FILE_LIMIT := 256 * 1024 * 1024
  ghost const TOTAL_LIMIT := 512 * 1024 * 1024

  /** A payload member is stored as it is and bounded; its size is what counts towards the total. */
  lemma PayloadLaid(f: CentralHeader, r: Record)
    requires Laid(f, r.header)
    ensures PayloadOk(r) <==> (Ascii("payload/") <= r.name ==> f.compressed == f.uncompressed && f.uncompressed <= FILE_LIMIT)
    ensures PayloadSize(r) == if Ascii("payload/") <= r.name then f.uncompressed else 0
  {
    HeaderReads(f, r.header);
    Signatures();
  }

  /** After `front`, the record `r` is good in itself but passes a payload limit. */
  ghost predicate Passes(front: seq<Record>, r: Record, total: nat, e: PackageError) {
    if !PayloadOk(r) then e == Limit(PayloadFileBytes)
    else total + TotalPayload(front) + PayloadSize(r) > TOTAL_LIMIT && e == Limit(TotalPayloadBytes)
  }

  /** Good records from `cursor` on, fewer than announced, and then one that passes a limit. */
  ghost predicate Stopped(file: seq<byte>, end: nat, centralOffset: nat, cursor: nat, count: nat,
                          names: set<seq<byte>>, total: nat, front: seq<Record>, r: Record, e: PackageError) {
    && |front| < count
    && RecordsOk(front, centralOffset) && RecordOk(r, centralOffset)
    && cursor <= end <= |file| && Concatenated(front) + RecordBytes(r) <= file[cursor..end]
    && NamesFresh(front + [r], names)
    && total + TotalPayload(front) <= TOTAL_LIMIT
    && Passes(front, r, total, e)
  }

  lemma OneRecord(r: Record, names: set<seq<byte>>)
    ensures Concatenated([]) + RecordBytes(r) == RecordBytes(r)
    ensures NamesFresh([] + [r], names) <==> r.name !in names
    ensures RecordsOk([], 0) && TotalPayload([]) == 0
  {
    hide RecordBytes;
    assert [] + [r] == [r] && [r][0] == r;
  }

  /** The walk stops at a limit exactly when such records stand there. */
  lemma {:induction false} WalkRefusal(file: seq<byte>, end: nat, centralOffset: nat, cursor: nat, count: nat,
                                       names: set<seq<byte>>, total: nat, e: PackageError)
    requires cursor <= end <= |file| && total <= TOTAL_LIMIT && e != InvalidArchive
    ensures Walk(file, end, centralOffset, cursor, count, names, total) == Err(e) <==>
      exists front, r :: Stopped(file, end, centralOffset, cursor, count, names, total, front, r, e)
    decreases count
  {
    hide RecordAt, RecordOk, PayloadOk, PayloadSize, NamesFresh, RecordBytes;
    if Walk(file, end, centralOffset, cursor, count, names, total) == Err(e) {
      var front, r := StopFound(file, end, centralOffset, cursor, count, names, total, e);
    }
    if front, r :| Stopped(file, end, centralOffset, cursor, count, names, total, front, r, e) {
      StopReached(file, end, centralOffset, cursor, count, names, total, front, r, e);
    }
  }

  lemma RecordAtError(file: seq<byte>, end: nat, centralOffset: nat, cursor: nat)
    requires cursor <= end <= |file|
    ensures RecordAt(file, end, centralOffset, cursor).Err? ==> RecordAt(file, end, centralOffset, cursor).error == InvalidArchive
  {
    hide HeaderOk, ExtraOk, IsAscii;
  }

  lemma {:induction false} StopFound(file: seq<byte>, end: nat, centralOffset: nat, cursor: nat, count: nat,
                                     names: set<seq<byte>>, total: nat, e: PackageError)
    returns (front: seq<Record>, last: Record)
    requires cursor <= end <= |file| && total <= TOTAL_LIMIT && e != InvalidArchive
    requires Walk(file, end, centralOffset, cursor, count, names, total) == Err(e)
    ensures Stopped(file, end, centralOffset, cursor, count, names, total, front, last, e)
    decreases count
  {
    hide RecordAt, RecordOk, PayloadOk, PayloadSize, NamesFresh, RecordBytes;
    RecordAtError(file, end, centralOffset, cursor);
    var r := RecordAt(file, end, centralOffset, cursor).value;
    RecordAtExact(file, end, centralOffset, cursor, r);
    OneRecord(r, names);
    if !PayloadOk(r) || total + PayloadSize(r) > TOTAL_LIMIT {
      front, last := [], r;
    } else {
      var next := cursor + |RecordBytes(r)|;
      var rest;
      rest, last := StopFound(file, end, centralOffset, next, count - 1, names + {r.name}, total + PayloadSize(r), e);
      front := [r] + rest;
      StopGrows(file, end, centralOffset, cursor, count, names, total, r, rest, last, e);
    }
  }

  /** Putting one more good record in front. */
  lemma StopGrows(file: seq<byte>, end: nat, centralOffset: nat, cursor: nat, count: nat, names: set<seq<byte>>, total: nat,
                  r: Record, rest: seq<Record>, last: Record, e: PackageError)
    requires cursor <= end <= |file| && count > 0
    requires RecordOk(r, centralOffset) && RecordBytes(r) <= file[cursor..end] && PayloadOk(r)
    ensures r.name !in names && total + PayloadSize(r) <= TOTAL_LIMIT
      && Stopped(file, end, centralOffset, cursor + |RecordBytes(r)|, count - 1, names + {r.name}, total + PayloadSize(r), rest, last, e)
      <==> Stopped(file, end, centralOffset, cursor, count, names, total, [r] + rest, last, e)
           && total + PayloadSize(r) <= TOTAL_LIMIT
  {
    hide RecordOk, PayloadOk, PayloadSize, NamesFresh, RecordBytes;
    var b, n := RecordBytes(r), |RecordBytes(r)|;
    RecordsStep(r, rest, centralOffset);
    NamesStep(r, rest + [last], names);
    assert [r] + rest + [last] == [r] + (rest + [last]);
    assert ([r] + rest)[1..] == rest;
    PrefixAfter(b, Concatenated(rest) + RecordBytes(last), file[cursor..end]);
    assert file[cursor..end][n..] == file[cursor + n..end];
    assert Concatenated([r] + rest) + RecordBytes(last) == b + (Concatenated(rest) + RecordBytes(last));
  }

  lemma PrefixAfter(a: seq<byte>, b: seq<byte>, s: seq<byte>)
    requires a <= s
    ensures a + b <= s <==> b <= s[|a|..]
  {
    if b <= s[|a|..] { assert s == a + s[|a|..]; }
    if a + b <= s { assert s[|a|..][..|b|] == s[|a|..|a| + |b|] == (a + b)[|a|..]; }
  }

  lemma {:induction false} StopReached(file: seq<byte>, end: nat, centralOffset: nat, cursor: nat, count: nat,
                                       names: set<seq<byte>>, total: nat, front: seq<Record>, last: Record, e: PackageError)
    requires cursor <= end <= |file|
    requires Stopped(file, end, centralOffset, cursor, count, names, total, front, last, e)
    ensures Walk(file, end, centralOffset, cursor, count, names, total) == Err(e)
    decreases count
  {
    hide RecordAt, RecordOk, PayloadOk, PayloadSize, NamesFresh, RecordBytes;
    if front == [] {
      OneRecord(last, names);
      RecordAtExact(file, end, centralOffset, cursor, last);
    } else {
      var r, rest := front[0], front[1..];
      assert front == [r] + rest;
      assert RecordOk(r, centralOffset) && PayloadOk(r);
      assert RecordBytes(r) <= file[cursor..end] by {
        assert Concatenated(front) + RecordBytes(last) == RecordBytes(r) + (Concatenated(rest) + RecordBytes(last));
      }
      RecordAtExact(file, end, centralOffset, cursor, r);
      StopGrows(file, end, centralOffset, cursor, count, names, total, r, rest, last, e);
      StopReached(file, end, centralOffset, cursor + |RecordBytes(r)|, count - 1, names + {r.name}, total + PayloadSize(r), rest, last, e);
    }
  }

  /** A refused archive names a payload limit exactly when its directory stops at one; otherwise it is malformed. */
  lemma ValidateRefusal(file: seq<byte>, e: PackageError)
    requires e != InvalidArchive
    ensures Validate(file) == Err(e) <==>
      && 22 <= |file| <= TOTAL_LIMIT
      && exists end: nat, front, r :: StopsAt(file, end, front, r, e)
  {
    hide Walk, EndOk, FindEnd, LeU16, LeU32, Stopped;
    if Validate(file) == Err(e) {
      FindEndError(file);
      var end := FindEnd(file).value;
      EndExact(file, end);
      EndBounds(file, end);
      var at, count := LeU32(file[end..], 16), LeU16(file[end..], 10);
      WalkRefusal(file, end, at, at, count, {}, 0, e);
      var front, r :| Stopped(file, end, at, at, count, {}, 0, front, r, e);
      assert StopsAt(file, end, front, r, e);
    }
    if 22 <= |file| <= TOTAL_LIMIT && exists end: nat, front, r :: StopsAt(file, end, front, r, e) {
      var end: nat, front, r :| StopsAt(file, end, front, r, e);
      EndExact(file, end);
      EndBounds(file, end);
      var at, count := LeU32(file[end..], 16), LeU16(file[end..], 10);
      WalkRefusal(file, end, at, at, count, {}, 0, e);
    }
  }

  lemma FindEndError(file: seq<byte>)
    requires |file| >= EOCD_BYTES
    ensures FindEnd(file).Err? ==> FindEnd(file).error == InvalidArchive
  {
  }

  ghost predicate StopsAt(file: seq<byte>, end: nat, front: seq<Record>, r: Record, e: PackageError) {
    && IsEnd(file, end) && EndOk(file, end)
    && var at := LeU32(file[end..], 16);
       Stopped(file, end, at, at, LeU16(file[end..], 10), {}, 0, front, r, e)
  }

  /** The payload total adds up, record by record. */
  lemma {:induction false} TotalPayloadExact(a: seq<Record>, b: seq<Record>)
    ensures TotalPayload(a + b) == TotalPayload(a) + TotalPayload(b)
    ensures |a| == 1 ==> TotalPayload(a) == PayloadSize(a[0])
  {
    hide PayloadSize;
    if a == [] {
      assert a + b == b;
    } else {
      assert (a + b)[1..] == a[1..] + b;
      TotalPayloadExact(a[1..], b);
    }
  }
}
