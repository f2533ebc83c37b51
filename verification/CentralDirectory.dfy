/**
 The byte-level walk over a package's ZIP central directory (sections 4.3.12 and 4.3.16 of
 PKWARE APPNOTE.TXT), run before any archive library sees the file.
 */
module CentralDirectory {
  import opened Wrappers
  import opened Bytes
  import opened PackageLimits

  const MAX_ARCHIVE_BYTES := 512 * 1024 * 1024
  const REQUIRED_METADATA_FILES := 4
  const EOCD_BYTES := 22
  const MAX_ZIP_COMMENT := 65535
  const CENTRAL_HEADER_BYTES := 46
  const MAX_ARCHIVE_NAME_BYTES := 520

  const END_SIGNATURE: seq<byte> := [0x50, 0x4b, 0x05, 0x06]
  const RECORD_SIGNATURE: seq<byte> := [0x50, 0x4b, 0x01, 0x02]
  const PAYLOAD_PREFIX: seq<byte> := [0x70, 0x61, 0x79, 0x6c, 0x6f, 0x61, 0x64, 0x2f]

  function LeU16(s: seq<byte>, at: nat): nat
    requires at + 2 <= |s|
  {
    FromLe(s[at..at + 2])
  }

  function LeU32(s: seq<byte>, at: nat): nat
    requires at + 4 <= |s|
  {
    FromLe(s[at..at + 4])
  }

  predicate BitSet(n: nat, weight: nat)
    requires weight > 0
  {
    n / weight % 2 == 1
  }

  // ----- one central record -----

  type Header = h: seq<byte> | |h| == CENTRAL_HEADER_BYTES witness seq(CENTRAL_HEADER_BYTES, _ => 0)

  datatype Record = Record(header: Header, name: seq<byte>, extra: seq<byte>, comment: seq<byte>)

  function RecordBytes(r: Record): seq<byte> { r.header + r.name + r.extra + r.comment }

  function NameLen(h: Header): nat { LeU16(h, 28) }
  function ExtraLen(h: Header): nat { LeU16(h, 30) }
  function CommentLen(h: Header): nat { LeU16(h, 32) }
  function CompressedSize(h: Header): nat { LeU32(h, 20) }
  function UncompressedSize(h: Header): nat { LeU32(h, 24) }

  predicate HeaderOk(h: Header, centralOffset: nat)
  {
    && h[..4] == RECORD_SIGNATURE
    && 0 < NameLen(h) <= MAX_ARCHIVE_NAME_BYTES
    && LeU16(h, 34) == 0
    && !BitSet(LeU16(h, 8), 1) && !BitSet(LeU16(h, 8), 64) && !BitSet(LeU16(h, 8), 8192)
    && LeU16(h, 10) == 0
    && CompressedSize(h) != 0xffff_ffff
    && UncompressedSize(h) != 0xffff_ffff
    && LeU32(h, 42) != 0xffff_ffff
    && LeU32(h, 42) < centralOffset
  }

  predicate IsAscii(s: seq<byte>) { forall i :: 0 <= i < |s| ==> s[i] < 0x80 }

  /** An extra field is an exact sequence of tagged blocks, none of them ZIP64 or a Unicode path. */
  predicate ExtraOk(extra: seq<byte>) {
    extra == [] ||
    (&& |extra| >= 4
     && var end := 4 + LeU16(extra, 2);
        end <= |extra| && LeU16(extra, 0) != 0x0001 && LeU16(extra, 0) != 0x7075 && ExtraOk(extra[end..]))
  }

  /** One tagged block: a four-byte head (tag, then data length) and its data. */
  datatype Block = Block(head: seq<byte>, data: seq<byte>)

  ghost predicate BlockOk(b: Block) {
    |b.head| == 4 && |b.data| == LeU16(b.head, 2) && LeU16(b.head, 0) != 0x0001 && LeU16(b.head, 0) != 0x7075
  }

  function BlocksBytes(blocks: seq<Block>): seq<byte> {
    if blocks == [] then [] else blocks[0].head + blocks[0].data + BlocksBytes(blocks[1..])
  }

  ghost predicate BlocksOk(blocks: seq<Block>) { forall i :: 0 <= i < |blocks| ==> BlockOk(blocks[i]) }

  lemma {:induction false} ExtraSound(extra: seq<byte>) returns (blocks: seq<Block>)
    requires ExtraOk(extra)
    ensures BlocksOk(blocks) && extra == BlocksBytes(blocks)
    decreases |extra|
  {
    blocks := [];
    if extra != [] {
      var end := 4 + LeU16(extra, 2);
      var b := Block(extra[..4], extra[4..end]);
      assert b.head[2..4] == extra[2..4] && b.head[0..2] == extra[0..2];
      var rest := ExtraSound(extra[end..]);
      blocks := [b] + rest;
      assert blocks[1..] == rest;
      assert extra == extra[..4] + extra[4..end] + extra[end..];
    }
  }

  lemma {:induction false} ExtraComplete(blocks: seq<Block>)
    requires BlocksOk(blocks)
    ensures ExtraOk(BlocksBytes(blocks))
  {
    if blocks != [] {
      var b, extra := blocks[0], BlocksBytes(blocks);
      assert BlockOk(b);
      ExtraComplete(blocks[1..]);
      assert extra[0..2] == b.head[0..2] && extra[2..4] == b.head[2..4];
      assert extra[4 + |b.data|..] == BlocksBytes(blocks[1..]);
    }
  }

  /** The extra-field loop accepts exactly concatenations of tagged blocks that avoid the two refused tags. */
  lemma ExtraExact(extra: seq<byte>)
    ensures ExtraOk(extra) <==> exists blocks :: BlocksOk(blocks) && extra == BlocksBytes(blocks)
  {
    if ExtraOk(extra) { var blocks := ExtraSound(extra); }
    if exists blocks :: BlocksOk(blocks) && extra == BlocksBytes(blocks) {
      var blocks :| BlocksOk(blocks) && extra == BlocksBytes(blocks);
      ExtraComplete(blocks);
    }
  }

  predicate IsPayload(name: seq<byte>) { PAYLOAD_PREFIX <= name }

  predicate RecordOk(r: Record, centralOffset: nat) {
    && HeaderOk(r.header, centralOffset)
    && |r.name| == NameLen(r.header) && |r.extra| == ExtraLen(r.header) && |r.comment| == CommentLen(r.header)
    && IsAscii(r.name)
    && ExtraOk(r.extra)
  }

  /** Reads and checks the record at `cursor`; everything but repeated names and payload sizes. */
  function RecordAt(file: seq<byte>, end: nat, centralOffset: nat, cursor: nat): Result<Record, PackageError>
    requires end <= |file|
  {
    if cursor + CENTRAL_HEADER_BYTES > end then Err(InvalidArchive)
    else
      var nameAt := cursor + CENTRAL_HEADER_BYTES;
      var h: Header := file[cursor..nameAt];
      if !HeaderOk(h, centralOffset) then Err(InvalidArchive)
      else
        var extraAt := nameAt + NameLen(h);
        var commentAt := extraAt + ExtraLen(h);
        var recordEnd := commentAt + CommentLen(h);
        if recordEnd > end then Err(InvalidArchive)
        else
          var r := Record(h, file[nameAt..extraAt], file[extraAt..commentAt], file[commentAt..recordEnd]);
          if IsAscii(r.name) && ExtraOk(r.extra) then Ok(r) else Err(InvalidArchive)
  }

  /** Four consecutive slices of the file, as one. */
  lemma SlicesJoin(file: seq<byte>, a: nat, b: nat, c: nat, d: nat, e: nat, end: nat)
    requires a <= b <= c <= d <= e <= end <= |file|
    ensures file[a..b] + file[b..c] + file[c..d] + file[d..e] == file[a..e]
    ensures file[a..e] <= file[a..end]
  {
    assert file[a..b] + file[b..c] == file[a..c];
    assert file[a..c] + file[c..d] == file[a..d];
    assert file[a..d] + file[d..e] == file[a..e];
  }

  lemma PrefixSlices(w: seq<byte>, x: seq<byte>, y: seq<byte>, z: seq<byte>, file: seq<byte>, at: nat, end: nat)
    requires at <= end <= |file| && w + x + y + z <= file[at..end]
    ensures var b := at + |w|; var c := b + |x|; var d := c + |y|; var e := d + |z|;
            e <= end && w == file[at..b] && x == file[b..c] && y == file[c..d] && z == file[d..e]
  {
    SuffixSlice(w + x + y, z, file, at, end);
    SuffixSlice(w + x, y, file, at, end);
    SuffixSlice(w, x, file, at, end);
  }

  /** If `front` followed by `back` lies at `at`, each is its own slice. */
  lemma SuffixSlice(front: seq<byte>, back: seq<byte>, file: seq<byte>, at: nat, end: nat)
    requires at <= end <= |file| && front + back <= file[at..end]
    ensures front <= file[at..end]
    ensures var m := at + |front|; m + |back| <= end && front == file[at..m] && back == file[m..m + |back|]
  {
    var all := front + back;
    assert all == file[at..at + |all|];
    assert front == all[..|front|];
    assert back == all[|front|..];
  }

  /** The record read is the one whose bytes lie at `cursor`, and well-formed bytes are read. */
  lemma RecordAtExact(file: seq<byte>, end: nat, centralOffset: nat, cursor: nat, r: Record)
    requires cursor <= end <= |file|
    ensures RecordAt(file, end, centralOffset, cursor) == Ok(r) <==>
              RecordOk(r, centralOffset) && RecordBytes(r) <= file[cursor..end]
  {
    hide HeaderOk, ExtraOk, IsAscii, NameLen, ExtraLen, CommentLen;
    if RecordAt(file, end, centralOffset, cursor) == Ok(r) {
      var b := cursor + CENTRAL_HEADER_BYTES;
      var c := b + NameLen(r.header);
      var d := c + ExtraLen(r.header);
      SlicesJoin(file, cursor, b, c, d, d + CommentLen(r.header), end);
    }
    if RecordOk(r, centralOffset) && RecordBytes(r) <= file[cursor..end] {
      PrefixSlices(r.header, r.name, r.extra, r.comment, file, cursor, end);
    }
  }

  // ----- the walk -----

  function PayloadSize(r: Record): nat
  {
    if IsPayload(r.name) then UncompressedSize(r.header) else 0
  }

  /** A payload member is stored uncompressed and within the per-file limit. */
  predicate PayloadOk(r: Record)
  {
    IsPayload(r.name) ==>
      CompressedSize(r.header) == UncompressedSize(r.header) && UncompressedSize(r.header) <= MAX_PAYLOAD_FILE_BYTES
  }

  /** `count` records from `cursor`, which must end exactly at `end`. */
  function Walk(file: seq<byte>, end: nat, centralOffset: nat, cursor: nat, count: nat,
                names: set<seq<byte>>, total: nat): Result<seq<Record>, PackageError>
    requires cursor <= end <= |file|
    decreases count
  {
    if count == 0 then if cursor == end then Ok([]) else Err(InvalidArchive)
    else
      var read := RecordAt(file, end, centralOffset, cursor);
      if read.Err? then Err(read.error)
      else
        var r := read.value;
        if r.name in names then Err(InvalidArchive)
        else if !PayloadOk(r) then Err(Limit(PayloadFileBytes))
        else if total + PayloadSize(r) > MAX_TOTAL_PAYLOAD_BYTES then Err(Limit(TotalPayloadBytes))
        else
          var rest := Walk(file, end, centralOffset, cursor + |RecordBytes(r)|, count - 1,
                           names + {r.name}, total + PayloadSize(r));
          if rest.Err? then rest else Ok([r] + rest.value)
  }

  function Concatenated(records: seq<Record>): seq<byte> {
    if records == [] then [] else RecordBytes(records[0]) + Concatenated(records[1..])
  }

  ghost predicate RecordsOk(records: seq<Record>, centralOffset: nat) {
    forall i :: 0 <= i < |records| ==> RecordOk(records[i], centralOffset) && PayloadOk(records[i])
  }

  function TotalPayload(records: seq<Record>): nat
  {
    if records == [] then 0 else PayloadSize(records[0]) + TotalPayload(records[1..])
  }

  /** Names are pairwise distinct and none is in `names`. */
  ghost predicate NamesFresh(records: seq<Record>, names: set<seq<byte>>) {
    && (forall i :: 0 <= i < |records| ==> records[i].name !in names)
    && (forall i, j :: 0 <= i < j < |records| ==> records[i].name != records[j].name)
  }

  /** The bytes between `cursor` and `end` are exactly these records, with fresh names and bounded payload. */
  ghost predicate Tiled(file: seq<byte>, end: nat, centralOffset: nat, cursor: nat, records: seq<Record>,
                        names: set<seq<byte>>, total: nat)
    requires cursor <= end <= |file|
  {
    && RecordsOk(records, centralOffset)
    && file[cursor..end] == Concatenated(records)
    && NamesFresh(records, names)
    && total + TotalPayload(records) <= MAX_TOTAL_PAYLOAD_BYTES
  }

  lemma NamesStep(r: Record, rest: seq<Record>, names: set<seq<byte>>)
    ensures NamesFresh([r] + rest, names) <==> r.name !in names && NamesFresh(rest, names + {r.name})
  {
    var all := [r] + rest;
    assert all[0] == r && forall i :: 0 <= i < |rest| ==> rest[i] == all[i + 1];
  }

  lemma RecordsStep(r: Record, rest: seq<Record>, centralOffset: nat)
    ensures RecordsOk([r] + rest, centralOffset) <==>
              RecordOk(r, centralOffset) && PayloadOk(r) && RecordsOk(rest, centralOffset)
  {
    var all := [r] + rest;
    assert all[0] == r && forall i :: 0 <= i < |rest| ==> rest[i] == all[i + 1];
  }

  lemma {:induction false} WalkSound(file: seq<byte>, end: nat, centralOffset: nat, cursor: nat, count: nat,
                                     names: set<seq<byte>>, total: nat)
    requires cursor <= end <= |file| && total <= MAX_TOTAL_PAYLOAD_BYTES
    requires Walk(file, end, centralOffset, cursor, count, names, total).Ok?
    ensures var records := Walk(file, end, centralOffset, cursor, count, names, total).value;
            |records| == count && Tiled(file, end, centralOffset, cursor, records, names, total)
    decreases count
  {
    hide RecordAt, RecordOk, PayloadOk, PayloadSize, NamesFresh, RecordBytes;
    if count > 0 {
      var r := RecordAt(file, end, centralOffset, cursor).value;
      RecordAtExact(file, end, centralOffset, cursor, r);
      var next := cursor + |RecordBytes(r)|;
      assert file[cursor..end] == RecordBytes(r) + file[next..end];
      WalkSound(file, end, centralOffset, next, count - 1, names + {r.name}, total + PayloadSize(r));
      var rest := Walk(file, end, centralOffset, next, count - 1, names + {r.name}, total + PayloadSize(r)).value;
      NamesStep(r, rest, names);
      RecordsStep(r, rest, centralOffset);
      assert ([r] + rest)[1..] == rest;
    } else {
      assert NamesFresh([], names) by { NoNames(names); }
    }
  }

  lemma NoNames(names: set<seq<byte>>)
    ensures NamesFresh([], names)
  {
  }

  lemma {:induction false} WalkComplete(file: seq<byte>, end: nat, centralOffset: nat, cursor: nat, records: seq<Record>,
                                        names: set<seq<byte>>, total: nat)
    requires cursor <= end <= |file|
    requires Tiled(file, end, centralOffset, cursor, records, names, total)
    ensures Walk(file, end, centralOffset, cursor, |records|, names, total) == Ok(records)
    decreases |records|
  {
    hide RecordAt, RecordOk, PayloadOk, PayloadSize, NamesFresh, RecordBytes;
    if records != [] {
      var r, rest := records[0], records[1..];
      assert records == [r] + rest;
      NamesStep(r, rest, names);
      RecordsStep(r, rest, centralOffset);
      var b := RecordBytes(r);
      assert file[cursor..end] == b + Concatenated(rest);
      RecordAtExact(file, end, centralOffset, cursor, r);
      assert file[cursor + |b|..end] == file[cursor..end][|b|..];
      WalkComplete(file, end, centralOffset, cursor + |b|, rest, names + {r.name}, total + PayloadSize(r));
    } else {
      assert |file[cursor..end]| == 0;
    }
  }

  // ----- the end record and the whole check -----

  predicate SignatureAt(s: seq<byte>, j: nat) { j + 4 <= |s| && s[j..j + 4] == END_SIGNATURE }

  /** Position of the last end signature that ends at or before `n`. */
  function LastSignature(s: seq<byte>, n: nat): (r: Option<nat>)
    requires n <= |s|
    ensures r.Some? ==> r.value + 4 <= n && SignatureAt(s, r.value)
    ensures r.Some? ==> forall j: nat :: r.value < j <= n - 4 ==> !SignatureAt(s, j)
    ensures r.None? ==> forall j: nat :: j <= n - 4 ==> !SignatureAt(s, j)
  {
    if n < 4 then None
    else if SignatureAt(s, n - 4) then Some(n - 4)
    else LastSignature(s, n - 1)
  }

  predicate EndOk(file: seq<byte>, end: nat)
    requires end + EOCD_BYTES <= |file|
  {
    var eocd := file[end..];
    && LeU16(eocd, 4) == 0
    && LeU16(eocd, 6) == 0
    && LeU16(eocd, 8) == LeU16(eocd, 10)
    && LeU16(eocd, 8) != 0xffff
    && LeU32(eocd, 12) != 0xffff_ffff
    && LeU32(eocd, 16) != 0xffff_ffff
    && LeU16(eocd, 10) <= MAX_PAYLOAD_FILES + REQUIRED_METADATA_FILES
    && LeU32(eocd, 16) + LeU32(eocd, 12) == end
  }

  function TailLen(file: seq<byte>): nat {
    if |file| < EOCD_BYTES + MAX_ZIP_COMMENT then |file| else EOCD_BYTES + MAX_ZIP_COMMENT
  }

  /** Locates the end record in the last 65557 bytes. */
  function FindEnd(file: seq<byte>): Result<nat, PackageError>
    requires |file| >= EOCD_BYTES
  {
    var base := |file| - TailLen(file);
    var tail := file[base..];
    var found := LastSignature(tail, |tail|);
    if found.None? || found.value + EOCD_BYTES > |tail| then Err(InvalidArchive)
    else if found.value + EOCD_BYTES + LeU16(tail[found.value..], 20) != |tail| then Err(InvalidArchive)
    else Ok(base + found.value)
  }

  function Validate(file: seq<byte>): Result<seq<Record>, PackageError> {
    if |file| > MAX_ARCHIVE_BYTES || |file| < EOCD_BYTES then Err(InvalidArchive)
    else
      var found := FindEnd(file);
      if found.Err? then Err(found.error)
      else
        EndExact(file, found.value);
        var end := found.value;
        var eocd := file[end..];
        if !EndOk(file, end) then Err(InvalidArchive)
        else
          EndBounds(file, end);
          Walk(file, end, LeU32(eocd, 16), LeU32(eocd, 16), LeU16(eocd, 10), {}, 0)
  }

  /** `end` is the last end signature of the whole file and its comment runs exactly to the end. */
  ghost predicate IsEnd(file: seq<byte>, end: nat) {
    && end + EOCD_BYTES <= |file|
    && SignatureAt(file, end)
    && (forall j: nat :: j > end ==> !SignatureAt(file, j))
    && end + EOCD_BYTES + LeU16(file[end..], 20) == |file|
  }

  lemma TailSignature(file: seq<byte>, base: nat, j: nat)
    requires base <= |file|
    ensures SignatureAt(file[base..], j) == SignatureAt(file, base + j)
  {
    if base + j + 4 <= |file| { assert file[base..][j..j + 4] == file[base + j..base + j + 4]; }
  }

  lemma U16Bound(s: seq<byte>, at: nat)
    requires at + 2 <= |s|
    ensures LeU16(s, at) <= 0xffff
  {
    FromLeBounded(s[at..at + 2]);
    Widths();
  }

  /** Looking only at the tail finds the same end record as looking at the whole file. */
  lemma EndExact(file: seq<byte>, end: nat)
    requires |file| >= EOCD_BYTES
    ensures FindEnd(file) == Ok(end) <==> IsEnd(file, end)
  {
    hide LeU16, LastSignature, SignatureAt;
    var base := |file| - TailLen(file);
    var tail := file[base..];
    var found := LastSignature(tail, |tail|);
    if FindEnd(file) == Ok(end) {
      assert tail[end - base..] == file[end..];
      TailSignature(file, base, end - base);
      forall j: nat | j > end ensures !SignatureAt(file, j) {
        TailSignature(file, base, j - base);
        SignatureFits(file, j);
      }
    }
    if IsEnd(file, end) {
      U16Bound(file[end..], 20);
      TailSignature(file, base, end - base);
      if found.Some? { TailSignature(file, base, found.value); }
      assert found == Some(end - base);
      assert tail[end - base..] == file[end..];
    }
  }

  lemma SignatureFits(s: seq<byte>, j: nat)
    ensures SignatureAt(s, j) ==> j + 4 <= |s|
  {
  }

  /** What an accepted archive looks like, with no mention of how it is scanned. */
  ghost predicate Described(file: seq<byte>, end: nat, records: seq<Record>) {
    && EOCD_BYTES <= |file| <= MAX_ARCHIVE_BYTES
    && IsEnd(file, end)
    && EndOk(file, end)
    && var centralOffset := LeU32(file[end..], 16);
       && centralOffset <= end
       && |records| == LeU16(file[end..], 10)
       && Tiled(file, end, centralOffset, centralOffset, records, {}, 0)
  }

  /**
   The check accepts a file exactly when it ends in a last end record with its comment,
   and the bytes from the central offset to it are tiled by exactly the announced number
   of well-formed records with pairwise distinct ASCII names and bounded payload sizes.
   */
  lemma ValidateExact(file: seq<byte>, records: seq<Record>)
    ensures Validate(file) == Ok(records) <==> exists end: nat :: Described(file, end, records)
  {
    hide Walk, EndOk, Tiled, FindEnd, SignatureAt, LeU16, LeU32;
    if Validate(file) == Ok(records) {
      var end := FindEnd(file).value;
      EndExact(file, end);
      var eocd := file[end..];
      EndBounds(file, end);
      WalkSound(file, end, LeU32(eocd, 16), LeU32(eocd, 16), LeU16(eocd, 10), {}, 0);
      assert Described(file, end, records);
    }
    if exists end: nat :: Described(file, end, records) {
      var end: nat :| Described(file, end, records);
      EndExact(file, end);
      EndBounds(file, end);
      var centralOffset := LeU32(file[end..], 16);
      WalkComplete(file, end, centralOffset, centralOffset, records, {}, 0);
    }
  }

  lemma EndBounds(file: seq<byte>, end: nat)
    requires end + EOCD_BYTES <= |file| && EndOk(file, end)
    ensures LeU32(file[end..], 16) <= end
  {
  }

  /** Consequences a user of an accepted archive relies on, record by record. */
  lemma {:induction false} PayloadBounds(records: seq<Record>, centralOffset: nat, i: nat)
    requires RecordsOk(records, centralOffset) && i < |records| && IsPayload(records[i].name)
    ensures UncompressedSize(records[i].header) <= MAX_PAYLOAD_FILE_BYTES
    ensures UncompressedSize(records[i].header) <= TotalPayload(records)
    decreases i
  {
    hide RecordOk;
    assert RecordOk(records[i], centralOffset) && PayloadOk(records[i]);
    if i > 0 { PayloadBounds(records[1..], centralOffset, i - 1); }
  }

  // ----- the check as it runs -----

  /** `read_exact` after a seek: fails when the file is too short. */
  function ReadAt(file: seq<byte>, at: nat, n: nat): Option<seq<byte>> {
    if at + n <= |file| then Some(file[at..at + n]) else None
  }

  /** 64-bit `checked_add`. */
  function CheckedAdd(a: nat, b: nat): Option<nat> { if a + b <= U64_MAX then Some(a + b) else None }

  method CheckExtra(extra: seq<byte>) returns (ok: bool)
    ensures ok == ExtraOk(extra)
  {
    var cursor := 0;
    while cursor < |extra|
      invariant cursor <= |extra|
      invariant ExtraOk(extra) == ExtraOk(extra[cursor..])
    {
      var rest := extra[cursor..];
      if |extra| - cursor < 4 { return false; }
      assert rest[0..2] == extra[cursor..cursor + 2] && rest[2..4] == extra[cursor + 2..cursor + 4];
      var tag, size := LeU16(extra, cursor), LeU16(extra, cursor + 2);
      cursor := cursor + 4 + size;
      if cursor > |extra| || tag == 0x0001 || tag == 0x7075 { return false; }
      assert rest[4 + size..] == extra[cursor..];
    }
    return true;
  }

  /** Reads one record; the end of the record is computed with overflow-checked additions. */
  method ReadRecord(file: seq<byte>, end: nat, centralOffset: nat, cursor: nat)
    returns (r: Result<(Record, nat), PackageError>)
    requires cursor <= end <= |file| <= MAX_ARCHIVE_BYTES
    ensures r.Err? ==> RecordAt(file, end, centralOffset, cursor) == Err(r.error)
    ensures r.Ok? ==> RecordAt(file, end, centralOffset, cursor) == Ok(r.value.0)
    ensures r.Ok? ==> r.value.1 == cursor + |RecordBytes(r.value.0)| <= end
  {
    hide HeaderOk, ExtraOk, NameLen, ExtraLen, CommentLen;
    var headerEnd := CheckedAdd(cursor, CENTRAL_HEADER_BYTES);
    if headerEnd.None? || headerEnd.value > end { return Err(InvalidArchive); }
    var read := ReadAt(file, cursor, CENTRAL_HEADER_BYTES);
    if read.None? { return Err(Io); }
    var header: Header := read.value;
    if !HeaderOk(header, centralOffset) { return Err(InvalidArchive); }
    LengthBounds(header);
    var recordEnd := CheckedAdd(headerEnd.value, NameLen(header));
    if recordEnd.Some? { recordEnd := CheckedAdd(recordEnd.value, ExtraLen(header)); }
    if recordEnd.Some? { recordEnd := CheckedAdd(recordEnd.value, CommentLen(header)); }
    if recordEnd.None? || recordEnd.value > end { return Err(InvalidArchive); }
    var name := ReadAt(file, headerEnd.value, NameLen(header));
    if name.None? { return Err(Io); }
    var extraAt := headerEnd.value + NameLen(header);
    var extra := ReadAt(file, extraAt, ExtraLen(header));
    if extra.None? { return Err(Io); }
    if !IsAscii(name.value) { return Err(InvalidArchive); }
    var extraOk := CheckExtra(extra.value);
    if !extraOk { return Err(InvalidArchive); }
    var record := Record(header, name.value, extra.value, file[extraAt + ExtraLen(header)..recordEnd.value]);
    return Ok((record, recordEnd.value));
  }

  lemma LengthBounds(h: Header)
    ensures NameLen(h) <= 0xffff && ExtraLen(h) <= 0xffff && CommentLen(h) <= 0xffff
  {
    U16Bound(h, 28);
    U16Bound(h, 30);
    U16Bound(h, 32);
  }

  /** The loop over the announced records. */
  method WalkRecords(file: seq<byte>, end: nat, centralOffset: nat, count: nat) returns (r: Result<(), PackageError>)
    requires centralOffset <= end <= |file| <= MAX_ARCHIVE_BYTES
    ensures match Walk(file, end, centralOffset, centralOffset, count, {}, 0)
            case Ok(_) => r == Ok(())
            case Err(e) => r == Err(e)
  {
    hide RecordAt, PayloadOk, PayloadSize, RecordBytes;
    var names: set<seq<byte>> := {};
    var cursor: nat, total: nat := centralOffset, 0;
    ghost var goal := Verdict(Walk(file, end, centralOffset, cursor, count, names, total));
    for i := 0 to count
      invariant cursor <= end && total <= MAX_TOTAL_PAYLOAD_BYTES
      invariant goal == Verdict(Walk(file, end, centralOffset, cursor, count - i, names, total))
    {
      WalkStep(file, end, centralOffset, cursor, count - i, names, total);
      var read := ReadRecord(file, end, centralOffset, cursor);
      if read.Err? { return Err(read.error); }
      var (record, recordEnd) := read.value;
      if record.name in names { return Err(InvalidArchive); }
      names := names + {record.name};
      if !PayloadOk(record) { return Err(Limit(PayloadFileBytes)); }
      total := total + PayloadSize(record);
      if total > MAX_TOTAL_PAYLOAD_BYTES { return Err(Limit(TotalPayloadBytes)); }
      cursor := recordEnd;
    }
    if cursor != end { return Err(InvalidArchive); }
    return Ok(());
  }

  /** A walk's verdict without the records it collected. */
  function Verdict(r: Result<seq<Record>, PackageError>): Result<(), PackageError> {
    if r.Ok? then Ok(()) else Err(r.error)
  }

  lemma WalkStep(file: seq<byte>, end: nat, centralOffset: nat, cursor: nat, count: nat, names: set<seq<byte>>, total: nat)
    requires cursor <= end <= |file| && count > 0
    ensures Verdict(Walk(file, end, centralOffset, cursor, count, names, total)) ==
      var read := RecordAt(file, end, centralOffset, cursor);
      if read.Err? then Err(read.error)
      else if read.value.name in names then Err(InvalidArchive)
      else if !PayloadOk(read.value) then Err(Limit(PayloadFileBytes))
      else if total + PayloadSize(read.value) > MAX_TOTAL_PAYLOAD_BYTES then Err(Limit(TotalPayloadBytes))
      else if cursor + |RecordBytes(read.value)| > end then Err(InvalidArchive)
      else Verdict(Walk(file, end, centralOffset, cursor + |RecordBytes(read.value)|, count - 1,
                        names + {read.value.name}, total + PayloadSize(read.value)))
  {
    hide RecordAt, PayloadOk, PayloadSize, RecordBytes;
    var read := RecordAt(file, end, centralOffset, cursor);
    if read.Ok? { RecordAtExact(file, end, centralOffset, cursor, read.value); }
  }

  /**
   The whole check. Its verdict is the walk's; in particular it never fails on a read past
   the end of the file or on an addition that overflows.
   */
  method ValidateCentralDirectory(file: seq<byte>) returns (r: Result<(), PackageError>)
    ensures r == Verdict(Validate(file))
    ensures r != Err(Io)
    ensures r.Ok? <==> exists end: nat, records :: Described(file, end, records)
  {
    hide Walk, EndOk, Tiled, IsEnd, LastSignature, Described;
    ValidateAccepts(file);
    NeverIo(file);
    if |file| > MAX_ARCHIVE_BYTES || |file| < EOCD_BYTES { return Err(InvalidArchive); }
    var tailLen := TailLen(file);
    var tail := ReadAt(file, |file| - tailLen, tailLen);
    if tail.None? { return Err(Io); }
    assert tail.value == file[|file| - tailLen..];
    var found := LastSignature(tail.value, |tail.value|);
    if found.None? || found.value + EOCD_BYTES > |tail.value| { return Err(InvalidArchive); }
    var eocd := tail.value[found.value..];
    if found.value + EOCD_BYTES + LeU16(eocd, 20) != |tail.value| { return Err(InvalidArchive); }
    var end := |file| - tailLen + found.value;
    assert eocd == file[end..];
    if !EndOk(file, end) { return Err(InvalidArchive); }
    EndBounds(file, end);
    r := WalkRecords(file, end, LeU32(eocd, 16), LeU16(eocd, 10));
  }

  lemma ValidateAccepts(file: seq<byte>)
    ensures Validate(file).Ok? <==> exists end: nat, records :: Described(file, end, records)
  {
    hide Validate, Described;
    if Validate(file).Ok? { ValidateExact(file, Validate(file).value); }
    if exists end: nat, records :: Described(file, end, records) {
      var end: nat, records :| Described(file, end, records);
      ValidateExact(file, records);
    }
  }

  lemma {:induction false} WalkNeverIo(file: seq<byte>, end: nat, centralOffset: nat, cursor: nat, count: nat,
                                       names: set<seq<byte>>, total: nat)
    requires cursor <= end <= |file|
    ensures Walk(file, end, centralOffset, cursor, count, names, total) != Err(Io)
    decreases count
  {
    hide HeaderOk, ExtraOk, IsAscii, PayloadOk, PayloadSize, RecordBytes;
    if count > 0 {
      WalkStep(file, end, centralOffset, cursor, count, names, total);
      var read := RecordAt(file, end, centralOffset, cursor);
      if read.Ok? && cursor + |RecordBytes(read.value)| <= end {
        WalkNeverIo(file, end, centralOffset, cursor + |RecordBytes(read.value)|, count - 1,
                    names + {read.value.name}, total + PayloadSize(read.value));
      }
    }
  }

  lemma NeverIo(file: seq<byte>)
    ensures Validate(file) != Err(Io)
  {
    hide Walk, EndOk;
    if EOCD_BYTES <= |file| && FindEnd(file).Ok? {
      var end := FindEnd(file).value;
      if EndOk(file, end) {
        EndBounds(file, end);
        WalkNeverIo(file, end, LeU32(file[end..], 16), LeU32(file[end..], 16), LeU16(file[end..], 10), {}, 0);
      }
    }
  }
}
