/** The fixed parts of a ZIP directory, field by field, and what the directory check asks of each field. */
module ZipLayout {
  import opened Bytes
  import opened CentralDirectory

  // ----- little-endian fields -----

  /** The low `width` bytes of `n`, least significant first. */
  function ToLe(n: nat, width: nat): (s: seq<byte>)
    ensures |s| == width
  {
    if width == 0 then [] else [n % 256] + ToLe(n / 256, width - 1)
  }

  lemma {:induction false} FromToLe(n: nat, width: nat)
    requires n < Pow256(width)
    ensures FromLe(ToLe(n, width)) == n
  {
    if width > 0 {
      FromToLe(n / 256, width - 1);
      assert ToLe(n, width)[1..] == ToLe(n / 256, width - 1);
    }
  }

  lemma LowByte(b: byte, high: nat)
    ensures (b + 256 * high) % 256 == b && (b + 256 * high) / 256 == high
  {
  }

  lemma {:induction false} ToFromLe(s: seq<byte>)
    ensures FromLe(s) < Pow256(|s|) && ToLe(FromLe(s), |s|) == s
  {
    if s != [] {
      ToFromLe(s[1..]);
      LowByte(s[0], FromLe(s[1..]));
      assert [s[0]] + s[1..] == s;
    }
  }

  /** Sixteen and thirty-two bit fields at an offset. */
  ghost predicate Field16(h: seq<byte>, at: nat, n: u16) { at + 2 <= |h| && h[at..at + 2] == ToLe(n, 2) }

  ghost predicate Field32(h: seq<byte>, at: nat, n: u32) { at + 4 <= |h| && h[at..at + 4] == ToLe(n, 4) }

  lemma Field16Exact(h: seq<byte>, at: nat, n: u16)
    requires at + 2 <= |h|
    ensures Field16(h, at, n) <==> LeU16(h, at) == n
  {
    Widths();
    ToFromLe(h[at..at + 2]);
    FromToLe(n, 2);
  }

  lemma Field32Exact(h: seq<byte>, at: nat, n: u32)
    requires at + 4 <= |h|
    ensures Field32(h, at, n) <==> LeU32(h, at) == n
  {
    Widths();
    ToFromLe(h[at..at + 4]);
    FromToLe(n, 4);
  }

  // ----- a central header (section 4.3.12 of PKWARE APPNOTE.TXT) -----

  /** The general-purpose bits, with the three the check cares about by name. */
  datatype Flags = Flags(encrypted: bool, bits1: nat, strong: bool, bits7: nat, masked: bool, bits14: nat)

  function Bit(b: bool): nat { if b then 1 else 0 }

  predicate FlagsFit(f: Flags) { f.bits1 < 32 && f.bits7 < 64 && f.bits14 < 4 }

  /** One bit, five bits, one bit, six bits, one bit, two bits, from the lowest up. */
  function FlagsValue(f: Flags): u16
    requires FlagsFit(f)
  {
    Bit(f.encrypted) + 2 * (f.bits1 + 32 * (Bit(f.strong) + 2 * (f.bits7 + 64 * (Bit(f.masked) + 2 * f.bits14))))
  }

  function FlagsOf(n: u16): (f: Flags)
    ensures FlagsFit(f) && FlagsValue(f) == n
  {
    var a := n / 2;
    var b := a / 32;
    var c := b / 2;
    var d := c / 64;
    var e := d / 2;
    assert n == n % 2 + 2 * a && a == a % 32 + 32 * b && b == b % 2 + 2 * c && c == c % 64 + 64 * d && d == d % 2 + 2 * e;
    Flags(n % 2 == 1, a % 32, b % 2 == 1, c % 64, d % 2 == 1, e)
  }

  lemma LowBit(b: bool, high: nat)
    ensures BitSet(Bit(b) + 2 * high, 1) <==> b
  {
  }

  lemma SixthBit(low: nat, b: bool, high: nat)
    requires low < 64
    ensures BitSet(low + 64 * (Bit(b) + 2 * high), 64) <==> b
  {
    assert (low + 64 * (Bit(b) + 2 * high)) / 64 == Bit(b) + 2 * high;
  }

  lemma ThirteenthBit(low: nat, b: bool, high: nat)
    requires low < 8192
    ensures BitSet(low + 8192 * (Bit(b) + 2 * high), 8192) <==> b
  {
    assert (low + 8192 * (Bit(b) + 2 * high)) / 8192 == Bit(b) + 2 * high;
  }

  lemma FlagBits(f: Flags)
    requires FlagsFit(f)
    ensures BitSet(FlagsValue(f), 1) <==> f.encrypted
    ensures BitSet(FlagsValue(f), 64) <==> f.strong
    ensures BitSet(FlagsValue(f), 8192) <==> f.masked
  {
    hide BitSet;
    var top := Bit(f.masked) + 2 * f.bits14;
    var middle := Bit(f.strong) + 2 * (f.bits7 + 64 * top);
    LowBit(f.encrypted, f.bits1 + 32 * middle);
    var low := Bit(f.encrypted) + 2 * f.bits1;
    SixthBit(low, f.strong, f.bits7 + 64 * top);
    ThirteenthBit(low + 64 * (Bit(f.strong) + 2 * f.bits7), f.masked, f.bits14);
    assert FlagsValue(f) == low + 64 * middle == low + 64 * (Bit(f.strong) + 2 * f.bits7) + 8192 * top;
  }

  datatype CentralHeader = CentralHeader(
    versionMade: u16, versionNeeded: u16, flags: Flags, method_: u16, time: u16, date: u16, crc: u32,
    compressed: u32, uncompressed: u32, nameLen: u16, extraLen: u16, commentLen: u16,
    disk: u16, internal: u16, external: u32, localOffset: u32)

  /** The forty-six bytes of a header, in order. */
  ghost predicate Laid(f: CentralHeader, h: Header) {
    && FlagsFit(f.flags)
    && h[0..4] == Ascii("PK") + [1, 2]
    && Field16(h, 4, f.versionMade) && Field16(h, 6, f.versionNeeded) && Field16(h, 8, FlagsValue(f.flags))
    && Field16(h, 10, f.method_) && Field16(h, 12, f.time) && Field16(h, 14, f.date) && Field32(h, 16, f.crc)
    && Field32(h, 20, f.compressed) && Field32(h, 24, f.uncompressed)
    && Field16(h, 28, f.nameLen) && Field16(h, 30, f.extraLen) && Field16(h, 32, f.commentLen)
    && Field16(h, 34, f.disk) && Field16(h, 36, f.internal) && Field32(h, 38, f.external) && Field32(h, 42, f.localOffset)
  }

  lemma Signatures()
    ensures RECORD_SIGNATURE == Ascii("PK") + [1, 2] && END_SIGNATURE == Ascii("PK") + [5, 6]
    ensures PAYLOAD_PREFIX == Ascii("payload/")
  {
  }

  /** Every header that starts with the signature is laid out from some fields. */
  lemma HeaderHasFields(h: Header) returns (f: CentralHeader)
    requires h[0..4] == Ascii("PK") + [1, 2]
    ensures Laid(f, h)
  {
    hide LeU16, LeU32, Field16, Field32, FlagsOf;
    ReadsFit(h);
    f := CentralHeader(LeU16(h, 4), LeU16(h, 6), FlagsOf(LeU16(h, 8)), LeU16(h, 10), LeU16(h, 12), LeU16(h, 14), LeU32(h, 16),
                       LeU32(h, 20), LeU32(h, 24), LeU16(h, 28), LeU16(h, 30), LeU16(h, 32), LeU16(h, 34), LeU16(h, 36),
                       LeU32(h, 38), LeU32(h, 42));
    Fields16(h, f);
    Fields32(h, f);
  }

  lemma ReadsFit(h: Header)
    ensures forall at: nat :: at + 2 <= |h| ==> LeU16(h, at) < 0x1_0000
    ensures forall at: nat :: at + 4 <= |h| ==> LeU32(h, at) < 0x1_0000_0000
  {
    Widths();
    forall at: nat | at + 2 <= |h| ensures LeU16(h, at) < 0x1_0000 { FromLeBounded(h[at..at + 2]); }
    forall at: nat | at + 4 <= |h| ensures LeU32(h, at) < 0x1_0000_0000 { FromLeBounded(h[at..at + 4]); }
  }

  lemma Fields16(h: Header, f: CentralHeader)
    requires FlagsFit(f.flags)
    ensures Field16(h, 4, f.versionMade) <==> LeU16(h, 4) == f.versionMade
    ensures Field16(h, 6, f.versionNeeded) <==> LeU16(h, 6) == f.versionNeeded
    ensures Field16(h, 8, FlagsValue(f.flags)) <==> LeU16(h, 8) == FlagsValue(f.flags)
    ensures Field16(h, 10, f.method_) <==> LeU16(h, 10) == f.method_
    ensures Field16(h, 12, f.time) <==> LeU16(h, 12) == f.time
    ensures Field16(h, 14, f.date) <==> LeU16(h, 14) == f.date
    ensures Field16(h, 28, f.nameLen) <==> LeU16(h, 28) == f.nameLen
    ensures Field16(h, 30, f.extraLen) <==> LeU16(h, 30) == f.extraLen
    ensures Field16(h, 32, f.commentLen) <==> LeU16(h, 32) == f.commentLen
    ensures Field16(h, 34, f.disk) <==> LeU16(h, 34) == f.disk
    ensures Field16(h, 36, f.internal) <==> LeU16(h, 36) == f.internal
  {
    hide Field16, LeU16, FlagsValue;
    Field16Exact(h, 4, f.versionMade);
    Field16Exact(h, 6, f.versionNeeded);
    Field16Exact(h, 8, FlagsValue(f.flags));
    Field16Exact(h, 10, f.method_);
    Field16Exact(h, 12, f.time);
    Field16Exact(h, 14, f.date);
    Field16Exact(h, 28, f.nameLen);
    Field16Exact(h, 30, f.extraLen);
    Field16Exact(h, 32, f.commentLen);
    Field16Exact(h, 34, f.disk);
    Field16Exact(h, 36, f.internal);
  }

  lemma Fields32(h: Header, f: CentralHeader)
    ensures Field32(h, 16, f.crc) <==> LeU32(h, 16) == f.crc
    ensures Field32(h, 20, f.compressed) <==> LeU32(h, 20) == f.compressed
    ensures Field32(h, 24, f.uncompressed) <==> LeU32(h, 24) == f.uncompressed
    ensures Field32(h, 38, f.external) <==> LeU32(h, 38) == f.external
    ensures Field32(h, 42, f.localOffset) <==> LeU32(h, 42) == f.localOffset
  {
    hide Field32, LeU32;
    Field32Exact(h, 16, f.crc);
    Field32Exact(h, 20, f.compressed);
    Field32Exact(h, 24, f.uncompressed);
    Field32Exact(h, 38, f.external);
    Field32Exact(h, 42, f.localOffset);
  }

  /** The lengths and sizes are read from their own fields. */
  lemma HeaderReads(f: CentralHeader, h: Header)
    requires Laid(f, h)
    ensures NameLen(h) == f.nameLen && ExtraLen(h) == f.extraLen && CommentLen(h) == f.commentLen
    ensures CompressedSize(h) == f.compressed && UncompressedSize(h) == f.uncompressed
  {
    hide Field16, Field32, LeU16, LeU32;
    Fields16(h, f);
    Fields32(h, f);
  }

  /** A header passes exactly when its name is bounded, it is stored plain on this disk, and no field is a ZIP64 placeholder. */
  lemma HeaderExact(f: CentralHeader, h: Header, centralOffset: nat)
    requires Laid(f, h)
    ensures HeaderOk(h, centralOffset) <==>
      && 1 <= f.nameLen <= 520 && f.disk == 0 && f.method_ == 0
      && !f.flags.encrypted && !f.flags.strong && !f.flags.masked
      && f.compressed < 0xffff_ffff && f.uncompressed < 0xffff_ffff && f.localOffset < 0xffff_ffff
      && f.localOffset < centralOffset
  {
    hide Field16, Field32, LeU16, LeU32, FlagsValue, BitSet;
    Fields16(h, f);
    Fields32(h, f);
    FlagBits(f.flags);
    Signatures();
    assert h[..4] == h[0..4];
  }

  /** A file without that signature has no record there. */
  lemma HeaderNeedsSignature(h: Header, centralOffset: nat)
    requires HeaderOk(h, centralOffset)
    ensures h[0..4] == Ascii("PK") + [1, 2]
  {
    Signatures();
    assert h[..4] == h[0..4];
  }

  /** A name is ASCII exactly when it is the bytes of some ASCII text. */
  lemma AsciiName(name: seq<byte>)
    ensures IsAscii(name) <==> exists text: string :: (forall c :: c in text ==> c <= '\U{7f}') && name == Ascii(text)
  {
    if IsAscii(name) {
      var text := seq(|name|, i requires 0 <= i < |name| => name[i] as char);
      assert name == Ascii(text);
    }
    if text: string :| (forall c :: c in text ==> c <= '\U{7f}') && name == Ascii(text) {
      assert forall i :: 0 <= i < |text| ==> text[i] in text;
    }
  }

  /** Header, name, extra field and comment follow one another. */
  lemma RecordLaid(r: Record)
    ensures var b := RecordBytes(r);
      var n, e := 46 + |r.name|, 46 + |r.name| + |r.extra|;
      && |b| == e + |r.comment|
      && b[..46] == r.header && b[46..n] == r.name && b[n..e] == r.extra && b[e..] == r.comment
  {
  }

  // ----- the end record (section 4.3.16 of PKWARE APPNOTE.TXT) -----

  datatype EndRecord = EndRecord(
    disk: u16, centralDisk: u16, diskEntries: u16, totalEntries: u16, centralSize: u32, centralOffset: u32, commentLen: u16)

  /** The twenty-two fixed bytes at `at`. */
  ghost predicate EndLaid(e: EndRecord, file: seq<byte>, at: nat) {
    && at + 22 <= |file| && file[at..at + 4] == Ascii("PK") + [5, 6]
    && Field16(file[at..], 4, e.disk) && Field16(file[at..], 6, e.centralDisk)
    && Field16(file[at..], 8, e.diskEntries) && Field16(file[at..], 10, e.totalEntries)
    && Field32(file[at..], 12, e.centralSize) && Field32(file[at..], 16, e.centralOffset)
    && Field16(file[at..], 20, e.commentLen)
  }

  lemma EndFields(e: EndRecord, s: seq<byte>)
    requires |s| >= 22
    ensures Field16(s, 4, e.disk) <==> LeU16(s, 4) == e.disk
    ensures Field16(s, 6, e.centralDisk) <==> LeU16(s, 6) == e.centralDisk
    ensures Field16(s, 8, e.diskEntries) <==> LeU16(s, 8) == e.diskEntries
    ensures Field16(s, 10, e.totalEntries) <==> LeU16(s, 10) == e.totalEntries
    ensures Field32(s, 12, e.centralSize) <==> LeU32(s, 12) == e.centralSize
    ensures Field32(s, 16, e.centralOffset) <==> LeU32(s, 16) == e.centralOffset
    ensures Field16(s, 20, e.commentLen) <==> LeU16(s, 20) == e.commentLen
  {
    hide Field16, Field32, LeU16, LeU32;
    Field16Exact(s, 4, e.disk);
    Field16Exact(s, 6, e.centralDisk);
    Field16Exact(s, 8, e.diskEntries);
    Field16Exact(s, 10, e.totalEntries);
    Field32Exact(s, 12, e.centralSize);
    Field32Exact(s, 16, e.centralOffset);
    Field16Exact(s, 20, e.commentLen);
  }

  /**
   An end record is the one used exactly when it is the last signature and its comment ends the
   file; it passes exactly when it describes one disk, agrees with itself, holds no ZIP64
   placeholder, announces at most 4100 entries, and its directory ends where it starts.
   */
  lemma EndRecordExact(e: EndRecord, file: seq<byte>, at: nat)
    requires EndLaid(e, file, at)
    ensures IsEnd(file, at) <==> at + 22 + e.commentLen == |file| && forall j: nat :: j > at ==> !SignatureAt(file, j)
    ensures EndOk(file, at) <==>
      && e.disk == 0 && e.centralDisk == 0 && e.diskEntries == e.totalEntries && e.totalEntries <= 4100
      && e.centralSize < 0xffff_ffff && e.centralOffset < 0xffff_ffff && e.centralOffset + e.centralSize == at
  {
    hide Field16, Field32, LeU16, LeU32;
    EndFields(e, file[at..]);
    Signatures();
  }

  /** What an accepted archive announces is what it holds. */
  lemma AnnouncedRecords(e: EndRecord, file: seq<byte>, at: nat, records: seq<Record>)
    requires EndLaid(e, file, at)
    ensures Described(file, at, records) <==>
      && |file| <= 512 * 1024 * 1024 && IsEnd(file, at) && EndOk(file, at)
      && |records| == e.totalEntries && e.centralOffset <= at
      && Tiled(file, at, e.centralOffset, e.centralOffset, records, {}, 0)
  {
    hide Field16, Field32, LeU16, LeU32, Tiled, IsEnd;
    EndFields(e, file[at..]);
    EndRecordExact(e, file, at);
  }

  /** An end signature is at a position exactly when the four bytes stand there, at the very end included. */
  lemma SignatureExact(s: seq<byte>, at: nat)
    ensures SignatureAt(s, at) <==> exists front, rest :: |front| == at && s == front + (Ascii("PK") + [5, 6]) + rest
  {
    Signatures();
    if SignatureAt(s, at) { assert s == s[..at] + s[at..at + 4] + s[at + 4..]; }
    if front, rest :| |front| == at && s == front + (Ascii("PK") + [5, 6]) + rest {
      assert s[at..at + 4] == Ascii("PK") + [5, 6];
    }
  }
}
