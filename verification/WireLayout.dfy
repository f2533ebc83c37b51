/** Byte positions of the wire formats, as a peer written against the format would read them. */
module WireLayout {
  import opened Wrappers
  import opened Bytes
  import F = Frames
  import D = Datagram
  import Json
  import Payload
  import opened PackageLimits

  // ----- numbers, most significant byte first -----

  function Number16(s: seq<byte>, at: nat): nat
    requires at + 2 <= |s|
  {
    var high: nat := s[at];
    high * 256 + s[at + 1]
  }

  function Number32(s: seq<byte>, at: nat): nat
    requires at + 4 <= |s|
  {
    0x1_0000 * Number16(s, at) + Number16(s, at + 2)
  }

  function Number64(s: seq<byte>, at: nat): nat
    requires at + 8 <= |s|
  {
    0x1_0000_0000 * Number32(s, at) + Number32(s, at + 4)
  }

  lemma Be16(n: u16)
    ensures ToBe(n, 2) == [n / 256, n % 256]
  {
    assert ToBe(n / 256, 1) == ToBe(n / 256 / 256, 0) + [n / 256 % 256];
  }

  /** A number in four bytes is its two halves in two bytes each. */
  lemma Be32(n: u32)
    ensures ToBe(n, 4) == ToBe(n / 0x1_0000, 2) + ToBe(n % 0x1_0000, 2)
  {
    var m := n / 256;
    assert ToBe(n, 4) == ToBe(m, 3) + [n % 256];
    assert ToBe(m, 3) == ToBe(m / 256, 2) + [m % 256];
    Be16(n % 0x1_0000);
    assert m / 256 == n / 0x1_0000 && m % 256 == n % 0x1_0000 / 256 && n % 256 == n % 0x1_0000 % 256;
  }

  lemma {:induction false} BeSplit(n: nat, width: nat)
    ensures ToBe(n, width + 4) == ToBe(n / 0x1_0000_0000, width) + ToBe(n % 0x1_0000_0000, 4)
  {
    var low := n % 0x1_0000_0000;
    Peel(n, width);
    Peel(low, 0);
    Bytewise(n);
    assert low / 0x1_0000_0000 == 0 && ToBe(0, 0) == [];
  }

  /** The last four bytes of a number, one at a time. */
  lemma Peel(n: nat, width: nat)
    ensures ToBe(n, width + 4) ==
      ToBe(n / 0x1_0000_0000, width) + [n / 0x100_0000 % 256, n / 0x1_0000 % 256, n / 256 % 256, n % 256]
  {
    assert ToBe(n, width + 4) == ToBe(n / 256, width + 3) + [n % 256];
    assert ToBe(n / 256, width + 3) == ToBe(n / 0x1_0000, width + 2) + [n / 256 % 256];
    assert ToBe(n / 0x1_0000, width + 2) == ToBe(n / 0x100_0000, width + 1) + [n / 0x1_0000 % 256];
    assert ToBe(n / 0x100_0000, width + 1) == ToBe(n / 0x1_0000_0000, width) + [n / 0x100_0000 % 256];
  }

  lemma Bytewise(n: nat)
    ensures var low := n % 0x1_0000_0000;
      && low / 0x100_0000 % 256 == n / 0x100_0000 % 256 && low / 0x1_0000 % 256 == n / 0x1_0000 % 256
      && low / 256 % 256 == n / 256 % 256 && low % 256 == n % 256
  {
    var q, low := n / 0x1_0000_0000, n % 0x1_0000_0000;
    assert n / 0x100_0000 == 0x100 * q + low / 0x100_0000;
    assert n / 0x1_0000 == 0x1_0000 * q + low / 0x1_0000;
    assert n / 0x100 == 0x100_0000 * q + low / 0x100;
    LowByteOf(q, low / 0x100_0000);
    LowByteOf(0x100 * q, low / 0x1_0000);
    LowByteOf(0x1_0000 * q, low / 0x100);
    LowByteOf(0x100_0000 * q, low);
  }

  lemma LowByteOf(q: nat, low: nat)
    ensures (0x100 * q + low) % 256 == low % 256
  {
  }

  lemma Read16(s: seq<byte>, at: nat, n: u16)
    requires at + 2 <= |s| && s[at..at + 2] == ToBe(n, 2)
    ensures Number16(s, at) == n
  {
    Be16(n);
    assert s[at] == s[at..at + 2][0] && s[at + 1] == s[at..at + 2][1];
  }

  lemma Read32(s: seq<byte>, at: nat, n: u32)
    requires at + 4 <= |s| && s[at..at + 4] == ToBe(n, 4)
    ensures Number32(s, at) == n
  {
    Be32(n);
    assert s[at..at + 2] == s[at..at + 4][..2] && s[at + 2..at + 4] == s[at..at + 4][2..];
    Read16(s, at, n / 0x1_0000);
    Read16(s, at + 2, n % 0x1_0000);
  }

  lemma Read64(s: seq<byte>, at: nat, n: u64)
    requires at + 8 <= |s| && s[at..at + 8] == ToBe(n, 8)
    ensures Number64(s, at) == n
  {
    hide ToBe, Number32;
    BeSplit(n, 4);
    assert s[at..at + 4] == s[at..at + 8][..4] && s[at + 4..at + 8] == s[at..at + 8][4..];
    Read32(s, at, n / 0x1_0000_0000);
    Read32(s, at + 4, n % 0x1_0000_0000);
  }

  // ----- frames -----

  /** Which frames encode, and where every field of one lies. */
  lemma FrameLayout(d: F.Dialect, f: F.Frame)
    ensures F.Encode(d, f).Ok? <==>
      && |f.payload| <= (if d == F.Manager && f.kind == F.Control then 16 * 1024 else 64 * 1024)
      && (f.kind == F.Control <==> f.streamId == 0)
    ensures F.Encode(d, f).Ok? ==> var b := F.Encode(d, f).value;
      && |b| == 12 + |f.payload|
      && b[0] == 1 && b[1] == (match f.kind case Control => 1 case Data => 2) && b[2] == b[3] == 0
      && Number32(b, 4) == f.streamId && Number32(b, 8) == |f.payload| && b[12..] == f.payload
    ensures F.Encode(d, f).Err? ==>
      F.Encode(d, f).error == if |f.payload| > F.Limit(d, f.kind) then F.LimitExceeded else F.MalformedFrame
  {
    hide ToBe, Number32;
    if F.Encode(d, f).Ok? {
      var b := F.Encode(d, f).value;
      assert b[4..8] == ToBe(f.streamId, 4) && b[8..12] == ToBe(|f.payload|, 4);
      Read32(b, 4, f.streamId);
      Read32(b, 8, |f.payload|);
    }
  }

  lemma Be32Read(s: seq<byte>, at: nat)
    requires at + 4 <= |s|
    ensures FromBe(s[at..at + 4]) == Number32(s, at)
  {
    F.WordFits(s[at..at + 4]);
    ToFromBe(s[at..at + 4]);
    Read32(s, at, FromBe(s[at..at + 4]));
  }

  /** A header this side can read: version 1, a known kind, and zero in the two spare bytes. */
  ghost predicate KnownHeader(b: seq<byte>) { |b| >= 12 && b[0] == 1 && b[1] in {1, 2} && b[2] == b[3] == 0 }

  ghost function PayloadLimit(d: F.Dialect, kind: byte): nat { if d == F.Manager && kind == 1 then 16 * 1024 else 64 * 1024 }

  /** Which bytes are refused as a frame, and how. */
  lemma FrameRefusal(d: F.Dialect, b: seq<byte>)
    ensures F.Decode(d, b) == Err(F.UnsupportedFrame) <==> |b| >= 12 && (b[0] != 1 || b[1] !in {1, 2})
    ensures F.Decode(d, b) == Err(F.LimitExceeded) <==> KnownHeader(b) && Number32(b, 8) > PayloadLimit(d, b[1])
    ensures F.Decode(d, b) == Err(F.MalformedFrame) <==>
      || (|b| >= 12 && b[0] == 1 && b[1] in {1, 2} && !(b[2] == b[3] == 0))
      || (KnownHeader(b) && Number32(b, 8) <= PayloadLimit(d, b[1]) && (b[1] == 1) != (Number32(b, 4) == 0))
    ensures F.Decode(d, b) == Err(F.TruncatedFrame) <==>
      || |b| < 12
      || (KnownHeader(b) && Number32(b, 8) <= PayloadLimit(d, b[1]) && (b[1] == 1 <==> Number32(b, 4) == 0)
          && |b| < 12 + Number32(b, 8))
  {
    hide FromBe, Number32;
    if |b| >= 12 {
      Be32Read(b, 4);
      Be32Read(b, 8);
    }
  }

  /** How the SDK's reader fails: out of bytes, an announced length past the limit, or bytes that are no frame. */
  lemma ReadRefusal(b: seq<byte>)
    ensures F.ReadFrame(b) == Err(F.EndOfStream) <==>
      |b| < 12 || (Number32(b, 8) <= 64 * 1024 && |b| < 12 + Number32(b, 8))
    ensures F.ReadFrame(b) == Err(F.FrameLimit) <==> |b| >= 12 && Number32(b, 8) > 64 * 1024
    ensures F.ReadFrame(b) == Err(F.BadFrame) <==>
      && |b| >= 12 && Number32(b, 8) <= 64 * 1024 && |b| >= 12 + Number32(b, 8)
      && (!KnownHeader(b) || (b[1] == 1) != (Number32(b, 4) == 0))
  {
    hide FromBe, Number32, F.Decode, KnownHeader;
    F.ReadFrameIsDecode(b);
    FrameRefusal(F.App, b);
    if |b| >= 12 { Be32Read(b, 8); }
    KnownOrNot(b);
  }

  lemma KnownOrNot(b: seq<byte>)
    ensures |b| >= 12 ==> (KnownHeader(b) <==> b[0] == 1 && b[1] in {1, 2} && b[2] == b[3] == 0)
    ensures KnownHeader(b) ==> |b| >= 12
  {
  }

  // ----- datagrams -----

  /** Identifiers are one to 256 visible ASCII characters. */
  lemma IdExact(text: string)
    requires forall i :: 0 <= i < |text| ==> text[i] as int < 256
    ensures D.ValidId(Ascii(text)) <==> 1 <= |text| <= 256 && forall i :: 0 <= i < |text| ==> '!' <= text[i] <= '~'
  {
    var b := Ascii(text);
    assert forall i :: 0 <= i < |text| ==> b[i] == text[i] as int;
  }

  /** A length in two bytes at `at`, then that many bytes. */
  ghost predicate Counted(s: seq<byte>, at: nat, v: seq<byte>) {
    at + 2 + |v| <= |s| && Number16(s, at) == |v| && s[at + 2..at + 2 + |v|] == v
  }

  lemma PrefixedAt(front: seq<byte>, v: seq<byte>, rest: seq<byte>)
    requires |v| < 0x1_0000
    ensures Counted(front + (D.Prefixed(v) + rest), |front|, v)
  {
    hide ToBe;
    var s := front + (D.Prefixed(v) + rest);
    assert s[|front|..|front| + 2] == ToBe(|v|, 2);
    assert s[|front| + 2..|front| + 2 + |v|] == v;
    Read16(s, |front|, |v|);
  }

  /** The two identifiers stand first, each behind its length. */
  lemma RequestIds(m: D.Request)
    requires D.RequestError(m).None?
    ensures var s := D.RequestBytes(m);
      && |s| >= 5 && s[..4] == Ascii("IDG1") && s[4] == (match m case Send(_, _, _, _, _, _, _, _) => 1 case Receive(_, _) => 2)
      && Counted(s, 5, m.primaryId) && Counted(s, 7 + |m.primaryId|, m.childId)
      && (m.Receive? ==> |s| == 9 + |m.primaryId| + |m.childId|)
  {
    hide D.Prefixed, Counted, ToBe, D.RequestBytes, RequestRest;
    var p, c, rest := D.Prefixed(m.primaryId), D.Prefixed(m.childId), RequestRest(m);
    PrefixedLength(m.primaryId);
    PrefixedLength(m.childId);
    RequestSplits(m);
    assert D.REQUEST_MAGIC == Ascii("IDG1");
    FieldsFirst(D.REQUEST_MAGIC, [if m.Send? then 1 else 2], p, c, rest);
    PrefixedAt(D.RequestBytes(m)[..5], m.primaryId, c + rest);
    PrefixedAt(D.RequestBytes(m)[..5 + |p|], m.childId, rest);
  }

  /** What follows the identifiers. */
  ghost function RequestRest(m: D.Request): seq<byte> {
    match m
    case Send(_, _, hash, sp, dp, protocol, options, payload) =>
      hash + (ToBe(sp, 2) + (ToBe(dp, 2) + ([protocol] + (D.Prefixed(options) + D.Prefixed(payload)))))
    case Receive(_, _) => []
  }

  lemma RequestSplits(m: D.Request)
    ensures D.RequestBytes(m) == D.REQUEST_MAGIC
      + ([if m.Send? then 1 else 2] + (D.Prefixed(m.primaryId) + (D.Prefixed(m.childId) + RequestRest(m))))
    ensures m.Receive? ==> RequestRest(m) == []
  {
    hide D.Prefixed, ToBe;
    if m.Receive? { assert D.Prefixed(m.childId) + [] == D.Prefixed(m.childId); }
  }

  lemma FieldsFirst(magic: seq<byte>, tag: seq<byte>, p: seq<byte>, c: seq<byte>, rest: seq<byte>)
    requires |magic| == 4 && |tag| == 1
    ensures var s := magic + (tag + (p + (c + rest)));
      s[..4] == magic && s[4] == tag[0] && s == s[..5] + (p + (c + rest)) && s == s[..5 + |p|] + (c + rest)
  {
  }

  lemma PrefixedLength(v: seq<byte>)
    ensures |D.Prefixed(v)| == 2 + |v|
  {
  }

  /** Hash, source port, destination port, protocol, options and payload of a send, at fixed offsets past the identifiers. */
  lemma SendLayout(m: D.Request)
    requires m.Send? && D.RequestError(m).None?
    ensures var s := D.RequestBytes(m); var at := 9 + |m.primaryId| + |m.childId|;
      && |s| == at + 41 + |m.options| + |m.payload|
      && s[at..at + 32] == m.destinationHash
      && Number16(s, at + 32) == m.sourcePort && Number16(s, at + 34) == m.destinationPort && s[at + 36] == m.protocol
      && Counted(s, at + 37, m.options) && Counted(s, at + 39 + |m.options|, m.payload)
  {
    hide D.Prefixed, Counted, Number16, ToBe;
    var front, o, p := SendFront(m), D.Prefixed(m.options), D.Prefixed(m.payload);
    var sp, dp := ToBe(m.sourcePort, 2), ToBe(m.destinationPort, 2);
    PrefixedLength(m.options);
    PrefixedLength(m.payload);
    FieldsAfter(front, m.destinationHash, sp, dp, [m.protocol], o, p);
    SendSplits(m);
    Read16(D.RequestBytes(m), |front| + 32, m.sourcePort);
    Read16(D.RequestBytes(m), |front| + 34, m.destinationPort);
    PrefixedAt(D.RequestBytes(m)[..|front| + 37], m.options, p);
    PrefixedAt(D.RequestBytes(m)[..|front| + 37 + |o|], m.payload, []);
  }

  /** What precedes the hash of a send. */
  ghost function SendFront(m: D.Request): (s: seq<byte>)
    ensures |s| == 9 + |m.primaryId| + |m.childId|
  {
    D.REQUEST_MAGIC + ([1] + (D.Prefixed(m.primaryId) + D.Prefixed(m.childId)))
  }

  lemma SendSplits(m: D.Request)
    requires m.Send?
    ensures D.RequestBytes(m) == SendFront(m) + RequestRest(m)
  {
    hide D.Prefixed, ToBe, D.RequestBytes, RequestRest;
    RequestSplits(m);
    Regroup(D.REQUEST_MAGIC, [1], D.Prefixed(m.primaryId), D.Prefixed(m.childId), RequestRest(m), []);
    assert RequestRest(m) + [] == RequestRest(m);
  }

  lemma FieldsAfter(front: seq<byte>, hash: seq<byte>, sp: seq<byte>, dp: seq<byte>, one: seq<byte>, o: seq<byte>, p: seq<byte>)
    requires |hash| == 32 && |sp| == |dp| == 2 && |one| == 1
    ensures var s := front + (hash + (sp + (dp + (one + (o + p))))); var at := |front|;
      && |s| == at + 37 + |o| + |p| && s[at..at + 32] == hash && s[at + 32..at + 34] == sp && s[at + 34..at + 36] == dp
      && s[at + 36] == one[0] && s == s[..at + 37] + (o + p) && s == s[..at + 37 + |o|] + (p + [])
  {
  }

  /** The tag of a reply, and every field of a delivery. */
  lemma ReplyLayout(m: D.Reply)
    requires D.ReplyError(m).None?
    ensures var s := D.ReplyBytes(m);
      && |s| >= 5 && s[..4] == Ascii("IDR1")
      && s[4] == (match m case Sent => 1 case Delivered(_) => 2 case Empty => 3 case Rejected => 4)
      && (!m.Delivered? ==> |s| == 5)
    ensures m.Delivered? ==> DeliveryLaid(D.ReplyBytes(m), m.event)
  {
    hide DeliveryLaid, D.Prefixed, ToBe;
    assert D.ReplyBytes(m)[..4] == Ascii("IDR1");
    if m.Delivered? { DeliveryLayout(m.event); }
  }

  ghost predicate DeliveryLaid(s: seq<byte>, e: D.Event) {
    && |s| == 55 + |e.options| + |e.payload|
    && s[5..37] == e.fromHash && s[37] == (if e.senderAuthenticated then 1 else 0)
    && Number16(s, 38) == e.sourcePort && Number16(s, 40) == e.destinationPort && s[42] == e.protocol
    && Number64(s, 43) == e.receivedAtMs
    && Counted(s, 51, e.options) && Counted(s, 53 + |e.options|, e.payload)
  }

  lemma DeliveryLayout(e: D.Event)
    requires D.Fits(e.options, e.payload)
    ensures DeliveryLaid(D.ReplyBytes(D.Delivered(e)), e)
  {
    hide D.Prefixed, Counted, Number16, Number64, ToBe;
    var s := D.ReplyBytes(D.Delivered(e));
    PrefixedLength(e.options);
    PrefixedLength(e.payload);
    var o, p := D.Prefixed(e.options), D.Prefixed(e.payload);
    assert s[38..40] == ToBe(e.sourcePort, 2) && s[40..42] == ToBe(e.destinationPort, 2) && s[43..51] == ToBe(e.receivedAtMs, 8);
    Read16(s, 38, e.sourcePort);
    Read16(s, 40, e.destinationPort);
    Read64(s, 43, e.receivedAtMs);
    assert s == s[..51] + (o + p);
    PrefixedAt(s[..51], e.options, p);
    assert s == s[..53 + |e.options|] + (p + []);
    PrefixedAt(s[..53 + |e.options|], e.payload, []);
  }

  // ----- the signed transcript -----

  /** Where the manifest, the inventory and the key lie in what a publisher signs. */
  lemma TranscriptLayout(m: seq<byte>, i: seq<byte>, k: seq<byte>)
    requires Payload.Transcript(m, i, k).Ok?
    ensures var s := Payload.Transcript(m, i, k).value; var at := 24 + |m|;
      && |s| == 28 + |m| + |i| + |k|
      && s[..20] == Ascii("I2PR-APP-PACKAGE-V1") + [0]
      && Number32(s, 20) == |m| && s[24..at] == m
      && Number32(s, at) == |i| && s[at + 4..at + 4 + |i|] == i && s[at + 4 + |i|..] == k
  {
    hide ToBe, Number32;
    Payload.TranscriptNested(m, i, k);
    var s := Payload.Transcript(m, i, k).value;
    assert Payload.SIGNATURE_PREFIX == Ascii("I2PR-APP-PACKAGE-V1") + [0];
    assert s[20..24] == ToBe(|m|, 4) && s[24 + |m|..28 + |m|] == ToBe(|i|, 4);
    Read32(s, 20, |m|);
    Read32(s, 24 + |m|, |i|);
  }

  /** Only lengths that do not fit 32 bits are refused, the manifest's first. */
  lemma TranscriptRefusal(m: seq<byte>, i: seq<byte>, k: seq<byte>)
    ensures Payload.Transcript(m, i, k).Ok? <==> |m| < 0x1_0000_0000 && |i| < 0x1_0000_0000
    ensures Payload.Transcript(m, i, k) == Err(Limit(ManifestBytes)) <==> |m| >= 0x1_0000_0000
    ensures Payload.Transcript(m, i, k) == Err(Limit(InventoryBytes)) <==> |m| < 0x1_0000_0000 <= |i|
  {
  }

  // ----- the alphabet of the key scanner -----

  lemma JsonAlphabet(b: byte)
    ensures Json.IsBlank(b) <==> b in Ascii(" \t\n\r")
    ensures Json.IsDelimiter(b) <==> b in Ascii(" \t\n\r,:]}")
    ensures Json.IsNumberByte(b) <==> b in Ascii("0123456789+-.eE")
    ensures Json.TRUE == Ascii("true") && Json.FALSE == Ascii("false") && Json.NULL == Ascii("null")
    ensures [Json.QUOTE, Json.BACKSLASH, Json.LBRACE, Json.RBRACE, Json.LBRACKET, Json.RBRACKET, Json.COLON, Json.COMMA]
      == Ascii("\"\\{}[]:,")
  {
    Spelled(b, " \t\n\r");
    Spelled(b, " \t\n\r,:]}");
    Spelled(b, "0123456789+-.eE");
  }

  /** A scalar is one of the three keywords or a nonempty run of number characters. */
  lemma ScalarExact(s: seq<byte>)
    ensures Json.ScalarToken(s) <==>
      || s in {Ascii("true"), Ascii("false"), Ascii("null")}
      || (s != [] && forall b :: b in s ==> b in Ascii("0123456789+-.eE"))
  {
    hide Ascii;
    forall b: byte ensures Json.IsNumberByte(b) <==> b in Ascii("0123456789+-.eE") { JsonAlphabet(b); }
    JsonAlphabet(0);
    assert forall i :: 0 <= i < |s| ==> s[i] in s;
    Keywords();
  }

  lemma Keywords()
    ensures Ascii("true") != [] && Ascii("false") != [] && Ascii("null") != []
  {
  }

  lemma Spelled(b: byte, s: string)
    requires forall c :: c in s ==> c as int < 128
    ensures b in Ascii(s) <==> b as char in s
  {
    if b in Ascii(s) {
      var i :| 0 <= i < |s| && Ascii(s)[i] == b;
      assert s[i] in s;
    }
    if b as char in s {
      var i :| 0 <= i < |s| && s[i] == b as char;
      assert Ascii(s)[i] == b;
    }
  }
}
