/** The binary datagram vocabulary: request and reply codecs over a bounds-checked cursor. */
module Datagram {
  import opened Wrappers
  import opened Bytes

  const MAX_DATA_FRAME_BYTES := 65536
  const MAX_DATAGRAM_ID_BYTES := 256
  const MAX_DATAGRAM_PAYLOAD_BYTES := 60 * 1024 - 1024
  const MAX_DATAGRAM_OPTIONS_BYTES := 1024

  const REQUEST_MAGIC: seq<byte> := [0x49, 0x44, 0x47, 0x31]
  const REPLY_MAGIC: seq<byte> := [0x49, 0x44, 0x52, 0x31]

  type Hash = h: seq<byte> | |h| == 32 witness seq(32, _ => 0)

  /** Identifiers are text; a valid one is ASCII, so it is its bytes. */
  datatype Request =
    | Send(primaryId: seq<byte>, childId: seq<byte>, destinationHash: Hash, sourcePort: u16, destinationPort: u16,
           protocol: byte, options: seq<byte>, payload: seq<byte>)
    | Receive(primaryId: seq<byte>, childId: seq<byte>)

  datatype Event = Event(
    fromHash: Hash, senderAuthenticated: bool, sourcePort: u16, destinationPort: u16, protocol: byte,
    receivedAtMs: u64, options: seq<byte>, payload: seq<byte>)

  datatype Reply = Sent | Delivered(event: Event) | Empty | Rejected

  datatype Error = MalformedFrame | InvalidIdentifier | LimitExceeded

  predicate ValidId(id: seq<byte>) {
    id != [] && |id| <= MAX_DATAGRAM_ID_BYTES && forall i :: 0 <= i < |id| ==> 0x21 <= id[i] <= 0x7e
  }

  // ----- encoding -----

  function Prefixed(v: seq<byte>): seq<byte> { ToBe(|v|, 2) + v }

  predicate Fits(options: seq<byte>, payload: seq<byte>) {
    |payload| <= MAX_DATAGRAM_PAYLOAD_BYTES && |options| <= MAX_DATAGRAM_OPTIONS_BYTES
  }

  function RequestError(m: Request): Option<Error> {
    if !ValidId(m.primaryId) || !ValidId(m.childId) then Some(InvalidIdentifier)
    else if m.Send? && !Fits(m.options, m.payload) then Some(LimitExceeded)
    else None
  }

  function RequestBytes(m: Request): seq<byte> {
    match m
    case Send(p, c, hash, sp, dp, protocol, options, payload) =>
      REQUEST_MAGIC + ([1] + (Prefixed(p) + (Prefixed(c) + (hash + (ToBe(sp, 2) + (ToBe(dp, 2)
      + ([protocol] + (Prefixed(options) + Prefixed(payload)))))))))
    case Receive(p, c) => REQUEST_MAGIC + ([2] + (Prefixed(p) + Prefixed(c)))
  }

  function EncodeRequest(m: Request): Result<seq<byte>, Error> {
    if RequestError(m).Some? then Err(RequestError(m).value)
    else if |RequestBytes(m)| > MAX_DATA_FRAME_BYTES then Err(LimitExceeded)
    else Ok(RequestBytes(m))
  }

  function Flag(b: bool): byte { if b then 1 else 0 }

  function ReplyBytes(m: Reply): seq<byte> {
    match m
    case Sent => REPLY_MAGIC + [1]
    case Delivered(e) =>
      REPLY_MAGIC + ([2] + (e.fromHash + ([Flag(e.senderAuthenticated)] + (ToBe(e.sourcePort, 2)
      + (ToBe(e.destinationPort, 2) + ([e.protocol] + (ToBe(e.receivedAtMs, 8)
      + (Prefixed(e.options) + Prefixed(e.payload)))))))))
    case Empty => REPLY_MAGIC + [3]
    case Rejected => REPLY_MAGIC + [4]
  }

  function ReplyError(m: Reply): Option<Error> {
    if m.Delivered? && !Fits(m.event.options, m.event.payload) then Some(LimitExceeded) else None
  }

  function EncodeReply(m: Reply): Result<seq<byte>, Error> {
    if ReplyError(m).Some? then Err(ReplyError(m).value)
    else if |ReplyBytes(m)| > MAX_DATA_FRAME_BYTES then Err(LimitExceeded)
    else Ok(ReplyBytes(m))
  }

  /** The frame bound can never be what refuses a message: the field limits keep every encoding below it. */
  lemma FrameBoundNeverFires(m: Request, r: Reply)
    ensures RequestError(m).None? ==> |RequestBytes(m)| <= 62002 && EncodeRequest(m) == Ok(RequestBytes(m))
    ensures ReplyError(r).None? ==> |ReplyBytes(r)| <= 62002 && EncodeReply(r) == Ok(ReplyBytes(r))
  {
  }

  // ----- reading fields off the front -----

  type Parsed<T> = Result<(T, seq<byte>), Error>

  function Take(s: seq<byte>, n: nat): Parsed<seq<byte>> {
    if n <= |s| then Ok((s[..n], s[n..])) else Err(MalformedFrame)
  }

  function TakeByte(s: seq<byte>): Parsed<byte> {
    if s == [] then Err(MalformedFrame) else Ok((s[0], s[1..]))
  }

  function TakeNumber(s: seq<byte>, width: nat): Parsed<nat> {
    if width <= |s| then Ok((FromBe(s[..width]), s[width..])) else Err(MalformedFrame)
  }

  function TakeBytes(s: seq<byte>, maximum: nat): Parsed<seq<byte>> {
    var length := TakeNumber(s, 2);
    if length.Err? then Err(length.error)
    else if length.value.0 > maximum then Err(LimitExceeded)
    else Take(length.value.1, length.value.0)
  }

  function TakeId(s: seq<byte>): Parsed<seq<byte>> {
    var length := TakeNumber(s, 2);
    if length.Err? then Err(length.error)
    else if length.value.0 == 0 || length.value.0 > MAX_DATAGRAM_ID_BYTES then Err(InvalidIdentifier)
    else
      var id := Take(length.value.1, length.value.0);
      if id.Err? then id
      else if !ValidId(id.value.0) then Err(InvalidIdentifier)
      else id
  }

  lemma TakeExact(s: seq<byte>, n: nat, v: seq<byte>, rest: seq<byte>)
    ensures Take(s, n) == Ok((v, rest)) <==> |v| == n && s == v + rest
  {
    if |v| == n && s == v + rest { assert s[..n] == v && s[n..] == rest; }
  }

  lemma TakeByteExact(s: seq<byte>, b: byte, rest: seq<byte>)
    ensures TakeByte(s) == Ok((b, rest)) <==> s == [b] + rest
  {
    if s == [b] + rest { assert s[1..] == rest; }
  }

  lemma TakeNumberExact(s: seq<byte>, width: nat, v: nat, rest: seq<byte>)
    ensures TakeNumber(s, width) == Ok((v, rest)) <==> v < Pow256(width) && s == ToBe(v, width) + rest
  {
    hide ToBe, FromBe, Pow256;
    if TakeNumber(s, width) == Ok((v, rest)) {
      ToFromBe(s[..width]);
      assert s == s[..width] + s[width..];
    }
    if v < Pow256(width) && s == ToBe(v, width) + rest {
      FromToBe(v, width);
      assert s[..width] == ToBe(v, width) && s[width..] == rest;
    }
  }

  lemma TakeBytesExact(s: seq<byte>, maximum: nat, v: seq<byte>, rest: seq<byte>)
    requires maximum < 0x1_0000
    ensures TakeBytes(s, maximum) == Ok((v, rest)) <==> |v| <= maximum && s == Prefixed(v) + rest
  {
    hide ToBe, TakeNumber, Take;
    Widths();
    if TakeBytes(s, maximum) == Ok((v, rest)) {
      var (n, t) := TakeNumber(s, 2).value;
      TakeNumberExact(s, 2, n, t);
      TakeExact(t, n, v, rest);
      assert s == ToBe(n, 2) + (v + rest);
    }
    if |v| <= maximum && s == Prefixed(v) + rest {
      assert s == ToBe(|v|, 2) + (v + rest);
      TakeNumberExact(s, 2, |v|, v + rest);
      TakeExact(v + rest, |v|, v, rest);
    }
  }

  lemma TakeIdExact(s: seq<byte>, v: seq<byte>, rest: seq<byte>)
    ensures TakeId(s) == Ok((v, rest)) <==> ValidId(v) && s == Prefixed(v) + rest
  {
    hide ToBe, TakeNumber, Take;
    Widths();
    if TakeId(s) == Ok((v, rest)) {
      var (n, t) := TakeNumber(s, 2).value;
      TakeNumberExact(s, 2, n, t);
      TakeExact(t, n, v, rest);
      assert s == ToBe(n, 2) + (v + rest);
    }
    if ValidId(v) && s == Prefixed(v) + rest {
      assert s == ToBe(|v|, 2) + (v + rest);
      TakeNumberExact(s, 2, |v|, v + rest);
      TakeExact(v + rest, |v|, v, rest);
    }
  }

  // ----- decoding -----

  function Finished<T>(m: T, rest: seq<byte>): Result<T, Error> { if rest == [] then Ok(m) else Err(MalformedFrame) }

  /** The two identifiers every request starts with. */
  function TakeIds(s: seq<byte>): Result<(seq<byte>, seq<byte>, seq<byte>), Error> {
    var p := TakeId(s);
    if p.Err? then Err(p.error) else
    var c := TakeId(p.value.1);
    if c.Err? then Err(c.error) else Ok((p.value.0, c.value.0, c.value.1))
  }

  /** Options then payload, the tail of a send and of an event. */
  function TakeBodies(s: seq<byte>): Result<(seq<byte>, seq<byte>, seq<byte>), Error> {
    var options := TakeBytes(s, MAX_DATAGRAM_OPTIONS_BYTES);
    if options.Err? then Err(options.error) else
    var payload := TakeBytes(options.value.1, MAX_DATAGRAM_PAYLOAD_BYTES);
    if payload.Err? then Err(payload.error) else Ok((options.value.0, payload.value.0, payload.value.1))
  }

  /** Source port, destination port and protocol. */
  function TakePorts(s: seq<byte>): Result<(u16, u16, byte, seq<byte>), Error> {
    var sp := TakeNumber(s, 2);
    if sp.Err? then Err(sp.error) else
    var dp := TakeNumber(sp.value.1, 2);
    if dp.Err? then Err(dp.error) else
    var protocol := TakeNumber(dp.value.1, 1);
    if protocol.Err? then Err(protocol.error)
    else
      PortsFit(s);
      Ok((sp.value.0, dp.value.0, protocol.value.0, protocol.value.1))
  }

  lemma NumberFits(s: seq<byte>, width: nat)
    requires TakeNumber(s, width).Ok?
    ensures TakeNumber(s, width).value.0 < Pow256(width)
  {
    ToFromBe(s[..width]);
  }

  lemma PortsFit(s: seq<byte>)
    requires TakeNumber(s, 2).Ok? && TakeNumber(TakeNumber(s, 2).value.1, 2).Ok?
    requires TakeNumber(TakeNumber(TakeNumber(s, 2).value.1, 2).value.1, 1).Ok?
    ensures TakeNumber(s, 2).value.0 < 0x1_0000
    ensures TakeNumber(TakeNumber(s, 2).value.1, 2).value.0 < 0x1_0000
    ensures TakeNumber(TakeNumber(TakeNumber(s, 2).value.1, 2).value.1, 1).value.0 < 0x100
  {
    hide TakeNumber, Pow256;
    Widths();
    NumberFits(s, 2);
    NumberFits(TakeNumber(s, 2).value.1, 2);
    NumberFits(TakeNumber(TakeNumber(s, 2).value.1, 2).value.1, 1);
  }

  function DecodeRequest(s: seq<byte>): Result<Request, Error> {
    var magic := Take(s, 4);
    if magic.Err? || magic.value.0 != REQUEST_MAGIC then Err(MalformedFrame) else
    var tag := TakeByte(magic.value.1);
    if tag.Err? then Err(tag.error)
    else if tag.value.0 == 1 then DecodeSend(tag.value.1)
    else if tag.value.0 == 2 then DecodeReceive(tag.value.1)
    else Err(MalformedFrame)
  }

  function DecodeReceive(s: seq<byte>): Result<Request, Error> {
    var ids := TakeIds(s);
    if ids.Err? then Err(ids.error) else Finished(Receive(ids.value.0, ids.value.1), ids.value.2)
  }

  function DecodeSend(s: seq<byte>): Result<Request, Error> {
    var ids := TakeIds(s);
    if ids.Err? then Err(ids.error) else
    var hash := Take(ids.value.2, 32);
    if hash.Err? then Err(hash.error) else
    var ports := TakePorts(hash.value.1);
    if ports.Err? then Err(ports.error) else
    var bodies := TakeBodies(ports.value.3);
    if bodies.Err? then Err(bodies.error)
    else Finished(Send(ids.value.0, ids.value.1, hash.value.0, ports.value.0, ports.value.1, ports.value.2,
                       bodies.value.0, bodies.value.1), bodies.value.2)
  }

  function DecodeReply(s: seq<byte>): Result<Reply, Error> {
    var magic := Take(s, 4);
    if magic.Err? || magic.value.0 != REPLY_MAGIC then Err(MalformedFrame) else
    var tag := TakeByte(magic.value.1);
    if tag.Err? then Err(tag.error)
    else if tag.value.0 == 1 then Finished(Sent, tag.value.1)
    else if tag.value.0 == 2 then DecodeEvent(tag.value.1)
    else if tag.value.0 == 3 then Finished(Empty, tag.value.1)
    else if tag.value.0 == 4 then Finished(Rejected, tag.value.1)
    else Err(MalformedFrame)
  }

  function DecodeEvent(s: seq<byte>): Result<Reply, Error> {
    var hash := Take(s, 32);
    if hash.Err? then Err(hash.error) else
    var flag := TakeByte(hash.value.1);
    if flag.Err? then Err(flag.error)
    else if flag.value.0 > 1 then Err(MalformedFrame) else
    var ports := TakePorts(flag.value.1);
    if ports.Err? then Err(ports.error) else
    var at := TakeNumber(ports.value.3, 8);
    if at.Err? then Err(at.error) else
    var bodies := TakeBodies(at.value.1);
    if bodies.Err? then Err(bodies.error)
    else
      TimeFits(ports.value.3);
      Finished(Delivered(Event(hash.value.0, flag.value.0 == 1, ports.value.0, ports.value.1, ports.value.2,
                               at.value.0, bodies.value.0, bodies.value.1)), bodies.value.2)
  }

  lemma TimeFits(s: seq<byte>)
    requires TakeNumber(s, 8).Ok?
    ensures TakeNumber(s, 8).value.0 < 0x1_0000_0000_0000_0000
  {
    hide TakeNumber, Pow256;
    Widths();
    NumberFits(s, 8);
  }

  // ----- the codecs are inverse to each other -----

  lemma TakeIdsExact(s: seq<byte>, p: seq<byte>, c: seq<byte>, rest: seq<byte>)
    ensures TakeIds(s) == Ok((p, c, rest)) <==> ValidId(p) && ValidId(c) && s == Prefixed(p) + (Prefixed(c) + rest)
  {
    hide TakeId, ValidId, Prefixed;
    TakeIdExact(s, p, Prefixed(c) + rest);
    TakeIdExact(Prefixed(c) + rest, c, rest);
    if TakeId(s).Ok? {
      var (id, t) := TakeId(s).value;
      TakeIdExact(s, id, t);
      TakeIdExact(t, c, rest);
    }
  }

  lemma TakeBodiesExact(s: seq<byte>, o: seq<byte>, p: seq<byte>, rest: seq<byte>)
    ensures TakeBodies(s) == Ok((o, p, rest)) <==> Fits(o, p) && s == Prefixed(o) + (Prefixed(p) + rest)
  {
    hide TakeBytes, Prefixed;
    TakeBytesExact(s, MAX_DATAGRAM_OPTIONS_BYTES, o, Prefixed(p) + rest);
    TakeBytesExact(Prefixed(p) + rest, MAX_DATAGRAM_PAYLOAD_BYTES, p, rest);
    if TakeBytes(s, MAX_DATAGRAM_OPTIONS_BYTES).Ok? {
      var (v, t) := TakeBytes(s, MAX_DATAGRAM_OPTIONS_BYTES).value;
      TakeBytesExact(s, MAX_DATAGRAM_OPTIONS_BYTES, v, t);
      TakeBytesExact(t, MAX_DATAGRAM_PAYLOAD_BYTES, p, rest);
    }
  }

  lemma OneByte(b: byte)
    ensures ToBe(b, 1) == [b]
  {
    assert ToBe(b / 256, 0) == [];
  }

  lemma TakePortsExact(s: seq<byte>, sp: u16, dp: u16, protocol: byte, rest: seq<byte>)
    ensures TakePorts(s) == Ok((sp, dp, protocol, rest)) <==> s == ToBe(sp, 2) + (ToBe(dp, 2) + ([protocol] + rest))
  {
    hide TakeNumber, ToBe, Pow256;
    Widths();
    OneByte(protocol);
    var afterDp := [protocol] + rest;
    var afterSp := ToBe(dp, 2) + afterDp;
    TakeNumberExact(s, 2, sp, afterSp);
    TakeNumberExact(afterSp, 2, dp, afterDp);
    TakeNumberExact(afterDp, 1, protocol, rest);
    if TakeNumber(s, 2).Ok? {
      var (a, t) := TakeNumber(s, 2).value;
      TakeNumberExact(s, 2, a, t);
      if TakeNumber(t, 2).Ok? {
        var (b, u) := TakeNumber(t, 2).value;
        TakeNumberExact(t, 2, b, u);
        TakeNumberExact(u, 1, protocol, rest);
      }
    }
  }

  lemma NothingAfter(x: seq<byte>)
    ensures x + [] == x
  {
  }

  lemma SendSound(s: seq<byte>)
    requires DecodeSend(s).Ok?
    ensures var m := DecodeSend(s).value; m.Send? && RequestError(m).None? && REQUEST_MAGIC + ([1] + s) == RequestBytes(m)
  {
    hide TakeIds, Take, TakeByte, TakePorts, TakeBodies, Prefixed, ToBe, ValidId;
    var (p, c, s1) := TakeIds(s).value;
    TakeIdsExact(s, p, c, s1);
    var (hash, s2) := Take(s1, 32).value;
    TakeExact(s1, 32, hash, s2);
    var (sp, dp, protocol, s3) := TakePorts(s2).value;
    TakePortsExact(s2, sp, dp, protocol, s3);
    var (o, q, s4) := TakeBodies(s3).value;
    TakeBodiesExact(s3, o, q, s4);
    NothingAfter(Prefixed(q));
  }

  lemma SendComplete(m: Request)
    requires m.Send? && RequestError(m).None?
    ensures DecodeRequest(RequestBytes(m)) == Ok(m)
  {
    hide TakeIds, Take, TakeByte, TakePorts, TakeBodies, Prefixed, ToBe, ValidId;
    var s3 := Prefixed(m.options) + Prefixed(m.payload);
    var s2 := ToBe(m.sourcePort, 2) + (ToBe(m.destinationPort, 2) + ([m.protocol] + s3));
    var s1 := m.destinationHash + s2;
    var s := Prefixed(m.primaryId) + (Prefixed(m.childId) + s1);
    NothingAfter(Prefixed(m.payload));
    TakeBodiesExact(s3, m.options, m.payload, []);
    TakePortsExact(s2, m.sourcePort, m.destinationPort, m.protocol, s3);
    TakeExact(s1, 32, m.destinationHash, s2);
    TakeIdsExact(s, m.primaryId, m.childId, s1);
    TakeByteExact([1] + s, 1, s);
    TakeExact(REQUEST_MAGIC + ([1] + s), 4, REQUEST_MAGIC, [1] + s);
  }

  lemma ReceiveComplete(m: Request)
    requires m.Receive? && RequestError(m).None?
    ensures DecodeRequest(RequestBytes(m)) == Ok(m)
  {
    hide TakeIds, Take, TakeByte, DecodeSend, Prefixed, ValidId;
    var s := Prefixed(m.primaryId) + Prefixed(m.childId);
    NothingAfter(Prefixed(m.childId));
    TakeIdsExact(s, m.primaryId, m.childId, []);
    TakeByteExact([2] + s, 2, s);
    TakeExact(REQUEST_MAGIC + ([2] + s), 4, REQUEST_MAGIC, [2] + s);
  }

  lemma RequestSound(s: seq<byte>)
    requires DecodeRequest(s).Ok?
    ensures var m := DecodeRequest(s).value; RequestError(m).None? && s == RequestBytes(m)
  {
    hide Take, TakeByte, TakeIds, DecodeSend, Prefixed, ValidId;
    var (magic, s1) := Take(s, 4).value;
    TakeExact(s, 4, magic, s1);
    var (tag, s2) := TakeByte(s1).value;
    TakeByteExact(s1, tag, s2);
    if tag == 1 {
      SendSound(s2);
    } else {
      var (p, c, s3) := TakeIds(s2).value;
      TakeIdsExact(s2, p, c, s3);
      NothingAfter(Prefixed(c));
    }
  }

  /** Requests: a byte string decodes to a message exactly when that message encodes to the byte string. */
  lemma RequestBijection(s: seq<byte>, m: Request)
    ensures DecodeRequest(s) == Ok(m) <==> EncodeRequest(m) == Ok(s)
  {
    hide DecodeRequest, RequestBytes, RequestError;
    FrameBoundNeverFires(m, Sent);
    if DecodeRequest(s) == Ok(m) { RequestSound(s); }
    if EncodeRequest(m) == Ok(s) {
      if m.Send? { SendComplete(m); } else { ReceiveComplete(m); }
    }
  }

  lemma EventSound(s: seq<byte>)
    requires DecodeEvent(s).Ok?
    ensures var m := DecodeEvent(s).value;
            m.Delivered? && ReplyError(m).None? && REPLY_MAGIC + ([2] + s) == ReplyBytes(m)
  {
    hide TakeNumber, Take, TakeByte, TakePorts, TakeBodies, Prefixed, ToBe;
    var (hash, s1) := Take(s, 32).value;
    TakeExact(s, 32, hash, s1);
    var (flag, s2) := TakeByte(s1).value;
    TakeByteExact(s1, flag, s2);
    var (sp, dp, protocol, s3) := TakePorts(s2).value;
    TakePortsExact(s2, sp, dp, protocol, s3);
    var (at, s4) := TakeNumber(s3, 8).value;
    TakeNumberExact(s3, 8, at, s4);
    var (o, q, s5) := TakeBodies(s4).value;
    TakeBodiesExact(s4, o, q, s5);
    NothingAfter(Prefixed(q));
    assert flag == Flag(flag == 1);
  }

  lemma EventComplete(e: Event)
    requires ReplyError(Delivered(e)).None?
    ensures DecodeReply(ReplyBytes(Delivered(e))) == Ok(Delivered(e))
  {
    hide TakeNumber, Take, TakeByte, TakePorts, TakeBodies, Prefixed, ToBe, Pow256;
    var s4 := Prefixed(e.options) + Prefixed(e.payload);
    var s3 := ToBe(e.receivedAtMs, 8) + s4;
    var s2 := ToBe(e.sourcePort, 2) + (ToBe(e.destinationPort, 2) + ([e.protocol] + s3));
    var s1 := [Flag(e.senderAuthenticated)] + s2;
    var s := e.fromHash + s1;
    NothingAfter(Prefixed(e.payload));
    TakeBodiesExact(s4, e.options, e.payload, []);
    Widths();
    TakeNumberExact(s3, 8, e.receivedAtMs, s4);
    TakePortsExact(s2, e.sourcePort, e.destinationPort, e.protocol, s3);
    TakeByteExact(s1, Flag(e.senderAuthenticated), s2);
    TakeExact(s, 32, e.fromHash, s1);
    TakeByteExact([2] + s, 2, s);
    TakeExact(REPLY_MAGIC + ([2] + s), 4, REPLY_MAGIC, [2] + s);
  }

  lemma PlainReplyComplete(m: Reply)
    requires !m.Delivered?
    ensures DecodeReply(ReplyBytes(m)) == Ok(m)
  {
    hide Take, TakeByte, DecodeEvent;
    var tag: byte := if m.Sent? then 1 else if m.Empty? then 3 else 4;
    NothingAfter([tag]);
    TakeByteExact([tag], tag, []);
    TakeExact(REPLY_MAGIC + [tag], 4, REPLY_MAGIC, [tag]);
  }

  lemma ReplySound(s: seq<byte>)
    requires DecodeReply(s).Ok?
    ensures var m := DecodeReply(s).value; ReplyError(m).None? && s == ReplyBytes(m)
  {
    hide Take, TakeByte, DecodeEvent;
    var (magic, s1) := Take(s, 4).value;
    TakeExact(s, 4, magic, s1);
    var (tag, s2) := TakeByte(s1).value;
    TakeByteExact(s1, tag, s2);
    if tag == 2 { EventSound(s2); } else { NothingAfter([tag]); }
  }

  /** Replies: a byte string decodes to a message exactly when that message encodes to the byte string. */
  lemma ReplyBijection(s: seq<byte>, m: Reply)
    ensures DecodeReply(s) == Ok(m) <==> EncodeReply(m) == Ok(s)
  {
    hide DecodeReply, ReplyBytes, ReplyError;
    FrameBoundNeverFires(Receive([], []), m);
    if DecodeReply(s) == Ok(m) { ReplySound(s); }
    if EncodeReply(m) == Ok(s) {
      if m.Delivered? { EventComplete(m.event); } else { PlainReplyComplete(m); }
    }
  }

  // ----- the codecs as they run -----

  class Cursor {
    const bytes: seq<byte>
    var offset: nat

    ghost predicate Valid()
      reads this
    {
      offset <= |bytes|
    }

    ghost function Rest(): seq<byte>
      requires Valid()
      reads this
    {
      bytes[offset..]
    }

    constructor (bytes: seq<byte>)
      ensures this.bytes == bytes && Valid() && Rest() == bytes
    {
      this.bytes, offset := bytes, 0;
    }

    method TakeSome(n: nat) returns (r: Result<seq<byte>, Error>)
      requires Valid()
      modifies this
      ensures Valid()
      ensures match Take(old(Rest()), n)
              case Ok((v, rest)) => r == Ok(v) && Rest() == rest && |v| == n
              case Err(e) => r == Err(e) && e == MalformedFrame
    {
      var end := offset + n;
      if end > |bytes| { return Err(MalformedFrame); }
      r := Ok(bytes[offset..end]);
      assert bytes[offset..][..n] == bytes[offset..end] && bytes[offset..][n..] == bytes[end..];
      offset := end;
    }

    method Byte() returns (r: Result<byte, Error>)
      requires Valid()
      modifies this
      ensures Valid()
      ensures match TakeByte(old(Rest()))
              case Ok((v, rest)) => r == Ok(v) && Rest() == rest
              case Err(e) => r == Err(e)
    {
      if offset == |bytes| { return Err(MalformedFrame); }
      r := Ok(bytes[offset]);
      assert bytes[offset..][1..] == bytes[offset + 1..];
      offset := offset + 1;
    }

    method Unsigned(width: nat) returns (r: Result<nat, Error>)
      requires Valid()
      modifies this
      ensures Valid()
      ensures match TakeNumber(old(Rest()), width)
              case Ok((v, rest)) => r == Ok(v) && Rest() == rest && v < Pow256(width)
              case Err(e) => r == Err(e)
    {
      ghost var start := Rest();
      if TakeNumber(start, width).Ok? { NumberFits(start, width); }
      var taken := TakeSome(width);
      return if taken.Ok? then Ok(FromBe(taken.value)) else Err(taken.error);
    }

    method BoundedBytes(maximum: nat) returns (r: Result<seq<byte>, Error>)
      requires Valid()
      modifies this
      ensures Valid()
      ensures match TakeBytes(old(Rest()), maximum)
              case Ok((v, rest)) => r == Ok(v) && Rest() == rest
              case Err(e) => r == Err(e)
    {
      hide TakeNumber, Take;
      var length := Unsigned(2);
      if length.Err? { return Err(length.error); }
      if length.value > maximum { return Err(LimitExceeded); }
      r := TakeSome(length.value);
    }

    method Id() returns (r: Result<seq<byte>, Error>)
      requires Valid()
      modifies this
      ensures Valid()
      ensures match TakeId(old(Rest()))
              case Ok((v, rest)) => r == Ok(v) && Rest() == rest
              case Err(e) => r == Err(e)
    {
      hide TakeNumber, Take, ValidId;
      var length := Unsigned(2);
      if length.Err? { return Err(length.error); }
      if length.value == 0 || length.value > MAX_DATAGRAM_ID_BYTES { return Err(InvalidIdentifier); }
      r := TakeSome(length.value);
      if r.Ok? && !ValidId(r.value) { r := Err(InvalidIdentifier); }
    }

    method Ids() returns (r: Result<(seq<byte>, seq<byte>), Error>)
      requires Valid()
      modifies this
      ensures Valid()
      ensures match TakeIds(old(Rest()))
              case Ok((p, c, rest)) => r == Ok((p, c)) && Rest() == rest
              case Err(e) => r == Err(e)
    {
      hide TakeId;
      var p := Id();
      if p.Err? { return Err(p.error); }
      var c := Id();
      if c.Err? { return Err(c.error); }
      return Ok((p.value, c.value));
    }

    method Ports() returns (r: Result<(u16, u16, byte), Error>)
      requires Valid()
      modifies this
      ensures Valid()
      ensures match TakePorts(old(Rest()))
              case Ok((sp, dp, protocol, rest)) => r == Ok((sp, dp, protocol)) && Rest() == rest
              case Err(e) => r == Err(e)
    {
      hide TakeNumber, Pow256;
      Widths();
      var sp := Unsigned(2);
      if sp.Err? { return Err(sp.error); }
      var dp := Unsigned(2);
      if dp.Err? { return Err(dp.error); }
      var protocol := Unsigned(1);
      if protocol.Err? { return Err(protocol.error); }
      return Ok((sp.value, dp.value, protocol.value));
    }

    method Bodies() returns (r: Result<(seq<byte>, seq<byte>), Error>)
      requires Valid()
      modifies this
      ensures Valid()
      ensures match TakeBodies(old(Rest()))
              case Ok((o, p, rest)) => r == Ok((o, p)) && Rest() == rest
              case Err(e) => r == Err(e)
    {
      hide TakeBytes;
      var o := BoundedBytes(MAX_DATAGRAM_OPTIONS_BYTES);
      if o.Err? { return Err(o.error); }
      var p := BoundedBytes(MAX_DATAGRAM_PAYLOAD_BYTES);
      if p.Err? { return Err(p.error); }
      return Ok((o.value, p.value));
    }
  }

  method SendFields(cursor: Cursor) returns (r: Result<Request, Error>)
    requires cursor.Valid()
    modifies cursor
    ensures r == DecodeSend(old(cursor.Rest()))
  {
    hide Take, TakeIds, TakePorts, TakeBodies;
    var ids := cursor.Ids();
    if ids.Err? { return Err(ids.error); }
    var hash := cursor.TakeSome(32);
    if hash.Err? { return Err(hash.error); }
    var ports := cursor.Ports();
    if ports.Err? { return Err(ports.error); }
    var bodies := cursor.Bodies();
    if bodies.Err? { return Err(bodies.error); }
    if cursor.offset != |cursor.bytes| { return Err(MalformedFrame); }
    var (sp, dp, protocol) := ports.value;
    return Ok(Send(ids.value.0, ids.value.1, hash.value, sp, dp, protocol, bodies.value.0, bodies.value.1));
  }

  method ReceiveFields(cursor: Cursor) returns (r: Result<Request, Error>)
    requires cursor.Valid()
    modifies cursor
    ensures r == DecodeReceive(old(cursor.Rest()))
  {
    hide TakeIds;
    var ids := cursor.Ids();
    if ids.Err? { return Err(ids.error); }
    if cursor.offset != |cursor.bytes| { return Err(MalformedFrame); }
    return Ok(Receive(ids.value.0, ids.value.1));
  }

  method EventFields(cursor: Cursor) returns (r: Result<Reply, Error>)
    requires cursor.Valid()
    modifies cursor
    ensures r == DecodeEvent(old(cursor.Rest()))
  {
    hide Take, TakeByte, TakeNumber, TakePorts, TakeBodies, Pow256;
    var hash := cursor.TakeSome(32);
    if hash.Err? { return Err(hash.error); }
    var flag := cursor.Byte();
    if flag.Err? { return Err(flag.error); }
    if flag.value > 1 { return Err(MalformedFrame); }
    var ports := cursor.Ports();
    if ports.Err? { return Err(ports.error); }
    Widths();
    var at := cursor.Unsigned(8);
    if at.Err? { return Err(at.error); }
    var bodies := cursor.Bodies();
    if bodies.Err? { return Err(bodies.error); }
    if cursor.offset != |cursor.bytes| { return Err(MalformedFrame); }
    var (sp, dp, protocol) := ports.value;
    return Ok(Delivered(Event(hash.value, flag.value == 1, sp, dp, protocol, at.value, bodies.value.0, bodies.value.1)));
  }

  /** Decoding through the cursor, one field after another, with nothing left over. */
  method RunDecodeRequest(bytes: seq<byte>) returns (r: Result<Request, Error>)
    ensures r == DecodeRequest(bytes)
  {
    hide Take, TakeByte, DecodeReceive, DecodeSend;
    var cursor := new Cursor(bytes);
    var magic := cursor.TakeSome(4);
    if magic.Err? || magic.value != REQUEST_MAGIC { return Err(MalformedFrame); }
    var tag := cursor.Byte();
    if tag.Err? { return Err(tag.error); }
    if tag.value == 1 {
      r := SendFields(cursor);
    } else if tag.value == 2 {
      r := ReceiveFields(cursor);
    } else {
      return Err(MalformedFrame);
    }
  }

  method RunDecodeReply(bytes: seq<byte>) returns (r: Result<Reply, Error>)
    ensures r == DecodeReply(bytes)
  {
    hide Take, TakeByte, DecodeEvent;
    var cursor := new Cursor(bytes);
    var magic := cursor.TakeSome(4);
    if magic.Err? || magic.value != REPLY_MAGIC { return Err(MalformedFrame); }
    var tag := cursor.Byte();
    if tag.Err? { return Err(tag.error); }
    if tag.value == 2 {
      r := EventFields(cursor);
      return;
    }
    if tag.value != 1 && tag.value != 3 && tag.value != 4 { return Err(MalformedFrame); }
    if cursor.offset != |bytes| { return Err(MalformedFrame); }
    return Ok(if tag.value == 1 then Sent else if tag.value == 3 then Empty else Rejected);
  }

  /** Encoding as it runs: fields appended to one buffer. */
  method RunEncodeRequest(m: Request) returns (r: Result<seq<byte>, Error>)
    ensures r == EncodeRequest(m)
  {
    hide ToBe, ValidId, Prefixed, RequestBytes;
    var out := REQUEST_MAGIC;
    if !ValidId(m.primaryId) || !ValidId(m.childId) { return Err(InvalidIdentifier); }
    if m.Send? {
      if |m.payload| > MAX_DATAGRAM_PAYLOAD_BYTES || |m.options| > MAX_DATAGRAM_OPTIONS_BYTES {
        return Err(LimitExceeded);
      }
      out := AppendSend(out, m);
    } else {
      out := AppendReceive(out, m);
    }
    if |out| > MAX_DATA_FRAME_BYTES { return Err(LimitExceeded); }
    return Ok(out);
  }

  method AppendReceive(start: seq<byte>, m: Request) returns (out: seq<byte>)
    requires m.Receive? && start == REQUEST_MAGIC
    ensures out == RequestBytes(m)
  {
    hide ToBe, Prefixed;
    out := start + [2];
    out := out + Prefixed(m.primaryId);
    out := out + Prefixed(m.childId);
    assert start + [2] + Prefixed(m.primaryId) + Prefixed(m.childId)
        == start + ([2] + (Prefixed(m.primaryId) + Prefixed(m.childId)));
  }

  method AppendSend(start: seq<byte>, m: Request) returns (out: seq<byte>)
    requires m.Send? && start == REQUEST_MAGIC
    ensures out == RequestBytes(m)
  {
    hide ToBe, Prefixed;
    out := start + [1];
    out := out + Prefixed(m.primaryId);
    out := out + Prefixed(m.childId);
    out := out + m.destinationHash;
    ghost var ids := out;
    out := out + ToBe(m.sourcePort, 2);
    out := out + ToBe(m.destinationPort, 2);
    out := out + [m.protocol];
    out := out + Prefixed(m.options);
    out := out + Prefixed(m.payload);
    ghost var sp, dp, o, y := ToBe(m.sourcePort, 2), ToBe(m.destinationPort, 2), Prefixed(m.options), Prefixed(m.payload);
    Regroup(ids, sp, dp, [m.protocol], o, y);
    Regroup(start, [1], Prefixed(m.primaryId), Prefixed(m.childId), m.destinationHash,
            sp + (dp + ([m.protocol] + (o + y))));
  }

  method RunEncodeReply(m: Reply) returns (r: Result<seq<byte>, Error>)
    ensures r == EncodeReply(m)
  {
    hide ToBe, Prefixed;
    var out := REPLY_MAGIC;
    match m {
      case Sent => out := out + [1];
      case Delivered(event) =>
        if |event.payload| > MAX_DATAGRAM_PAYLOAD_BYTES || |event.options| > MAX_DATAGRAM_OPTIONS_BYTES {
          return Err(LimitExceeded);
        }
        out := AppendEvent(out, event);
      case Empty => out := out + [3];
      case Rejected => out := out + [4];
    }
    assert out == ReplyBytes(m);
    if |out| > MAX_DATA_FRAME_BYTES { return Err(LimitExceeded); }
    return Ok(out);
  }

  method AppendEvent(start: seq<byte>, e: Event) returns (out: seq<byte>)
    requires start == REPLY_MAGIC
    ensures out == ReplyBytes(Delivered(e))
  {
    hide ToBe, Prefixed;
    out := start + [2];
    out := out + e.fromHash;
    out := out + [Flag(e.senderAuthenticated)];
    out := out + ToBe(e.sourcePort, 2);
    ghost var head := out;
    out := out + ToBe(e.destinationPort, 2);
    out := out + [e.protocol];
    out := out + ToBe(e.receivedAtMs, 8);
    out := out + Prefixed(e.options);
    out := out + Prefixed(e.payload);
    ghost var dp, at, o, y := ToBe(e.destinationPort, 2), ToBe(e.receivedAtMs, 8), Prefixed(e.options), Prefixed(e.payload);
    Regroup(head, dp, [e.protocol], at, o, y);
    Regroup(start, [2], e.fromHash, [Flag(e.senderAuthenticated)], ToBe(e.sourcePort, 2),
            dp + ([e.protocol] + (at + (o + y))));
  }
}
