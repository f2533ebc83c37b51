/** Length-prefixed frames of the application protocol and of the manager protocol. */
module Frames {
  import opened Wrappers
  import opened Bytes

  const FRAME_HEADER_BYTES := 12
  const MAX_FRAME_PAYLOAD_BYTES := 65536
  const MAX_CONTROL_BYTES := 16384

  /** The two protocols share the layout and differ in the control payload limit. */
  datatype Dialect = App | Manager

  datatype FrameKind = Control | Data

  datatype Frame = Frame(kind: FrameKind, streamId: u32, payload: seq<byte>)

  datatype FrameError = LimitExceeded | MalformedFrame | TruncatedFrame | UnsupportedFrame

  /** How reading a frame off a stream fails. */
  datatype ReadError = EndOfStream | FrameLimit | BadFrame

  function Limit(d: Dialect, kind: FrameKind): nat {
    if d == Manager && kind == Control then MAX_CONTROL_BYTES else MAX_FRAME_PAYLOAD_BYTES
  }

  function KindByte(kind: FrameKind): byte { if kind == Control then 1 else 2 }

  function Encode(d: Dialect, f: Frame): Result<seq<byte>, FrameError> {
    if |f.payload| > Limit(d, f.kind) then Err(LimitExceeded)
    else if (f.kind == Control) != (f.streamId == 0) then Err(MalformedFrame)
    else Ok([1, KindByte(f.kind), 0, 0] + ToBe(f.streamId, 4) + ToBe(|f.payload|, 4) + f.payload)
  }

  /** Decodes one frame from the front and says how many bytes it took. */
  function Decode(d: Dialect, input: seq<byte>): Result<(Frame, nat), FrameError> {
    if |input| < FRAME_HEADER_BYTES then Err(TruncatedFrame)
    else if input[0] != 1 then Err(UnsupportedFrame)
    else if input[1] != 1 && input[1] != 2 then Err(UnsupportedFrame)
    else if input[2] != 0 || input[3] != 0 then Err(MalformedFrame)
    else
      var kind := if input[1] == 1 then Control else Data;
      var streamId := FromBe(input[4..8]);
      var length := FromBe(input[8..12]);
      var total := FRAME_HEADER_BYTES + length;
      WordFits(input[4..8]);
      if length > Limit(d, kind) then Err(LimitExceeded)
      else if (kind == Control) != (streamId == 0) then Err(MalformedFrame)
      else if |input| < total then Err(TruncatedFrame)
      else Ok((Frame(kind, streamId, input[FRAME_HEADER_BYTES..total]), total))
  }

  lemma WordFits(s: seq<byte>)
    requires |s| == 4
    ensures FromBe(s) < 0x1_0000_0000
  {
    ToFromBe(s);
    Widths();
  }

  lemma WordRoundTrip(n: nat)
    requires n < 0x1_0000_0000
    ensures FromBe(ToBe(n, 4)) == n
  {
    Widths();
    FromToBe(n, 4);
  }

  /** The twelve header bytes of a frame. */
  function Header(f: Frame): (h: seq<byte>)
    ensures |h| == FRAME_HEADER_BYTES
  {
    [1, KindByte(f.kind), 0, 0] + ToBe(f.streamId, 4) + ToBe(|f.payload|, 4)
  }

  lemma EncodeShape(d: Dialect, f: Frame)
    requires Encode(d, f).Ok?
    ensures Encode(d, f).value == Header(f) + f.payload
    ensures |Encode(d, f).value| == FRAME_HEADER_BYTES + |f.payload|
  {
  }

  /** Any input that starts with a frame's header is read as that header says. */
  lemma DecodeFromHeader(d: Dialect, f: Frame, input: seq<byte>)
    requires Encode(d, f).Ok? && |input| >= FRAME_HEADER_BYTES && input[..FRAME_HEADER_BYTES] == Header(f)
    ensures |input| < FRAME_HEADER_BYTES + |f.payload| ==> Decode(d, input) == Err(TruncatedFrame)
    ensures |input| >= FRAME_HEADER_BYTES + |f.payload| ==>
              Decode(d, input) == Ok((Frame(f.kind, f.streamId, input[FRAME_HEADER_BYTES..FRAME_HEADER_BYTES + |f.payload|]),
                                      FRAME_HEADER_BYTES + |f.payload|))
  {
    hide ToBe, FromBe;
    var h := Header(f);
    assert input[4..8] == h[4..8] == ToBe(f.streamId, 4);
    assert input[8..12] == h[8..12] == ToBe(|f.payload|, 4);
    WordRoundTrip(f.streamId);
    WordRoundTrip(|f.payload|);
    assert input[0] == h[0] && input[1] == h[1] && input[2] == h[2] && input[3] == h[3];
  }

  /** An encoded frame decodes to itself whatever follows it. */
  lemma DecodeEncoded(d: Dialect, f: Frame, rest: seq<byte>)
    requires Encode(d, f).Ok?
    ensures Decode(d, Encode(d, f).value + rest) == Ok((f, |Encode(d, f).value|))
  {
    hide Decode, Encode, Header;
    EncodeShape(d, f);
    var input := Encode(d, f).value + rest;
    assert input[..FRAME_HEADER_BYTES] == Header(f);
    assert input[FRAME_HEADER_BYTES..FRAME_HEADER_BYTES + |f.payload|] == f.payload;
    DecodeFromHeader(d, f, input);
  }

  /** A decoded frame re-encodes to exactly the bytes it was decoded from. */
  lemma EncodeDecoded(d: Dialect, input: seq<byte>)
    requires Decode(d, input).Ok?
    ensures var (f, n) := Decode(d, input).value;
            FRAME_HEADER_BYTES <= n <= |input| && Encode(d, f) == Ok(input[..n])
  {
    hide ToBe, FromBe;
    var (f, n) := Decode(d, input).value;
    ToFromBe(input[4..8]);
    ToFromBe(input[8..12]);
    assert |f.payload| == FromBe(input[8..12]);
    assert input[..n] == input[..4] + input[4..8] + input[8..12] + input[12..n];
    assert input[..4] == [1, KindByte(f.kind), 0, 0];
  }

  /** Every strict prefix of an encoded frame reports truncation, so a reader waits for more bytes. */
  lemma StrictPrefixTruncated(d: Dialect, f: Frame, k: nat)
    requires Encode(d, f).Ok? && k < |Encode(d, f).value|
    ensures Decode(d, Encode(d, f).value[..k]) == Err(TruncatedFrame)
  {
    hide Encode, Header;
    EncodeShape(d, f);
    var input := Encode(d, f).value[..k];
    if k >= FRAME_HEADER_BYTES {
      assert input[..FRAME_HEADER_BYTES] == Header(f);
      DecodeFromHeader(d, f, input);
    }
  }

  // ----- streams of frames -----

  ghost predicate AllEncodable(d: Dialect, frames: seq<Frame>) {
    forall i :: 0 <= i < |frames| ==> Encode(d, frames[i]).Ok?
  }

  /** The wire form of a sequence of frames. */
  function EncodeAll(d: Dialect, frames: seq<Frame>): seq<byte>
    requires AllEncodable(d, frames)
  {
    if frames == [] then [] else Encode(d, frames[0]).value + EncodeAll(d, frames[1..])
  }

  /** What a peer reads: frames from the front until a decode fails, and the bytes left over. */
  function DecodeAll(d: Dialect, input: seq<byte>): (seq<Frame>, seq<byte>)
    decreases |input|
  {
    var next := Decode(d, input);
    if next.Err? then ([], input)
    else
      EncodeDecoded(d, input);
      var (frames, rest) := DecodeAll(d, input[next.value.1..]);
      ([next.value.0] + frames, rest)
  }

  /** A strict prefix of some encoded frame (possibly empty). */
  ghost predicate Partial(d: Dialect, tail: seq<byte>) {
    tail == [] || exists f, k: nat :: Encode(d, f).Ok? && k < |Encode(d, f).value| && tail == Encode(d, f).value[..k]
  }

  /** A peer reading whole frames followed by part of one sees exactly the whole frames. */
  lemma {:induction false} DecodeAllEncoded(d: Dialect, frames: seq<Frame>, tail: seq<byte>)
    requires AllEncodable(d, frames) && Partial(d, tail)
    ensures DecodeAll(d, EncodeAll(d, frames) + tail) == (frames, tail)
  {
    hide Encode, Decode;
    var input := EncodeAll(d, frames) + tail;
    if frames == [] {
      assert input == tail;
      if tail == [] {
        assert Decode(d, []) == Err(TruncatedFrame) by { NothingTruncated(d); }
      } else {
        var f, k: nat :| Encode(d, f).Ok? && k < |Encode(d, f).value| && tail == Encode(d, f).value[..k];
        StrictPrefixTruncated(d, f, k);
      }
    } else {
      var first, rest := Encode(d, frames[0]).value, EncodeAll(d, frames[1..]) + tail;
      assert input == first + rest;
      DecodeEncoded(d, frames[0], rest);
      assert input[|first|..] == rest;
      DecodeAllEncoded(d, frames[1..], tail);
      assert frames == [frames[0]] + frames[1..];
    }
  }

  lemma NothingTruncated(d: Dialect)
    ensures Decode(d, []) == Err(TruncatedFrame)
  {
  }

  /** A concatenation of frames has only one reading. */
  lemma UniqueDecoding(d: Dialect, a: seq<Frame>, b: seq<Frame>)
    requires AllEncodable(d, a) && AllEncodable(d, b) && EncodeAll(d, a) == EncodeAll(d, b)
    ensures a == b
  {
    hide Encode, Decode, EncodeAll, DecodeAll;
    DecodeAllEncoded(d, a, []);
    DecodeAllEncoded(d, b, []);
  }

  lemma {:induction false} EncodeAllSnoc(d: Dialect, frames: seq<Frame>, f: Frame)
    requires AllEncodable(d, frames) && Encode(d, f).Ok?
    ensures AllEncodable(d, frames + [f])
    ensures EncodeAll(d, frames + [f]) == EncodeAll(d, frames) + Encode(d, f).value
  {
    hide Encode;
    if frames == [] {
      assert frames + [f] == [f];
      assert [f][1..] == [];
    } else {
      assert (frames + [f])[1..] == frames[1..] + [f];
      EncodeAllSnoc(d, frames[1..], f);
    }
  }

  /** The SDK's reader: header first, then exactly the announced payload. */
  function ReadFrame(stream: seq<byte>): Result<(Frame, seq<byte>), ReadError> {
    if |stream| < FRAME_HEADER_BYTES then Err(EndOfStream)
    else
      var length := FromBe(stream[8..12]);
      var total := FRAME_HEADER_BYTES + length;
      if length > MAX_FRAME_PAYLOAD_BYTES then Err(FrameLimit)
      else if |stream| < total then Err(EndOfStream)
      else
        var decoded := Decode(App, stream[..total]);
        if decoded.Ok? && decoded.value.1 == total then Ok((decoded.value.0, stream[total..])) else Err(BadFrame)
  }

  /**
   Reading header and payload separately yields a frame exactly when decoding the stream
   does. A truncated frame always ends the stream; a length past the limit is refused as such; and
   whatever the reader calls bad, decoding refuses for a reason other than truncation.
   */
  lemma ReadFrameIsDecode(stream: seq<byte>)
    ensures ReadFrame(stream).Ok? <==> Decode(App, stream).Ok?
    ensures Decode(App, stream).Ok? ==>
              ReadFrame(stream) == Ok((Decode(App, stream).value.0, stream[Decode(App, stream).value.1..]))
    ensures Decode(App, stream) == Err(TruncatedFrame) ==> ReadFrame(stream) == Err(EndOfStream)
    ensures Decode(App, stream) == Err(LimitExceeded) ==> ReadFrame(stream) == Err(FrameLimit)
    ensures ReadFrame(stream) == Err(BadFrame) ==> Decode(App, stream) in {Err(UnsupportedFrame), Err(MalformedFrame)}
  {
    if |stream| >= FRAME_HEADER_BYTES {
      var total := FRAME_HEADER_BYTES + FromBe(stream[8..12]);
      if |stream| >= total {
        var whole := stream[..total];
        assert whole[8..12] == stream[8..12] && whole[4..8] == stream[4..8];
        assert whole[FRAME_HEADER_BYTES..total] == stream[FRAME_HEADER_BYTES..total];
      }
    }
  }

  /** Every outcome but running out of bytes is final: later bytes do not change it. */
  lemma ReadFrameFinal(stream: seq<byte>, more: seq<byte>)
    requires ReadFrame(stream) != Err(EndOfStream)
    ensures ReadFrame(stream + more) == match ReadFrame(stream)
                                        case Ok((frame, rest)) => Ok((frame, rest + more))
                                        case Err(e) => Err(e)
  {
    var all := stream + more;
    assert all[8..12] == stream[8..12];
    var total := FRAME_HEADER_BYTES + FromBe(stream[8..12]);
    if total <= |stream| {
      assert all[..total] == stream[..total];
      assert all[total..] == stream[total..] + more;
    }
  }
}
