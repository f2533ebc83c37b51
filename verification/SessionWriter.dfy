/**
 The SDK session's write path: a frame cut short by back-pressure, an error or a dropped
 future stays pending and is finished before any later frame.
 */
module SessionWriter {
  import opened Wrappers
  import opened Bytes
  import opened Frames

  /**
   What the channel answers to one poll. `Ready(n)` writes up to `n` bytes (or completes a
   flush), `Pending` is polled again later, `Dropped` is the caller abandoning the future there.
   */
  datatype Poll = Ready(n: nat) | Failed | Pending | Dropped

  datatype Outcome = Done | IoError | Cancelled

  /** The channel (`wire`, and how much of it was flushed) with the session's pending output. */
  datatype Output = Output(wire: seq<byte>, flushed: nat, pending: Option<seq<byte>>, offset: nat, needFlush: bool)

  function Min(a: nat, b: nat): nat { if a < b then a else b }

  // ----- one call, for a given schedule of polls; an exhausted schedule is a dropped future -----

  function Drain(o: Output, script: seq<Poll>): (Output, seq<Poll>, Outcome)
    decreases |script|
  {
    if o.pending.None? then (o, script, IoError)
    else if o.offset >= |o.pending.value| then (o.(pending := None, offset := 0, needFlush := true), script, Done)
    else if script == [] then (o, [], Cancelled)
    else
      match script[0]
      case Ready(n) =>
        if n == 0 then (o, script[1..], IoError)
        else
          var count := Min(n, |o.pending.value| - o.offset);
          Drain(o.(wire := o.wire + o.pending.value[o.offset..o.offset + count], offset := o.offset + count), script[1..])
      case Failed => (o, script[1..], IoError)
      case Pending => Drain(o, script[1..])
      case Dropped => (o, script[1..], Cancelled)
  }

  function Flush(o: Output, script: seq<Poll>): (Output, seq<Poll>, Outcome)
    decreases |script|
  {
    if script == [] then (o, [], Cancelled)
    else
      match script[0]
      case Ready(_) => (o.(flushed := |o.wire|, needFlush := false), script[1..], Done)
      case Failed => (o, script[1..], IoError)
      case Pending => Flush(o, script[1..])
      case Dropped => (o, script[1..], Cancelled)
  }

  function FlushIfNeeded(o: Output, script: seq<Poll>): (Output, seq<Poll>, Outcome) {
    if o.needFlush then Flush(o, script) else (o, script, Done)
  }

  function FinishOutput(o: Output, script: seq<Poll>): (Output, seq<Poll>, Outcome) {
    var (drained, rest, outcome) := if o.pending.Some? then Drain(o, script) else (o, script, Done);
    if outcome != Done then (drained, rest, outcome) else FlushIfNeeded(drained, rest)
  }

  /** The new frame is accepted only once earlier output is written and flushed. */
  function WriteFrame(o: Output, frame: seq<byte>, script: seq<Poll>): (Output, bool, Outcome) {
    var (ready, rest, outcome) := FinishOutput(o, script);
    if outcome != Done then (ready, false, outcome)
    else
      var (drained, rest', outcome') := Drain(ready.(pending := Some(frame), offset := 0), rest);
      if outcome' != Done then (drained, true, outcome')
      else
        var (flushed, _, outcome'') := FlushIfNeeded(drained, rest');
        (flushed, true, outcome'')
  }

  // ----- whole runs -----

  /** One session call that touches the output, with the schedule its polls meet. */
  datatype Call = Write(frame: Frame, script: seq<Poll>) | Finish(script: seq<Poll>)

  /** The output together with the frames accepted so far. */
  datatype Session = Session(output: Output, accepted: seq<Frame>)

  function Step(s: Session, call: Call): (Session, Outcome) {
    match call
    case Write(frame, script) =>
      if Encode(App, frame).Err? then (s, IoError)
      else
        var (o, took, outcome) := WriteFrame(s.output, Encode(App, frame).value, script);
        (Session(o, if took then s.accepted + [frame] else s.accepted), outcome)
    case Finish(script) =>
      var (o, _, outcome) := FinishOutput(s.output, script);
      (Session(o, s.accepted), outcome)
  }

  function Run(s: Session, calls: seq<Call>): Session
    decreases calls
  {
    if calls == [] then s else Run(Step(s, calls[0]).0, calls[1..])
  }

  /** The session right after `connect`, whose greeting is already written and flushed. */
  function Connected(greeting: seq<byte>): Session {
    Session(Output(greeting, |greeting|, None, 0, false), [])
  }

  // ----- the invariant -----

  /** Bytes of the pending frame not yet on the wire. */
  function Unwritten(o: Output): seq<byte> {
    if o.pending.Some? && o.offset <= |o.pending.value| then o.pending.value[o.offset..] else []
  }

  /** Shape of the output between polls, inside a call included. */
  ghost predicate OutputOk(o: Output) {
    && o.flushed <= |o.wire|
    && (o.pending.Some? ==> o.offset <= |o.pending.value| && !o.needFlush && o.flushed + o.offset >= |o.wire|)
    && (o.pending.None? ==> o.offset == 0 && (!o.needFlush ==> o.flushed == |o.wire|))
  }

  /** Between calls a pending frame is unfinished. */
  ghost predicate Settled(o: Output) {
    OutputOk(o) && (o.pending.Some? ==> o.offset < |o.pending.value|)
  }

  /** The wire plus what is still pending is the greeting followed by the accepted frames, in order. */
  ghost predicate Faithful(greeting: seq<byte>, s: Session) {
    && AllEncodable(App, s.accepted)
    && Settled(s.output)
    && s.output.wire + Unwritten(s.output) == greeting + EncodeAll(App, s.accepted)
    && (s.output.pending.Some? ==>
          s.accepted != [] && s.output.pending.value == Encode(App, s.accepted[|s.accepted| - 1]).value)
  }

  /** Draining moves bytes from pending to the wire and loses none, whatever the schedule. */
  /** `count` more bytes of the pending frame on the wire. */
  ghost function Advanced(o: Output, count: nat): Output
    requires o.pending.Some? && o.offset + count <= |o.pending.value|
  {
    o.(wire := o.wire + o.pending.value[o.offset..o.offset + count], offset := o.offset + count)
  }

  lemma AdvanceConserves(o: Output, count: nat)
    requires o.pending.Some? && o.offset + count <= |o.pending.value|
    ensures Advanced(o, count).wire + Unwritten(Advanced(o, count)) == o.wire + Unwritten(o)
  {
    var bytes := o.pending.value;
    assert bytes[o.offset..o.offset + count] + bytes[o.offset + count..] == bytes[o.offset..];
  }

  lemma {:induction false} DrainConserves(o: Output, script: seq<Poll>)
    requires OutputOk(o) && o.pending.Some?
    ensures var (p, _, outcome) := Drain(o, script);
            && Settled(p)
            && p.wire + Unwritten(p) == o.wire + Unwritten(o)
            && (if outcome == Done then p.pending.None? && p.needFlush else p.pending == o.pending)
    decreases |script|
  {
    if o.offset < |o.pending.value| && script != [] {
      if script[0].Ready? && script[0].n > 0 {
        var count := Min(script[0].n, |o.pending.value| - o.offset);
        AdvanceConserves(o, count);
        hide Unwritten;
        DrainConserves(Advanced(o, count), script[1..]);
      } else if script[0].Pending? {
        DrainConserves(o, script[1..]);
      }
    } else if o.offset >= |o.pending.value| {
      assert o.pending.value[o.offset..] == [];
    }
  }

  lemma {:induction false} FlushKeeps(o: Output, script: seq<Poll>)
    requires Settled(o) && o.pending.None?
    ensures var (p, _, outcome) := Flush(o, script);
            && Settled(p) && p.pending.None? && p.wire == o.wire
            && (outcome == Done ==> !p.needFlush && p.flushed == |p.wire|)
    decreases |script|
  {
    if script != [] && script[0].Pending? { FlushKeeps(o, script[1..]); }
  }

  lemma FinishConserves(o: Output, script: seq<Poll>)
    requires Settled(o)
    ensures var (p, _, outcome) := FinishOutput(o, script);
            && Settled(p)
            && p.wire + Unwritten(p) == o.wire + Unwritten(o)
            && (p.pending.Some? ==> p.pending == o.pending)
            && (outcome == Done ==> p.pending.None? && !p.needFlush && p.flushed == |p.wire|)
  {
    hide Drain, Flush;
    if o.pending.Some? { DrainConserves(o, script); }
    var (drained, rest, outcome) := if o.pending.Some? then Drain(o, script) else (o, script, Done);
    if outcome == Done && drained.needFlush { FlushKeeps(drained, rest); }
  }

  /** What one write does: earlier output first, then at most this frame, complete when the call succeeds. */
  lemma WriteConserves(o: Output, frame: seq<byte>, script: seq<Poll>)
    requires Settled(o) && frame != []
    ensures var (p, took, outcome) := WriteFrame(o, frame, script);
            && Settled(p)
            && p.wire + Unwritten(p) == o.wire + Unwritten(o) + (if took then frame else [])
            && (p.pending.Some? ==> p.pending == if took then Some(frame) else o.pending)
            && (outcome == Done ==> took && p.pending.None? && !p.needFlush && p.flushed == |p.wire|)
  {
    hide Drain, Flush, FinishOutput;
    FinishConserves(o, script);
    var (ready, rest, outcome) := FinishOutput(o, script);
    if outcome == Done {
      var loaded := ready.(pending := Some(frame), offset := 0);
      assert frame[0..] == frame;
      DrainConserves(loaded, rest);
      var (drained, rest', outcome') := Drain(loaded, rest);
      if outcome' == Done { FlushKeeps(drained, rest'); }
    }
  }

  lemma WriteFaithful(greeting: seq<byte>, s: Session, frame: Frame, script: seq<Poll>)
    requires Faithful(greeting, s) && Encode(App, frame).Ok?
    ensures Faithful(greeting, Step(s, Write(frame, script)).0)
  {
    hide WriteFrame, FinishOutput, Settled, Unwritten, Encode, EncodeAll, AllEncodable;
    var bytes := Encode(App, frame).value;
    EncodeShape(App, frame);
    WriteConserves(s.output, bytes, script);
    EncodeAllSnoc(App, s.accepted, frame);
    var (o, took, _) := WriteFrame(s.output, bytes, script);
    if took {
      assert greeting + EncodeAll(App, s.accepted) + bytes == greeting + (EncodeAll(App, s.accepted) + bytes);
    } else {
      assert s.output.wire + Unwritten(s.output) + [] == s.output.wire + Unwritten(s.output);
    }
  }

  lemma StepFaithful(greeting: seq<byte>, s: Session, call: Call)
    requires Faithful(greeting, s)
    ensures Faithful(greeting, Step(s, call).0)
    ensures var t := Step(s, call).0;
            t.accepted == s.accepted || (call.Write? && t.accepted == s.accepted + [call.frame])
  {
    hide WriteFrame, FinishOutput, Settled, Unwritten, Encode, EncodeAll, AllEncodable;
    match call
    case Write(frame, script) =>
      if Encode(App, frame).Ok? { WriteFaithful(greeting, s, frame, script); }
    case Finish(script) =>
      FinishConserves(s.output, script);
  }

  lemma {:induction false} RunFaithful(greeting: seq<byte>, s: Session, calls: seq<Call>)
    requires Faithful(greeting, s)
    ensures Faithful(greeting, Run(s, calls))
    ensures s.accepted <= Run(s, calls).accepted
    decreases calls
  {
    hide Faithful, Step;
    if calls != [] {
      StepFaithful(greeting, s, calls[0]);
      RunFaithful(greeting, Step(s, calls[0]).0, calls[1..]);
    }
  }

  lemma ConnectedFaithful(greeting: seq<byte>)
    ensures Faithful(greeting, Connected(greeting))
  {
  }

  /** Frames a peer can already read in full. */
  function Complete(s: Session): seq<Frame> {
    if s.output.pending.Some? && s.accepted != [] then s.accepted[..|s.accepted| - 1] else s.accepted
  }

  lemma FaithfulWire(greeting: seq<byte>, s: Session)
    requires Faithful(greeting, s)
    ensures AllEncodable(App, Complete(s))
    ensures exists tail :: Partial(App, tail) && s.output.wire == greeting + EncodeAll(App, Complete(s)) + tail
  {
    hide Encode, EncodeAll;
    var o := s.output;
    if o.pending.None? {
      assert Partial(App, []);
      assert o.wire == greeting + EncodeAll(App, Complete(s)) + [];
    } else {
      var n := |s.accepted| - 1;
      var front, last := s.accepted[..n], s.accepted[n];
      var bytes := o.pending.value;
      assert s.accepted == front + [last];
      EncodeAllSnoc(App, front, last);
      var tail := bytes[..o.offset];
      assert Partial(App, tail);
      assert bytes == tail + bytes[o.offset..];
      assert o.wire + bytes[o.offset..] == greeting + EncodeAll(App, front) + tail + bytes[o.offset..];
      SuffixCancels(o.wire, greeting + EncodeAll(App, front) + tail, bytes[o.offset..]);
    }
  }

  lemma SuffixCancels(a: seq<byte>, b: seq<byte>, c: seq<byte>)
    requires a + c == b + c
    ensures a == b
  {
    assert |a + c| == |a| + |c| && |b + c| == |b| + |c|;
    assert a == (a + c)[..|a|] && b == (b + c)[..|b|];
  }

  /**
   End to end: after `connect`, under every schedule of partial writes, pending polls,
   errors and dropped futures over any sequence of calls, the wire is the greeting, the
   accepted frames in acceptance order, and a cut inside at most the last one; so a
   frame-decoding peer reads exactly the accepted frames, or all but the last.
   */
  lemma PeerSeesAcceptedPrefix(greeting: seq<byte>, calls: seq<Call>)
    ensures PeerReads(greeting, Run(Connected(greeting), calls))
  {
    hide Run, Faithful, PeerReads;
    ConnectedFaithful(greeting);
    RunFaithful(greeting, Connected(greeting), calls);
    FaithfulPeer(greeting, Run(Connected(greeting), calls));
  }

  /** What a peer decodes after the greeting is the accepted frames, in order, or all but the last. */
  ghost predicate PeerReads(greeting: seq<byte>, s: Session) {
    && greeting <= s.output.wire
    && DecodeAll(App, s.output.wire[|greeting|..]).0 == Complete(s)
    && Complete(s) <= s.accepted && |s.accepted| <= |Complete(s)| + 1
  }

  lemma FaithfulPeer(greeting: seq<byte>, s: Session)
    requires Faithful(greeting, s)
    ensures PeerReads(greeting, s)
  {
    hide Faithful, DecodeAll, EncodeAll, Encode;
    FaithfulWire(greeting, s);
    var tail :| Partial(App, tail) && s.output.wire == greeting + EncodeAll(App, Complete(s)) + tail;
    assert s.output.wire[|greeting|..] == EncodeAll(App, Complete(s)) + tail;
    DecodeAllEncoded(App, Complete(s), tail);
  }

  /**
   A write that reports success has put its frame, and every frame accepted before it,
   on the wire in full and flushed; a failed or dropped call accepts at most its own frame.
   */
  lemma SuccessMeansDelivered(greeting: seq<byte>, calls: seq<Call>, frame: Frame, script: seq<Poll>)
    requires var s := Run(Connected(greeting), calls); Step(s, Write(frame, script)).1 == Done
    ensures var s := Run(Connected(greeting), calls);
            var t := Step(s, Write(frame, script)).0;
            && t.accepted == s.accepted + [frame]
            && AllEncodable(App, t.accepted)
            && t.output.wire == greeting + EncodeAll(App, t.accepted)
            && t.output.flushed == |t.output.wire|
  {
    hide Run, WriteFrame, EncodeAll, Encode;
    ConnectedFaithful(greeting);
    RunFaithful(greeting, Connected(greeting), calls);
    var s := Run(Connected(greeting), calls);
    StepFaithful(greeting, s, Write(frame, script));
    EncodeShape(App, frame);
    WriteConserves(s.output, Encode(App, frame).value, script);
  }
}
