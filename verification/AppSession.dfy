/** The SDK session as it runs: one object whose queues, stream set and pending output every call updates. */
module AppSession {
  import opened Wrappers
  import opened Bytes
  import opened Frames
  import opened SessionWriter
  import opened WriterOutcome
  import opened SessionInbox
  import SessionHistory

  /** Why a call did not return a value: an SDK error, or its future was dropped. */
  datatype Failure = Sdk(error: SdkError) | Abandoned

  function AsFailure(o: Outcome): Failure { if o == Cancelled then Abandoned else Sdk(Io) }

  const U32_MAX: nat := 0xffff_ffff

  /** The byte channel to the host: what it has taken, and the schedule of its answers. */
  class Channel {
    var wire: seq<byte>
    var flushed: nat
    var script: seq<Poll>

    method PollWrite(buf: seq<byte>) returns (p: Poll, count: nat)
      requires buf != []
      modifies this
      ensures flushed == old(flushed)
      ensures old(script) == [] ==> p == Dropped && script == [] && wire == old(wire)
      ensures old(script) != [] ==> p == old(script)[0] && script == old(script)[1..]
      ensures old(script) != [] && p.Ready? ==> count == Min(p.n, |buf|) && wire == old(wire) + buf[..count]
      ensures !p.Ready? ==> wire == old(wire)
    {
      count := 0;
      if script == [] { return Dropped, 0; }
      p, script := script[0], script[1..];
      if p.Ready? {
        count := Min(p.n, |buf|);
        wire := wire + buf[..count];
      }
    }

    method PollFlush() returns (p: Poll)
      modifies this
      ensures wire == old(wire)
      ensures old(script) == [] ==> p == Dropped && script == []
      ensures old(script) != [] ==> p == old(script)[0] && script == old(script)[1..]
      ensures flushed == if old(script) != [] && p.Ready? then |wire| else old(flushed)
    {
      if script == [] { return Dropped; }
      p, script := script[0], script[1..];
      if p.Ready? { flushed := |wire|; }
    }
  }

  /**
   The session. Its ghost fields record what the run theorems speak about: the greeting, the
   frames accepted for writing, everything that arrived, and what became of it.
   */
  class AppSession {
    const writer: Channel
    var input: seq<Inbound>
    var nextStream: u32
    var streams: set<u32>
    var pendingControls: seq<Message>
    var pendingData: seq<Frame>
    var capabilities: set<Capability>
    var pendingWrite: Option<seq<byte>>
    var pendingWriteOffset: nat
    var pendingFlush: bool
    ghost const greeting: seq<byte>
    ghost var accepted: seq<Frame>
    ghost var arrivals: seq<Inbound>
    ghost var history: SessionHistory.History

    ghost function Pending(): Output
      reads `pendingWrite, `pendingWriteOffset, `pendingFlush, writer
    {
      Output(writer.wire, writer.flushed, pendingWrite, pendingWriteOffset, pendingFlush)
    }

    ghost function Inbound(): Inbox
      reads `input, `streams, `pendingControls, `pendingData
    {
      Inbox(input, streams, pendingControls, pendingData)
    }

    /** The wire and the pending frame carry the greeting and the accepted frames. */
    ghost predicate WireFaithful()
      reads `pendingWrite, `pendingWriteOffset, `pendingFlush, `accepted, writer
    {
      Faithful(greeting, Session(Pending(), accepted))
    }

    /** Nothing that arrived is unaccounted for, and at most 129 streams are live. */
    ghost predicate InboxAccounted()
      reads `input, `streams, `pendingControls, `pendingData, `arrivals, `history
    {
      && history.inbox == Inbound()
      && SessionHistory.Conserved(arrivals, history)
      && |streams| <= MAX_STREAMS + 1
    }

    ghost predicate Valid()
      reads this, writer
    {
      WireFaithful() && InboxAccounted()
    }

    /** The run theorem of the writer, of the live object. */
    lemma PeerReadsAccepted()
      requires Valid()
      ensures PeerReads(greeting, Session(Pending(), accepted))
    {
      hide PeerReads, Faithful;
      FaithfulPeer(greeting, Session(Pending(), accepted));
    }

    /** A session whose greeting is on the wire and flushed. */
    constructor (writer: Channel, input: seq<Inbound>)
      requires writer.flushed == |writer.wire|
      ensures this.writer == writer && greeting == writer.wire && arrivals == input
      ensures capabilities == {} && nextStream == 1 && accepted == []
      ensures Inbound() == Inbox(input, {}, [], [])
      ensures pendingWrite.None? && pendingWriteOffset == 0 && !pendingFlush
      ensures Valid()
    {
      this.writer, this.input, this.capabilities := writer, input, {};
      nextStream, streams, pendingControls, pendingData := 1, {}, [], [];
      pendingWrite, pendingWriteOffset, pendingFlush := None, 0, false;
      greeting, accepted, arrivals, history := writer.wire, [], input, SessionHistory.Fresh(input, {});
      new;
      ConnectedFaithful(greeting);
      SessionHistory.FreshConserved(input, {});
    }

    /** More frames arrive; a read that ran out of frames, or was dropped, resumes with them. */
    method Deliver(more: seq<Inbound>)
      requires Valid()
      modifies `input, `arrivals, `history
      ensures Valid() && arrivals == old(arrivals) + more
      ensures Inbound() == old(Inbound()).(input := old(input) + more)
    {
      hide SessionHistory.Conserved;
      SessionHistory.ArrivalsConserved(arrivals, history, more);
      input, arrivals := input + more, arrivals + more;
      history := history.(inbox := Inbound());
    }

    // ----- output -----

    method DrainPendingFrame() returns (outcome: Outcome)
      modifies `pendingWrite, `pendingWriteOffset, `pendingFlush, writer
      ensures (Pending(), writer.script, outcome) == Drain(old(Pending()), old(writer.script))
    {
      if pendingWrite.None? { return IoError; }
      var bytes := pendingWrite.value;
      ghost var goal := Drain(Pending(), writer.script);
      while pendingWriteOffset < |bytes|
        invariant pendingWrite == Some(bytes)
        invariant Drain(Pending(), writer.script) == goal
        decreases |writer.script|, |bytes| - pendingWriteOffset
      {
        var buf := bytes[pendingWriteOffset..];
        ghost var wire := writer.wire;
        var p, count := writer.PollWrite(buf);
        match p
        case Ready(n) =>
          if n == 0 {
            assert wire + buf[..0] == wire;
            return IoError;
          }
          assert buf[..count] == bytes[pendingWriteOffset..pendingWriteOffset + count];
          pendingWriteOffset := pendingWriteOffset + count;
        case Failed => return IoError;
        case Pending =>
        case Dropped => return Cancelled;
      }
      pendingWrite, pendingWriteOffset, pendingFlush := None, 0, true;
      return Done;
    }

    method FlushPending() returns (outcome: Outcome)
      modifies `pendingFlush, writer
      ensures (Pending(), writer.script, outcome) == FlushIfNeeded(old(Pending()), old(writer.script))
    {
      if !pendingFlush { return Done; }
      ghost var goal := Flush(Pending(), writer.script);
      while true
        invariant pendingFlush
        invariant Flush(Pending(), writer.script) == goal
        decreases |writer.script|
      {
        var p := writer.PollFlush();
        match p
        case Ready(_) =>
          pendingFlush := false;
          return Done;
        case Failed => return IoError;
        case Pending =>
        case Dropped => return Cancelled;
      }
    }

    method FinishPendingOutput() returns (outcome: Outcome)
      modifies `pendingWrite, `pendingWriteOffset, `pendingFlush, writer
      ensures (Pending(), writer.script, outcome) == FinishOutput(old(Pending()), old(writer.script))
    {
      hide Drain, Flush;
      if pendingWrite.Some? {
        outcome := DrainPendingFrame();
        if outcome != Done { return outcome; }
      }
      outcome := FlushPending();
    }

    method WriteFrame(frame: seq<byte>) returns (ghost took: bool, outcome: Outcome)
      modifies `pendingWrite, `pendingWriteOffset, `pendingFlush, writer
      ensures (Pending(), took, outcome) == SessionWriter.WriteFrame(old(Pending()), frame, old(writer.script))
    {
      hide Drain, Flush, FinishOutput;
      took := false;
      outcome := FinishPendingOutput();
      if outcome != Done { return took, outcome; }
      pendingWrite, pendingWriteOffset := Some(frame), 0;
      took := true;
      outcome := DrainPendingFrame();
      if outcome != Done { return took, outcome; }
      outcome := FlushPending();
    }

    /** Encodes a frame and writes it. */
    method WriteMessage(frame: Frame) returns (r: Result<(), Failure>)
      requires Valid()
      modifies `pendingWrite, `pendingWriteOffset, `pendingFlush, `accepted, writer
      ensures Valid()
      ensures match Encode(App, frame)
              case Err(_) => r == Err(Sdk(Protocol)) && Pending() == old(Pending()) && accepted == old(accepted)
              case Ok(bytes) =>
                var (o, took, outcome) := SessionWriter.WriteFrame(old(Pending()), bytes, old(writer.script));
                && Pending() == o && accepted == (if took then old(accepted) + [frame] else old(accepted))
                && r == if outcome == Done then Ok(()) else Err(AsFailure(outcome))
    {
      hide SessionWriter.WriteFrame, Encode, Faithful, SessionHistory.Conserved;
      var bytes := Encode(App, frame);
      if bytes.Err? { return Err(Sdk(Protocol)); }
      WriteFaithful(greeting, Session(Pending(), accepted), frame, writer.script);
      ghost var took: bool;
      var outcome;
      took, outcome := WriteFrame(bytes.value);
      if took { accepted := accepted + [frame]; }
      return if outcome == Done then Ok(()) else Err(AsFailure(outcome));
    }

    /** `write_control`; `None` is a message that does not serialize. */
    method WriteControl(request: Option<seq<byte>>) returns (r: Result<(), Failure>)
      requires Valid()
      modifies `pendingWrite, `pendingWriteOffset, `pendingFlush, `accepted, writer
      ensures Valid()
      ensures Wrote(request, old(Pending()), old(writer.script), old(accepted), Pending(), accepted, r)
    {
      hide SessionWriter.WriteFrame, Encode;
      if request.None? { return Err(Sdk(Protocol)); }
      r := WriteMessage(Frame(Control, 0, request.value));
    }

    method Send(streamId: u32, bytes: seq<byte>) returns (r: Result<(), Failure>)
      requires Valid()
      modifies `pendingWrite, `pendingWriteOffset, `pendingFlush, `accepted, writer
      ensures Valid()
      ensures streamId !in streams ==> r == Err(Sdk(Closed)) && Pending() == old(Pending()) && accepted == old(accepted)
      ensures streamId in streams ==>
        match Encode(App, Frame(Data, streamId, bytes))
        case Err(_) => r == Err(Sdk(Protocol)) && Pending() == old(Pending()) && accepted == old(accepted)
        case Ok(frame) =>
          var (o, took, outcome) := SessionWriter.WriteFrame(old(Pending()), frame, old(writer.script));
          && Pending() == o && accepted == (if took then old(accepted) + [Frame(Data, streamId, bytes)] else old(accepted))
          && r == if outcome == Done then Ok(()) else Err(AsFailure(outcome))
      ensures streamId in streams && Encode(App, Frame(Data, streamId, bytes)).Ok? && Smooth(old(writer.script))
              && Readies(old(writer.script)) >= |Unwritten(old(Pending()))| + |Encode(App, Frame(Data, streamId, bytes)).value| + 2
        ==> r == Ok(()) && accepted == old(accepted) + [Frame(Data, streamId, bytes)]
    {
      hide SessionWriter.WriteFrame, Encode, Smooth, Readies;
      SendSucceeds(Pending(), Frame(Data, streamId, bytes), writer.script);
      if streamId !in streams { return Err(Sdk(Closed)); }
      r := WriteMessage(Frame(Data, streamId, bytes));
    }

    // ----- input -----

    method ApplyStreamEvent(m: Message) returns (r: Result<(), SdkError>)
      modifies `streams
      ensures match ApplyEvent(old(streams), m)
              case Ok(s) => r == Ok(()) && streams == s
              case Err(e) => r == Err(e) && streams == old(streams)
    {
      match m {
        case LocalServiceIncoming(_, stream) =>
          if stream !in streams && |streams| >= MAX_STREAMS { return Err(StreamLimit); }
          streams := streams + {stream};
        case StreamClosed(stream) => streams := streams - {stream};
        case StreamReset(stream) => streams := streams - {stream};
        case _ =>
      }
      return Ok(());
    }

    method QueueControl(m: Message) returns (r: Result<(), SdkError>)
      modifies `streams, `pendingControls
      ensures (Inbound(), r) == SessionInbox.QueueControl(old(Inbound()), m)
    {
      if |pendingControls| >= MAX_PENDING_CONTROLS { return Err(StreamLimit); }
      r := ApplyStreamEvent(m);
      if r.Err? { return r; }
      pendingControls := pendingControls + [m];
    }

    method NextControl() returns (r: Result<Message, SdkError>)
      modifies `input, `streams, `pendingData
      ensures (Inbound(), r) == SessionInbox.NextControl(old(Inbound()))
    {
      hide ApplyEvent;
      while input != []
        invariant SessionInbox.NextControl(Inbound()) == SessionInbox.NextControl(old(Inbound()))
        decreases |input|
      {
        var frame := input[0];
        input := input[1..];
        match frame
        case ControlFrame(m) =>
          var applied := ApplyStreamEvent(m);
          return if applied.Ok? then Ok(m) else Err(applied.error);
        case DataFrame(f) =>
          if f.streamId !in streams { return Err(Protocol); }
          if |pendingData| >= MAX_PENDING_FRAMES { return Err(StreamLimit); }
          pendingData := pendingData + [f];
        case BadControl => return Err(Protocol);
      }
      return Err(Io);
    }

    /** The waiting loop of `wait_reply`, `publish_local_service` and `unpublish_local_service`. */
    method WaitFor(wanted: Message -> bool) returns (r: Result<Message, SdkError>)
      modifies `input, `streams, `pendingControls, `pendingData
      ensures (Inbound(), r) == SessionInbox.WaitFor(old(Inbound()), wanted)
    {
      hide SessionInbox.NextControl, SessionInbox.QueueControl;
      while true
        invariant SessionInbox.WaitFor(Inbound(), wanted) == SessionInbox.WaitFor(old(Inbound()), wanted)
        decreases |input|
      {
        NextControlConsumes(Inbound());
        r := NextControl();
        if r.Err? || wanted(r.value) { return r; }
        QueueControlKeepsInput(Inbound(), r.value);
        var queued := QueueControl(r.value);
        if queued.Err? { return Err(queued.error); }
      }
    }

    method RecvControl() returns (r: Result<Message, Failure>)
      requires Valid()
      modifies this, writer
      ensures Valid() && Unmoved(old(nextStream), old(capabilities), old(accepted), old(arrivals))
      ensures var (o, script, outcome) := FinishOutput(old(Pending()), old(writer.script));
        && Pending() == o && writer.script == script
        && if outcome != Done then r == Err(AsFailure(outcome)) && Inbound() == old(Inbound())
           else
             var (s, m) := SessionInbox.RecvControl(old(Inbound()));
             Inbound() == s && r == if m.Ok? then Ok(m.value) else Err(Sdk(m.error))
    {
      hide FinishOutput, SessionInbox.NextControl, Faithful, SessionHistory.Conserved, SessionHistory.Advance;
      StepFaithful(greeting, Session(Pending(), accepted), Finish(writer.script));
      var outcome := FinishPendingOutput();
      if outcome != Done { return Err(AsFailure(outcome)); }
      Record(SessionHistory.TakeControl);
      if pendingControls != [] {
        r := Ok(pendingControls[0]);
        pendingControls := pendingControls[1..];
        return;
      }
      var read := NextControl();
      return if read.Ok? then Ok(read.value) else Err(Sdk(read.error));
    }

    method ReceiveData() returns (r: Result<Frame, SdkError>)
      modifies `input, `streams, `pendingControls, `pendingData
      ensures (Inbound(), r) == SessionInbox.Receive(old(Inbound()))
    {
      hide ApplyEvent;
      while pendingData != []
        invariant SessionInbox.Receive(Inbound()) == SessionInbox.Receive(old(Inbound()))
        decreases |pendingData|
      {
        var frame := pendingData[0];
        pendingData := pendingData[1..];
        if frame.streamId in streams { return Ok(frame); }
      }
      while input != []
        invariant pendingData == []
        invariant SessionInbox.Receive(Inbound()) == SessionInbox.Receive(old(Inbound()))
        decreases |input|
      {
        var frame := input[0];
        input := input[1..];
        match frame
        case DataFrame(f) => return if f.streamId in streams then Ok(f) else Err(Protocol);
        case BadControl => return Err(Protocol);
        case ControlFrame(m) =>
          var queued := QueueControl(m);
          if queued.Err? { return Err(queued.error); }
      }
      return Err(Io);
    }

    method Receive() returns (r: Result<Frame, Failure>)
      requires Valid()
      modifies this, writer
      ensures Valid() && Unmoved(old(nextStream), old(capabilities), old(accepted), old(arrivals))
      ensures var (o, script, outcome) := FinishOutput(old(Pending()), old(writer.script));
        && Pending() == o && writer.script == script
        && if outcome != Done then r == Err(AsFailure(outcome)) && Inbound() == old(Inbound())
           else
             var (s, f) := SessionInbox.Receive(old(Inbound()));
             Inbound() == s && r == if f.Ok? then Ok(f.value) else Err(Sdk(f.error))
    {
      hide FinishOutput, SessionInbox.Receive, Faithful, SessionHistory.Conserved, SessionHistory.Advance;
      StepFaithful(greeting, Session(Pending(), accepted), Finish(writer.script));
      var outcome := FinishPendingOutput();
      if outcome != Done { return Err(AsFailure(outcome)); }
      Record(SessionHistory.TakeData);
      var read := ReceiveData();
      return if read.Ok? then Ok(read.value) else Err(Sdk(read.error));
    }

    /** Books the call about to run on the inbox, as given the whole input. */
    ghost method Record(call: SessionHistory.Call)
      requires InboxAccounted()
      modifies `history
      ensures history == SessionHistory.Advance(old(history), SessionHistory.Attempt(call, |input|))
      ensures SessionHistory.Conserved(arrivals, history) && |history.inbox.streams| <= MAX_STREAMS + 1
      ensures history.inbox ==
        match call
        case TakeControl => SessionInbox.RecvControl(Inbound()).0
        case TakeData => SessionInbox.Receive(Inbound()).0
        case Await(wanted) => SessionInbox.WaitFor(Inbound(), wanted).0
        case OpenStream(stream, id) => SessionInbox.Open(Inbound(), stream, id).0
        case Close(stream) => SessionInbox.CloseStream(Inbound(), stream).0
    {
      hide SessionHistory.Conserved, SessionHistory.Advance, SessionInbox.RecvControl, SessionInbox.Receive,
        SessionInbox.WaitFor, SessionInbox.Open, SessionInbox.CloseStream;
      var a := SessionHistory.Attempt(call, |input|);
      SessionHistory.AdvanceConserves(arrivals, history, a);
      SessionHistory.AdvanceBound(history, a);
      SessionHistory.AdvanceWhole(history, call);
      history := SessionHistory.Advance(history, a);
    }

    ghost predicate Unmoved(next: u32, granted: set<Capability>, frames: seq<Frame>, arrived: seq<Inbound>)
      reads this
    {
      nextStream == next && capabilities == granted && accepted == frames && arrivals == arrived
    }

    /** The wait and the insertion that end `open`. */
    method AwaitGrant(stream: u32, id: nat) returns (r: Result<u32, SdkError>)
      requires InboxAccounted() && |streams| < MAX_STREAMS
      modifies `input, `streams, `pendingControls, `pendingData, `history
      ensures InboxAccounted()
      ensures (Inbound(), r) == SessionInbox.Open(old(Inbound()), stream, id)
    {
      hide SessionInbox.WaitFor, SessionHistory.Conserved, SessionHistory.Advance;
      Record(SessionHistory.OpenStream(stream, id));
      var reply := WaitFor(m => IsReplyTo(m, id));
      if reply.Err? { return Err(reply.error); }
      if !(reply.value.Reply? && reply.value.succeeded) { return Err(Refused); }
      streams := streams + {stream};
      return Ok(stream);
    }

    /**
     `open` for a service needing `required`. `id` is the request number, `None` when the counter is
     exhausted, and `request` the serialized message.
     */
    method Open(required: Capability, id: Option<nat>, request: Option<seq<byte>>) returns (r: Result<u32, Failure>)
      requires Valid()
      modifies this, writer
      ensures Valid() && capabilities == old(capabilities) && arrivals == old(arrivals)
      ensures required !in capabilities ==> r == Err(Sdk(CapabilityDenied))
      ensures required in capabilities && (|old(streams)| >= MAX_STREAMS || old(nextStream) == U32_MAX) ==>
        r == Err(Sdk(StreamLimit))
      ensures if required !in capabilities || |old(streams)| >= MAX_STREAMS || old(nextStream) == U32_MAX
        then Unmoved(old(nextStream), capabilities, old(accepted), arrivals)
             && Inbound() == old(Inbound()) && Pending() == old(Pending())
        else
          && nextStream == old(nextStream) + 1
          && if id.None? then r == Err(Sdk(Closed)) && accepted == old(accepted)
                              && Inbound() == old(Inbound()) && Pending() == old(Pending())
             else
               && exists written ::
                    && Wrote(request, old(Pending()), old(writer.script), old(accepted), Pending(), accepted, written)
                    && if written.Err? then r == Err(written.error) && Inbound() == old(Inbound())
                       else
                         var (s, m) := SessionInbox.Open(old(Inbound()), old(nextStream), id.value);
                         Inbound() == s && r == if m.Ok? then Ok(m.value) else Err(Sdk(m.error))
    {
      hide SessionInbox.Open, WireFaithful, InboxAccounted, Wrote;
      if required !in capabilities { return Err(Sdk(CapabilityDenied)); }
      if |streams| >= MAX_STREAMS { return Err(Sdk(StreamLimit)); }
      var stream := nextStream;
      if nextStream == U32_MAX { return Err(Sdk(StreamLimit)); }
      nextStream := nextStream + 1;
      if id.None? { return Err(Sdk(Closed)); }
      var written := WriteControl(request);
      if written.Err? { return Err(written.error); }
      var granted := AwaitGrant(stream, id.value);
      return if granted.Ok? then Ok(granted.value) else Err(Sdk(granted.error));
    }

    /** `publish_local_service` and `unpublish_local_service`: a request, then the wait for its answer. */
    method Exchange(id: Option<nat>, request: Option<seq<byte>>, wanted: Message -> bool)
      returns (r: Result<Message, Failure>)
      requires Valid()
      modifies this, writer
      ensures Valid() && nextStream == old(nextStream) && capabilities == old(capabilities) && arrivals == old(arrivals)
      ensures if LocalService !in capabilities || id.None?
        then r == Err(Sdk(if LocalService !in capabilities then CapabilityDenied else Closed))
             && accepted == old(accepted) && Inbound() == old(Inbound()) && Pending() == old(Pending())
        else
          exists written ::
            && Wrote(request, old(Pending()), old(writer.script), old(accepted), Pending(), accepted, written)
            && if written.Err? then r == Err(written.error) && Inbound() == old(Inbound())
               else
                 var (s, m) := SessionInbox.WaitFor(old(Inbound()), wanted);
                 Inbound() == s && r == if m.Ok? then Ok(m.value) else Err(Sdk(m.error))
    {
      hide SessionInbox.WaitFor, Faithful, SessionHistory.Conserved, SessionHistory.Advance, Wrote;
      if LocalService !in capabilities { return Err(Sdk(CapabilityDenied)); }
      if id.None? { return Err(Sdk(Closed)); }
      var written := WriteControl(request);
      if written.Err? { return Err(written.error); }
      Record(SessionHistory.Await(wanted));
      var answer := WaitFor(wanted);
      return if answer.Ok? then Ok(answer.value) else Err(Sdk(answer.error));
    }

    method CloseStream(stream: u32, request: Option<seq<byte>>) returns (r: Result<(), Failure>)
      requires Valid()
      modifies this, writer
      ensures Valid() && nextStream == old(nextStream) && capabilities == old(capabilities) && arrivals == old(arrivals)
      ensures if stream !in old(streams)
        then r == Err(Sdk(Closed)) && accepted == old(accepted) && Inbound() == old(Inbound()) && Pending() == old(Pending())
        else
          && Wrote(request, old(Pending()), old(writer.script), old(accepted), Pending(), accepted, r)
          && Inbound() == if r.Err? then old(Inbound()) else SessionInbox.CloseStream(old(Inbound()), stream).0
    {
      hide Faithful, SessionHistory.Conserved, SessionHistory.Advance, Wrote;
      if stream !in streams { return Err(Sdk(Closed)); }
      r := WriteControl(request);
      if r.Err? { return; }
      Record(SessionHistory.Close(stream));
      streams := streams - {stream};
    }
  }

  lemma SendSucceeds(o: Output, frame: Frame, script: seq<Poll>)
    requires Settled(o)
    ensures Encode(App, frame).Ok? && Smooth(script) && Readies(script) >= |Unwritten(o)| + |Encode(App, frame).value| + 2 ==>
      var (_, took, outcome) := SessionWriter.WriteFrame(o, Encode(App, frame).value, script); took && outcome == Done
  {
    hide SessionWriter.WriteFrame, Encode, Smooth, Readies;
    if Encode(App, frame).Ok? && Smooth(script) && Readies(script) >= |Unwritten(o)| + |Encode(App, frame).value| + 2 {
      EncodeShape(App, frame);
      WriteSucceeds(o, Encode(App, frame).value, script);
    }
  }

  /** A failed call names the channel's error; a dropped one answers nothing. */
  lemma FailureMeaning()
    ensures AsFailure(IoError) == Sdk(Io) && AsFailure(Cancelled) == Abandoned
  {
  }

  /** What one attempt to write a control message leaves: nothing when it does not encode, else one frame write. */
  ghost predicate Wrote(request: Option<seq<byte>>, before: Output, script: seq<Poll>, accepted: seq<Frame>,
                        after: Output, accepted': seq<Frame>, r: Result<(), Failure>)
  {
    if request.None? || Encode(App, Frame(Control, 0, request.value)).Err?
    then r == Err(Sdk(Protocol)) && after == before && accepted' == accepted
    else
      var frame := Frame(Control, 0, request.value);
      var (o, took, outcome) := SessionWriter.WriteFrame(before, Encode(App, frame).value, script);
      && after == o && accepted' == (if took then accepted + [frame] else accepted)
      && r == if outcome == Done then Ok(()) else Err(AsFailure(outcome))
  }

  lemma NothingPending(o: Output, script: seq<Poll>)
    requires o.pending.None? && !o.needFlush
    ensures FinishOutput(o, script) == (o, script, Done)
  {
  }

  /** What a session without streams or queued frames reads first. */
  lemma FirstControl(s: Inbox)
    requires s.streams == {} && s.controls == [] && s.data == []
    ensures var (t, m) := SessionInbox.RecvControl(s);
      if s.input == [] then m == Err(Io)
      else if !s.input[0].ControlFrame? then m == Err(Protocol)
      else m == Ok(s.input[0].message)
           && (!m.value.LocalServiceIncoming? ==> t == s.(input := s.input[1..]))
  {
    if s.input != [] && s.input[0].ControlFrame? {
      assert forall x: u32 :: s.streams - {x} == {};
    }
  }

  /**
   `connect` once the greeting is written: the host must answer it and then grant the
   capabilities, as the first two frames it sends.
   */
  method Connect(writer: Channel, input: seq<Inbound>, id: nat) returns (r: Result<AppSession, Failure>)
    requires writer.flushed == |writer.wire|
    modifies writer
    ensures writer.wire == old(writer.wire) && writer.script == old(writer.script)
    ensures r.Ok? <==> |input| >= 2 && input[0] == ControlFrame(Reply(id, true))
                       && input[1].ControlFrame? && input[1].message.Capabilities?
    ensures r.Err? ==> r.error == Sdk(
      if input == [] || (|input| == 1 && input[0] == ControlFrame(Reply(id, true))) then Io else Protocol)
    ensures r.Ok? ==>
      && fresh(r.value) && r.value.writer == writer && r.value.Valid() && r.value.greeting == writer.wire
      && r.value.arrivals == input && r.value.accepted == []
      && r.value.capabilities == input[1].message.granted && r.value.nextStream == 1
      && r.value.Inbound() == Inbox(input[2..], {}, [], [])
  {
    hide FinishOutput, Faithful, SessionHistory.Conserved, SessionInbox.RecvControl;
    var session := new AppSession(writer, input);
    NothingPending(session.Pending(), writer.script);
    FirstControl(session.Inbound());
    var hello := session.RecvControl();
    if hello.Err? { return Err(hello.error); }
    if hello.value != Reply(id, true) { return Err(Sdk(Protocol)); }
    FirstControl(session.Inbound());
    var grant := session.RecvControl();
    if grant.Err? { return Err(grant.error); }
    if !grant.value.Capabilities? { return Err(Sdk(Protocol)); }
    session.capabilities := grant.value.granted;
    return Ok(session);
  }
}
