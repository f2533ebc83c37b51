/** The SDK session's inbound side: the live stream set and the two queues every call feeds. */
module SessionInbox {
  import opened Wrappers
  import opened Bytes
  import opened Frames

  const MAX_STREAMS := 128
  const MAX_PENDING_CONTROLS := 128
  const MAX_PENDING_FRAMES := 128

  datatype Capability = Sam | I2cp | ControlScoped | LocalService

  /** Host messages; `Notice` stands for those no call interprets. */
  datatype Message =
    | Reply(id: nat, succeeded: bool)
    | Capabilities(granted: set<Capability>)
    | StreamClosed(stream: u32)
    | StreamReset(stream: u32)
    | LocalServiceIncoming(service: u32, stream: u32)
    | LocalServicePublished(id: nat, service: u32, port: u16)
    | LocalServiceUnpublished(id: nat, service: u32)
    | Notice(tag: nat)

  /** One frame as the reader delivers it: data, a decoded control message, or an undecodable one. */
  datatype Inbound = DataFrame(frame: Frame) | ControlFrame(message: Message) | BadControl

  datatype SdkError = Io | Protocol | StreamLimit | Closed | Refused | CapabilityDenied

  /** Frames still to arrive, live streams, queued controls and queued data. */
  datatype Inbox = Inbox(input: seq<Inbound>, streams: set<u32>, controls: seq<Message>, data: seq<Frame>)

  // ----- stream events -----

  function ApplyEvent(streams: set<u32>, m: Message): Result<set<u32>, SdkError> {
    match m
    case LocalServiceIncoming(_, stream) =>
      if stream !in streams && |streams| >= MAX_STREAMS then Err(StreamLimit) else Ok(streams + {stream})
    case StreamClosed(stream) => Ok(streams - {stream})
    case StreamReset(stream) => Ok(streams - {stream})
    case _ => Ok(streams)
  }

  /** Applying an event twice, as reading then queueing a message does, equals applying it once. */
  lemma EventTwice(streams: set<u32>, m: Message)
    requires ApplyEvent(streams, m).Ok?
    ensures ApplyEvent(ApplyEvent(streams, m).value, m) == ApplyEvent(streams, m)
  {
    var once := ApplyEvent(streams, m).value;
    match m
    case LocalServiceIncoming(_, stream) => assert once + {stream} == once;
    case StreamClosed(stream) => assert once - {stream} == once;
    case StreamReset(stream) => assert once - {stream} == once;
    case _ =>
  }

  lemma EventError(streams: set<u32>, m: Message)
    ensures ApplyEvent(streams, m).Err? ==> ApplyEvent(streams, m) == Err(StreamLimit)
  {
  }

  // ----- the calls -----

  function QueueControl(s: Inbox, m: Message): (Inbox, Result<(), SdkError>) {
    if |s.controls| >= MAX_PENDING_CONTROLS then (s, Err(StreamLimit))
    else
      var streams := ApplyEvent(s.streams, m);
      if streams.Err? then (s, Err(streams.error))
      else (s.(streams := streams.value, controls := s.controls + [m]), Ok(()))
  }

  function NextControl(s: Inbox): (Inbox, Result<Message, SdkError>)
    decreases |s.input|
  {
    if s.input == [] then (s, Err(Io))
    else
      var rest := s.(input := s.input[1..]);
      match s.input[0]
      case ControlFrame(m) =>
        var streams := ApplyEvent(s.streams, m);
        if streams.Err? then (rest, Err(streams.error)) else (rest.(streams := streams.value), Ok(m))
      case DataFrame(f) =>
        if f.streamId !in s.streams then (rest, Err(Protocol))
        else if |s.data| >= MAX_PENDING_FRAMES then (rest, Err(StreamLimit))
        else NextControl(rest.(data := s.data + [f]))
      case BadControl => (rest, Err(Protocol))
  }

  /** Reads until a message of interest arrives; every other message is queued in passing. */
  function WaitFor(s: Inbox, wanted: Message -> bool): (Inbox, Result<Message, SdkError>)
    decreases |s.input|
  {
    var (next, read) := NextControl(s);
    NextControlConsumes(s);
    if read.Err? || wanted(read.value) then (next, read)
    else
      var (queued, stored) := QueueControl(next, read.value);
      if stored.Err? then (queued, Err(stored.error)) else WaitFor(queued, wanted)
  }

  function RecvControl(s: Inbox): (Inbox, Result<Message, SdkError>) {
    if s.controls != [] then (s.(controls := s.controls[1..]), Ok(s.controls[0])) else NextControl(s)
  }

  /** Queued data first, skipping frames of streams that are no longer live. */
  function Receive(s: Inbox): (Inbox, Result<Frame, SdkError>)
    decreases |s.data|, |s.input|
  {
    if s.data != [] then
      var popped := s.(data := s.data[1..]);
      if s.data[0].streamId in s.streams then (popped, Ok(s.data[0])) else Receive(popped)
    else if s.input == [] then (s, Err(Io))
    else
      var rest := s.(input := s.input[1..]);
      match s.input[0]
      case DataFrame(f) => (rest, if f.streamId in s.streams then Ok(f) else Err(Protocol))
      case ControlFrame(m) =>
        var (queued, stored) := QueueControl(rest, m);
        if stored.Err? then (queued, Err(stored.error)) else Receive(queued)
      case BadControl => (rest, Err(Protocol))
  }

  predicate IsReplyTo(m: Message, id: nat) { m.Reply? && m.id == id }

  /** `open` after its capability check and its request write. */
  function Open(s: Inbox, stream: u32, id: nat): (Inbox, Result<u32, SdkError>) {
    if |s.streams| >= MAX_STREAMS then (s, Err(StreamLimit))
    else
      var (t, reply) := WaitFor(s, m => IsReplyTo(m, id));
      if reply.Err? then (t, Err(reply.error))
      else if reply.value.Reply? && reply.value.succeeded then (t.(streams := t.streams + {stream}), Ok(stream))
      else (t, Err(Refused))
  }

  function CloseStream(s: Inbox, stream: u32): (Inbox, Result<(), SdkError>) {
    if stream !in s.streams then (s, Err(Closed)) else (s.(streams := s.streams - {stream}), Ok(()))
  }

  // ----- what was read -----

  function Controls(input: seq<Inbound>): seq<Message> {
    if input == [] then []
    else if input[0].ControlFrame? then [input[0].message] + Controls(input[1..])
    else Controls(input[1..])
  }

  function DataFrames(input: seq<Inbound>): seq<Frame> {
    if input == [] then []
    else if input[0].DataFrame? then [input[0].frame] + DataFrames(input[1..])
    else DataFrames(input[1..])
  }

  lemma OneFrame(i: Inbound)
    ensures Controls([i]) == if i.ControlFrame? then [i.message] else []
    ensures DataFrames([i]) == if i.DataFrame? then [i.frame] else []
  {
    assert [i][1..] == [];
    assert Controls([]) == [] && DataFrames([]) == [];
  }

  lemma {:induction false} ReadConcat(a: seq<Inbound>, b: seq<Inbound>)
    ensures Controls(a + b) == Controls(a) + Controls(b)
    ensures DataFrames(a + b) == DataFrames(a) + DataFrames(b)
  {
    if a == [] {
      assert a + b == b;
    } else {
      assert (a + b)[1..] == a[1..] + b;
      ReadConcat(a[1..], b);
    }
  }

  /** The frames a call read, given the inputs before and after it. */
  function Consumed(s: Inbox, t: Inbox): seq<Inbound> {
    if |t.input| <= |s.input| then s.input[..|s.input| - |t.input|] else []
  }

  lemma {:induction false} NextControlConsumes(s: Inbox)
    ensures |NextControl(s).0.input| <= |s.input|
    ensures NextControl(s).1.Ok? ==> |NextControl(s).0.input| < |s.input|
    ensures NextControl(s).0.controls == s.controls
    decreases |s.input|
  {
    if s.input != [] && s.input[0].DataFrame? && s.input[0].frame.streamId in s.streams && |s.data| < MAX_PENDING_FRAMES {
      NextControlConsumes(s.(input := s.input[1..], data := s.data + [s.input[0].frame]));
    }
  }

  // ----- what each successful call does with what it read -----

  /** The call read exactly `Consumed(s, t)` off the front of the input. */
  ghost predicate ReadPrefix(s: Inbox, t: Inbox) {
    |t.input| <= |s.input| && s.input == Consumed(s, t) + t.input
  }

  lemma ConsumedOne(s: Inbox, mid: Inbox, t: Inbox)
    requires s.input != [] && mid.input == s.input[1..] && ReadPrefix(mid, t)
    ensures ReadPrefix(s, t) && Consumed(s, t) == [s.input[0]] + Consumed(mid, t)
  {
    assert s.input == [s.input[0]] + mid.input;
  }

  lemma ConsumedTwice(s: Inbox, mid: Inbox, t: Inbox)
    requires ReadPrefix(s, mid) && ReadPrefix(mid, t)
    ensures ReadPrefix(s, t) && Consumed(s, t) == Consumed(s, mid) + Consumed(mid, t)
  {
    assert s.input == (Consumed(s, mid) + Consumed(mid, t)) + t.input;
  }

  lemma {:induction false} NextControlReads(s: Inbox)
    requires NextControl(s).1.Ok?
    ensures var (t, m) := NextControl(s);
      && ReadPrefix(s, t)
      && Controls(Consumed(s, t)) == [m.value]
      && Consumed(s, t) != [] && Last(Consumed(s, t)) == ControlFrame(m.value)
      && t.controls == s.controls
      && t.data == s.data + DataFrames(Consumed(s, t))
      && ApplyEvent(s.streams, m.value) == Ok(t.streams)
    decreases |s.input|
  {
    hide ApplyEvent;
    var t := NextControl(s).0;
    var rest := s.(input := s.input[1..]);
    if s.input[0].ControlFrame? {
      assert Consumed(s, t) == [s.input[0]];
      assert [s.input[0]][1..] == [];
    } else {
      var f := s.input[0].frame;
      var mid := rest.(data := s.data + [f]);
      NextControlReads(mid);
      ConsumedOne(s, mid, t);
      assert ([s.input[0]] + Consumed(mid, t))[1..] == Consumed(mid, t);
      assert s.data + [f] + DataFrames(Consumed(mid, t)) == s.data + ([f] + DataFrames(Consumed(mid, t)));
    }
  }

  /** Waiting took `m`, the first wanted message, and queued in order everything read before it. */
  ghost predicate WaitEffect(s: Inbox, wanted: Message -> bool, t: Inbox, m: Message, passed: seq<Message>) {
    && ReadPrefix(s, t)
    && wanted(m)
    && (forall i :: 0 <= i < |passed| ==> !wanted(passed[i]))
    && Controls(Consumed(s, t)) == passed + [m]
    && t.controls == s.controls + passed
    && t.data == s.data + DataFrames(Consumed(s, t))
  }

  lemma WaitExtends(s: Inbox, wanted: Message -> bool, next: Inbox, x: Message, queued: Inbox, t: Inbox, m: Message, passed: seq<Message>)
    requires ReadPrefix(s, next) && Controls(Consumed(s, next)) == [x] && next.controls == s.controls
    requires next.data == s.data + DataFrames(Consumed(s, next))
    requires queued.input == next.input && queued.data == next.data && queued.controls == next.controls + [x]
    requires !wanted(x) && WaitEffect(queued, wanted, t, m, passed)
    ensures WaitEffect(s, wanted, t, m, [x] + passed)
  {
    hide Controls, DataFrames, Consumed, ReadPrefix;
    SameInput(next, queued, t);
    ConsumedTwice(s, next, t);
    ReadConcat(Consumed(s, next), Consumed(next, t));
    assert [x] + (passed + [m]) == [x] + passed + [m];
    assert s.controls + [x] + passed == s.controls + ([x] + passed);
    assert s.data + DataFrames(Consumed(s, next)) + DataFrames(Consumed(next, t))
        == s.data + (DataFrames(Consumed(s, next)) + DataFrames(Consumed(next, t)));
  }

  lemma {:induction false} WaitForReads(s: Inbox, wanted: Message -> bool) returns (passed: seq<Message>)
    requires WaitFor(s, wanted).1.Ok?
    ensures WaitEffect(s, wanted, WaitFor(s, wanted).0, WaitFor(s, wanted).1.value, passed)
    decreases |s.input|
  {
    hide ApplyEvent, Controls, DataFrames, NextControl, Consumed, ReadPrefix;
    var (next, read) := NextControl(s);
    NextControlReads(s);
    NextControlConsumes(s);
    var (t, m) := WaitFor(s, wanted);
    if wanted(read.value) {
      passed := [];
      assert [] + [read.value] == [read.value];
    } else {
      var queued := QueueControl(next, read.value).0;
      assert WaitFor(s, wanted) == WaitFor(queued, wanted);
      passed := WaitForReads(queued, wanted);
      WaitExtends(s, wanted, next, read.value, queued, t, m.value, passed);
      passed := [read.value] + passed;
    }
  }

  lemma SameInput(a: Inbox, b: Inbox, t: Inbox)
    requires a.input == b.input
    ensures Consumed(a, t) == Consumed(b, t) && ReadPrefix(a, t) == ReadPrefix(b, t)
  {
  }

  lemma RecvControlReads(s: Inbox)
    requires RecvControl(s).1.Ok?
    ensures var (t, m) := RecvControl(s);
      && ReadPrefix(s, t)
      && [m.value] + t.controls == s.controls + Controls(Consumed(s, t))
      && t.data == s.data + DataFrames(Consumed(s, t))
  {
    hide NextControl;
    var t := RecvControl(s).0;
    if s.controls != [] {
      assert Consumed(s, t) == [];
    } else {
      NextControlReads(s);
    }
  }

  /** The queued data frames at the front whose stream is no longer live. */
  function DeadPrefix(data: seq<Frame>, streams: set<u32>): seq<Frame> {
    if data == [] || data[0].streamId in streams then [] else [data[0]] + DeadPrefix(data[1..], streams)
  }

  /** Receiving handed out `f`, the next data frame in arrival order once dead queued frames are skipped. */
  ghost predicate ReceiveEffect(s: Inbox, t: Inbox, f: Frame) {
    && ReadPrefix(s, t)
    && t.controls == s.controls + Controls(Consumed(s, t))
    && f.streamId in t.streams
    && s.data + DataFrames(Consumed(s, t)) == DeadPrefix(s.data, s.streams) + [f] + t.data
  }

  lemma SkipExtends(s: Inbox, popped: Inbox, t: Inbox, f: Frame)
    requires s.data != [] && popped == s.(data := s.data[1..]) && s.data[0].streamId !in s.streams
    requires ReceiveEffect(popped, t, f)
    ensures ReceiveEffect(s, t, f)
  {
    hide Controls, DataFrames, Consumed, ReadPrefix;
    SameInput(s, popped, t);
    var d, skipped := s.data[0], DeadPrefix(popped.data, s.streams);
    assert s.data == [d] + popped.data;
    assert s.data + DataFrames(Consumed(s, t)) == [d] + (popped.data + DataFrames(Consumed(popped, t)));
    assert [d] + skipped + [f] + t.data == [d] + (skipped + [f] + t.data);
  }

  lemma ControlExtends(s: Inbox, m: Message, queued: Inbox, t: Inbox, f: Frame)
    requires s.input != [] && s.input[0] == ControlFrame(m) && s.data == []
    requires queued.input == s.input[1..] && queued.data == [] && queued.controls == s.controls + [m]
    requires ReceiveEffect(queued, t, f)
    ensures ReceiveEffect(s, t, f)
  {
    hide Consumed, ReadPrefix;
    ConsumedOne(s, queued, t);
    var read := Consumed(queued, t);
    assert ([s.input[0]] + read)[1..] == read;
    assert s.controls + [m] + Controls(read) == s.controls + ([m] + Controls(read));
  }

  lemma {:induction false} ReceiveReads(s: Inbox)
    requires Receive(s).1.Ok?
    ensures ReceiveEffect(s, Receive(s).0, Receive(s).1.value)
    decreases |s.data|, |s.input|
  {
    hide ApplyEvent;
    var (t, f) := Receive(s);
    if s.data != [] {
      if s.data[0].streamId in s.streams {
        assert Consumed(s, t) == [];
        assert s.data + [] == [] + [f.value] + t.data;
      } else {
        var popped := s.(data := s.data[1..]);
        ReceiveReads(popped);
        SkipExtends(s, popped, t, f.value);
      }
    } else if s.input[0].DataFrame? {
      assert Consumed(s, t) == [s.input[0]];
      assert [s.input[0]][1..] == [];
      assert s.input == [s.input[0]] + t.input;
      OneFrame(s.input[0]);
      assert s.data + [f.value] == [] + [f.value] + s.data;
    } else {
      var queued := QueueControl(s.(input := s.input[1..]), s.input[0].message).0;
      ReceiveReads(queued);
      ControlExtends(s, s.input[0].message, queued, t, f.value);
    }
  }

  // ----- what a failing call does with what it read -----

  function Last<T>(s: seq<T>): T
    requires s != []
  {
    s[|s| - 1]
  }

  function ErrorOf<T>(r: Result<T, SdkError>): Option<SdkError> { if r.Ok? then None else Some(r.error) }

  function Out<T>(r: Result<T, SdkError>): seq<T> { if r.Ok? then [r.value] else [] }

  /**
   What survives of the frames a call read: all of them, unless it failed on a frame, which is
   then the last one read. A channel that ends or a dropped call stops between frames.
   */
  function Kept(read: seq<Inbound>, e: Option<SdkError>): seq<Inbound> {
    if e.None? || e.value == Io || read == [] then read else read[..|read| - 1]
  }

  lemma KeptAfter(a: seq<Inbound>, b: seq<Inbound>, e: Option<SdkError>)
    requires e.Some? && e.value != Io ==> b != []
    ensures Kept(a + b, e) == a + Kept(b, e)
  {
    if b != [] { assert (a + b)[..|a + b| - 1] == a + b[..|b| - 1]; }
  }

  lemma KeptLast(read: seq<Inbound>, m: Message)
    requires read != [] && Last(read) == ControlFrame(m)
    ensures var front := read[..|read| - 1];
      Controls(read) == Controls(front) + [m] && DataFrames(read) == DataFrames(front)
  {
    var front := read[..|read| - 1];
    assert read == front + [ControlFrame(m)];
    ReadConcat(front, [ControlFrame(m)]);
    OneFrame(ControlFrame(m));
  }

  /** Every frame that survives is queued, in order. */
  ghost predicate Queued(s: Inbox, t: Inbox, e: Option<SdkError>) {
    var kept := Kept(Consumed(s, t), e);
    && ReadPrefix(s, t)
    && (e.Some? && e.value != Io ==> Consumed(s, t) != [])
    && t.controls == s.controls + Controls(kept)
    && t.data == s.data + DataFrames(kept)
  }

  lemma {:induction false} NextControlFails(s: Inbox)
    requires NextControl(s).1.Err?
    ensures Queued(s, NextControl(s).0, ErrorOf(NextControl(s).1))
    decreases |s.input|
  {
    hide ApplyEvent;
    var (t, m) := NextControl(s);
    if s.input == [] {
      assert Consumed(s, t) == [];
    } else if s.input[0].DataFrame? && s.input[0].frame.streamId in s.streams && |s.data| < MAX_PENDING_FRAMES {
      var mid := s.(input := s.input[1..], data := s.data + [s.input[0].frame]);
      NextControlFails(mid);
      ConsumedOne(s, mid, t);
      QueuedOne(s, mid, t, ErrorOf(m));
    } else {
      if s.input[0].ControlFrame? { EventError(s.streams, s.input[0].message); }
      assert Consumed(s, t) == [s.input[0]];
      assert [s.input[0]][..0] == [];
    }
  }

  /** A frame queued in passing, then the rest. */
  lemma QueuedOne(s: Inbox, mid: Inbox, t: Inbox, e: Option<SdkError>)
    requires s.input != [] && mid.input == s.input[1..] && Queued(mid, t, e)
    requires mid.controls == s.controls + Controls([s.input[0]]) && mid.data == s.data + DataFrames([s.input[0]])
    ensures Queued(s, t, e)
  {
    hide Consumed, ReadPrefix, Kept, Controls, DataFrames;
    var first, rest := [s.input[0]], Consumed(mid, t);
    ConsumedOne(s, mid, t);
    KeptAfter(first, rest, e);
    ReadConcat(first, Kept(rest, e));
    var kept := Kept(rest, e);
    assert s.controls + Controls(first) + Controls(kept) == s.controls + (Controls(first) + Controls(kept));
    assert s.data + DataFrames(first) + DataFrames(kept) == s.data + (DataFrames(first) + DataFrames(kept));
  }

  lemma QueuedAfter(s: Inbox, mid: Inbox, t: Inbox, e: Option<SdkError>)
    requires Queued(s, mid, None) && Queued(mid, t, e)
    ensures Queued(s, t, e)
  {
    hide Consumed, ReadPrefix, Controls, DataFrames;
    ConsumedTwice(s, mid, t);
    var first, rest := Consumed(s, mid), Consumed(mid, t);
    KeptAfter(first, rest, e);
    var kept := Kept(rest, e);
    ReadConcat(first, kept);
    assert s.controls + Controls(first) + Controls(kept) == s.controls + (Controls(first) + Controls(kept));
    assert s.data + DataFrames(first) + DataFrames(kept) == s.data + (DataFrames(first) + DataFrames(kept));
  }

  /** A failing wait queues everything it read but the frame it failed on. */
  lemma {:induction false} WaitForFails(s: Inbox, wanted: Message -> bool)
    requires WaitFor(s, wanted).1.Err?
    ensures Queued(s, WaitFor(s, wanted).0, ErrorOf(WaitFor(s, wanted).1))
    decreases |s.input|
  {
    hide ApplyEvent, Controls, DataFrames, NextControl, Consumed, ReadPrefix, Kept, Queued;
    var (next, read) := NextControl(s);
    NextControlConsumes(s);
    if read.Err? {
      NextControlFails(s);
    } else {
      NextControlReads(s);
      var (queued, stored) := QueueControl(next, read.value);
      if stored.Err? {
        assert stored.error == StreamLimit by { QueueControlError(next, read.value); }
        ReadThenLost(s, next, read.value, StreamLimit);
      } else {
        ReadThenQueued(s, next, read.value, queued);
        WaitForFails(queued, wanted);
        QueuedAfter(s, queued, WaitFor(queued, wanted).0, ErrorOf(WaitFor(queued, wanted).1));
      }
    }
  }

  lemma QueueControlError(s: Inbox, m: Message)
    requires QueueControl(s, m).1.Err?
    ensures QueueControl(s, m) == (s, Err(StreamLimit))
  {
  }

  lemma ReadThenLost(s: Inbox, t: Inbox, m: Message, e: SdkError)
    requires ReadPrefix(s, t) && Consumed(s, t) != [] && Last(Consumed(s, t)) == ControlFrame(m)
    requires Controls(Consumed(s, t)) == [m] && t.controls == s.controls
    requires t.data == s.data + DataFrames(Consumed(s, t)) && e != Io
    ensures Queued(s, t, Some(e))
  {
    hide Controls, DataFrames, Consumed, ReadPrefix;
    KeptLast(Consumed(s, t), m);
    var front := Consumed(s, t)[..|Consumed(s, t)| - 1];
    assert |Controls(front)| == 0 && s.controls + Controls(front) == s.controls;
  }

  lemma ReadThenQueued(s: Inbox, next: Inbox, m: Message, queued: Inbox)
    requires ReadPrefix(s, next) && Controls(Consumed(s, next)) == [m] && next.controls == s.controls
    requires next.data == s.data + DataFrames(Consumed(s, next))
    requires queued.input == next.input && queued.data == next.data && queued.controls == next.controls + [m]
    ensures Queued(s, queued, None)
  {
    hide Controls, DataFrames;
    assert Consumed(s, queued) == Consumed(s, next);
  }

  /** Taking a control, whatever the outcome: what is handed out and what is queued are the old queue and what survived. */
  lemma RecvControlAccounts(s: Inbox)
    ensures var (t, m) := RecvControl(s);
      var kept := Kept(Consumed(s, t), ErrorOf(m));
      && ReadPrefix(s, t)
      && Out(m) + t.controls == s.controls + Controls(kept)
      && t.data == s.data + DataFrames(kept)
  {
    hide NextControl, Consumed, ReadPrefix, Controls, DataFrames;
    var (t, m) := RecvControl(s);
    if m.Ok? {
      RecvControlReads(s);
    } else {
      NextControlFails(s);
      assert [] + t.controls == t.controls;
    }
  }

  /** Receiving data, whatever the outcome: skipped, handed out and queued frames are the old queue and what survived. */
  lemma {:induction false} ReceiveAccounts(s: Inbox)
    ensures var (t, f) := Receive(s);
      var kept := Kept(Consumed(s, t), ErrorOf(f));
      && ReadPrefix(s, t)
      && t.controls == s.controls + Controls(kept)
      && s.data + DataFrames(kept) == DeadPrefix(s.data, s.streams) + Out(f) + t.data
  {
    hide Receive, Consumed, ReadPrefix, Controls, DataFrames, Kept, DeadPrefix;
    var (t, f) := Receive(s);
    if f.Ok? {
      ReceiveReads(s);
      assert Kept(Consumed(s, t), None) == Consumed(s, t) by { KeptNothingLost(Consumed(s, t)); }
    } else {
      ReceiveFails(s);
      var kept := Kept(Consumed(s, t), ErrorOf(f));
      assert s.data + [] == s.data + [] + [];
    }
  }

  lemma KeptNothingLost(read: seq<Inbound>)
    ensures Kept(read, None) == read
  {
  }

  lemma {:induction false} ReceiveFails(s: Inbox)
    requires Receive(s).1.Err?
    ensures var (t, f) := Receive(s);
      var kept := Kept(Consumed(s, t), ErrorOf(f));
      && ReadPrefix(s, t) && (f.error != Io ==> Consumed(s, t) != [])
      && t.controls == s.controls + Controls(kept) && DataFrames(kept) == []
      && t.data == [] && DeadPrefix(s.data, s.streams) == s.data
    decreases |s.data|, |s.input|
  {
    hide ApplyEvent;
    var (t, f) := Receive(s);
    if s.data != [] {
      ReceiveFails(s.(data := s.data[1..]));
    } else if s.input == [] {
      assert Consumed(s, t) == [];
    } else {
      var rest := s.(input := s.input[1..]);
      if s.input[0].ControlFrame? && QueueControl(rest, s.input[0].message).1.Ok? {
        var queued := QueueControl(rest, s.input[0].message).0;
        ReceiveFails(queued);
        ConsumedOne(s, queued, t);
        ControlKept(s.input[0].message, Consumed(queued, t), ErrorOf(f), s.controls);
      } else {
        if s.input[0].ControlFrame? { EventError(s.streams, s.input[0].message); }
        assert Consumed(s, t) == [s.input[0]];
        assert [s.input[0]][..0] == [];
      }
    }
  }

  lemma ControlKept(m: Message, read: seq<Inbound>, e: Option<SdkError>, controls: seq<Message>)
    requires e.Some? && e.value != Io ==> read != []
    ensures var kept := Kept([ControlFrame(m)] + read, e);
      && Controls(kept) == [m] + Controls(Kept(read, e)) && DataFrames(kept) == DataFrames(Kept(read, e))
      && controls + [m] + Controls(Kept(read, e)) == controls + Controls(kept)
  {
    hide Kept, Controls, DataFrames;
    KeptAfter([ControlFrame(m)], read, e);
    ReadConcat([ControlFrame(m)], Kept(read, e));
    OneFrame(ControlFrame(m));
  }

  // ----- the live stream set -----

  /** A read admits a new stream only below the limit, so a set within a bound of at least 128 stays within it. */
  lemma EventBound(streams: set<u32>, m: Message, bound: nat)
    requires |streams| <= bound && MAX_STREAMS <= bound && ApplyEvent(streams, m).Ok?
    ensures |ApplyEvent(streams, m).value| <= bound
    ensures !m.LocalServiceIncoming? ==> ApplyEvent(streams, m).value <= streams
  {
    match m
    case LocalServiceIncoming(_, stream) =>
      if stream in streams { assert streams + {stream} == streams; }
    case StreamClosed(stream) => SubsetSmaller(streams - {stream}, streams);
    case StreamReset(stream) => SubsetSmaller(streams - {stream}, streams);
    case _ =>
  }

  lemma SubsetSmaller(a: set<u32>, b: set<u32>)
    requires a <= b
    ensures |a| <= |b|
  {
    assert b == a + (b - a);
    assert |b| == |a| + |b - a|;
  }

  ghost predicate NoIncoming(messages: seq<Message>) {
    forall i :: 0 <= i < |messages| ==> !messages[i].LocalServiceIncoming?
  }

  lemma {:induction false} NextControlBound(s: Inbox, bound: nat)
    requires |s.streams| <= bound && MAX_STREAMS <= bound
    ensures |NextControl(s).0.streams| <= bound
    decreases |s.input|
  {
    if s.input != [] {
      match s.input[0]
      case ControlFrame(m) => if ApplyEvent(s.streams, m).Ok? { EventBound(s.streams, m, bound); }
      case DataFrame(f) =>
        if f.streamId in s.streams && |s.data| < MAX_PENDING_FRAMES {
          NextControlBound(s.(input := s.input[1..], data := s.data + [f]), bound);
        }
      case BadControl =>
    }
  }

  lemma QueueControlBound(s: Inbox, m: Message, bound: nat)
    requires |s.streams| <= bound && MAX_STREAMS <= bound
    ensures |QueueControl(s, m).0.streams| <= bound
  {
    if ApplyEvent(s.streams, m).Ok? { EventBound(s.streams, m, bound); }
  }

  lemma {:induction false} WaitForBound(s: Inbox, wanted: Message -> bool, bound: nat)
    requires |s.streams| <= bound && MAX_STREAMS <= bound
    ensures |WaitFor(s, wanted).0.streams| <= bound
    decreases |s.input|
  {
    hide NextControl, QueueControl;
    var (next, read) := NextControl(s);
    NextControlConsumes(s);
    NextControlBound(s, bound);
    if read.Ok? && !wanted(read.value) {
      var (queued, stored) := QueueControl(next, read.value);
      QueueControlBound(next, read.value, bound);
      QueueControlKeepsInput(next, read.value);
      if stored.Ok? { WaitForBound(queued, wanted, bound); }
    }
  }

  lemma QueueControlKeepsInput(s: Inbox, m: Message)
    ensures QueueControl(s, m).0.input == s.input
  {
  }

  lemma {:induction false} ReceiveBound(s: Inbox, bound: nat)
    requires |s.streams| <= bound && MAX_STREAMS <= bound
    ensures |Receive(s).0.streams| <= bound
    decreases |s.data|, |s.input|
  {
    hide ApplyEvent;
    if s.data != [] {
      ReceiveBound(s.(data := s.data[1..]), bound);
    } else if s.input != [] && s.input[0].ControlFrame? {
      var rest := s.(input := s.input[1..]);
      QueueControlBound(rest, s.input[0].message, bound);
      if QueueControl(rest, s.input[0].message).1.Ok? {
        ReceiveBound(QueueControl(rest, s.input[0].message).0, bound);
      }
    }
  }

  /** While no incoming stream is announced, waiting only removes streams. */
  lemma {:induction false} WaitForShrinks(s: Inbox, wanted: Message -> bool)
    requires WaitFor(s, wanted).1.Ok? && NoIncoming(Controls(Consumed(s, WaitFor(s, wanted).0)))
    ensures WaitFor(s, wanted).0.streams <= s.streams
    decreases |s.input|
  {
    hide NextControl, Consumed, ReadPrefix, Controls, DataFrames;
    var (next, read) := NextControl(s);
    NextControlConsumes(s);
    NextControlReads(s);
    var t := WaitFor(s, wanted).0;
    var x := read.value;
    if wanted(x) {
      assert [x][0] == x;
      EventBound(s.streams, x, |s.streams| + MAX_STREAMS);
    } else {
      var queued := QueueControl(next, x).0;
      EventTwice(s.streams, x);
      var passed := WaitForReads(queued, wanted);
      SameInput(next, queued, t);
      ConsumedTwice(s, next, t);
      ReadConcat(Consumed(s, next), Consumed(next, t));
      var later := Controls(Consumed(next, t));
      assert ([x] + later)[0] == x && forall i :: 0 <= i < |later| ==> ([x] + later)[i + 1] == later[i];
      assert NoIncoming(later);
      EventBound(s.streams, x, |s.streams| + MAX_STREAMS);
      WaitForShrinks(queued, wanted);
    }
  }

  /**
   The real stream bound: `open` can leave one stream more than the limit, and does so
   only when an incoming stream was admitted between its check and its insert.
   */
  lemma OpenBound(s: Inbox, stream: u32, id: nat)
    requires |s.streams| <= MAX_STREAMS + 1
    ensures |Open(s, stream, id).0.streams| <= MAX_STREAMS + 1
    ensures |s.streams| <= MAX_STREAMS < |Open(s, stream, id).0.streams| ==>
              !NoIncoming(Controls(Consumed(s, Open(s, stream, id).0)))
  {
    hide WaitFor, Controls;
    if |s.streams| < MAX_STREAMS {
      var wanted := m => IsReplyTo(m, id);
      var (t, reply) := WaitFor(s, wanted);
      WaitForBound(s, wanted, MAX_STREAMS);
      var after := Open(s, stream, id).0;
      assert |t.streams + {stream}| <= |t.streams| + 1;
      if reply.Ok? {
        assert Consumed(s, after) == Consumed(s, t);
        if NoIncoming(Controls(Consumed(s, t))) {
          WaitForShrinks(s, wanted);
          SubsetSmaller(t.streams, s.streams);
        }
      }
    }
  }

  /** The excess is real: with 127 live streams, an incoming stream during `open` makes 129. */
  lemma OpenExceedsLimit(s: Inbox, service: u32, incoming: u32, stream: u32, id: nat)
    requires |s.streams| == MAX_STREAMS - 1 && |s.controls| < MAX_PENDING_CONTROLS
    requires incoming !in s.streams && stream !in s.streams && incoming != stream
    requires s.input == [ControlFrame(LocalServiceIncoming(service, incoming)), ControlFrame(Reply(id, true))]
    ensures Open(s, stream, id).1 == Ok(stream)
    ensures |Open(s, stream, id).0.streams| == MAX_STREAMS + 1
  {
    var wanted := m => IsReplyTo(m, id);
    var m := LocalServiceIncoming(service, incoming);
    var streams := s.streams + {incoming};
    assert s.input[1..] == [ControlFrame(Reply(id, true))] && s.input[1..][1..] == [];
    var next := s.(input := s.input[1..], streams := streams);
    assert NextControl(s) == (next, Ok(m));
    assert streams + {incoming} == streams;
    var queued := next.(controls := s.controls + [m]);
    assert QueueControl(next, m) == (queued, Ok(()));
    assert NextControl(queued) == (queued.(input := []), Ok(Reply(id, true)));
    assert WaitFor(queued, wanted) == (queued.(input := []), Ok(Reply(id, true)));
    assert WaitFor(s, wanted) == WaitFor(queued, wanted);
  }
}
