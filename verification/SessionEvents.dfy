/** The live stream set by what was said about each stream, and what every read answers, frame by frame. */
module SessionEvents {
  import opened Wrappers
  import opened Bytes
  import opened Frames
  import opened SessionInbox
  import opened SessionHistory
  import opened StreamLimit

  // ----- one event -----

  /** The message says that stream `x` comes, closes or resets. */
  predicate Names(m: Message, x: u32) {
    m == StreamClosed(x) || m == StreamReset(x) || (m.LocalServiceIncoming? && m.stream == x)
  }

  /** Only a new incoming stream is ever refused, at 128 live ones; an event settles its own stream and no other. */
  lemma EventMeaning(streams: set<u32>, m: Message, x: u32)
    ensures ApplyEvent(streams, m).Err? <==> m.LocalServiceIncoming? && m.stream !in streams && |streams| >= 128
    ensures ApplyEvent(streams, m).Err? ==> ApplyEvent(streams, m) == Err(StreamLimit)
    ensures ApplyEvent(streams, m).Ok? ==>
      (x in ApplyEvent(streams, m).value <==> if Names(m, x) then m.LocalServiceIncoming? else x in streams)
  {
  }

  // ----- a sequence of messages -----

  ghost predicate LastNaming(messages: seq<Message>, i: nat, x: u32) {
    i < |messages| && Names(messages[i], x) && forall j :: i < j < |messages| ==> !Names(messages[j], x)
  }

  /** `x` is live after `messages`: the last one that names it announces it, or none names it and it was live before. */
  ghost predicate Live(streams: set<u32>, messages: seq<Message>, x: u32) {
    if forall i :: 0 <= i < |messages| ==> !Names(messages[i], x) then x in streams
    else exists i: nat :: LastNaming(messages, i, x) && messages[i].LocalServiceIncoming?
  }

  /** No incoming stream is refused: each is live already or finds fewer than 128 live. */
  ghost predicate Admitted(streams: set<u32>, messages: seq<Message>) {
    forall k :: 0 <= k < |messages| && messages[k].LocalServiceIncoming? ==>
      var live := LiveAfter(streams, messages[..k]); messages[k].stream in live || |live| < 128
  }

  lemma AdmittedFront(streams: set<u32>, messages: seq<Message>)
    requires messages != [] && Admitted(streams, messages)
    ensures Admitted(streams, messages[..|messages| - 1])
    ensures ApplyEvent(LiveAfter(streams, messages[..|messages| - 1]), Last(messages)).Ok?
  {
    hide LiveAfter;
    var n := |messages| - 1;
    var front := messages[..n];
    forall k | 0 <= k < |front| && front[k].LocalServiceIncoming?
      ensures var live := LiveAfter(streams, front[..k]); front[k].stream in live || |live| < 128
    {
      assert front[k] == messages[k] && front[..k] == messages[..k];
    }
    assert Last(messages) == messages[n];
  }

  /** The live set after any admitted messages, stream by stream. */
  lemma {:induction false} LiveMeaning(streams: set<u32>, messages: seq<Message>, x: u32)
    requires Admitted(streams, messages)
    ensures x in LiveAfter(streams, messages) <==> Live(streams, messages, x)
  {
    hide ApplyEvent, Admitted;
    if messages != [] {
      var n := |messages| - 1;
      var front := messages[..n];
      AdmittedFront(streams, messages);
      LiveMeaning(streams, front, x);
      EventMeaning(LiveAfter(streams, front), messages[n], x);
      LiveSnoc(streams, messages, x);
    }
  }

  lemma LiveSnoc(streams: set<u32>, messages: seq<Message>, x: u32)
    requires messages != []
    ensures Live(streams, messages, x) <==>
      var last := Last(messages);
      if Names(last, x) then last.LocalServiceIncoming? else Live(streams, messages[..|messages| - 1], x)
  {
    hide Names;
    var n := |messages| - 1;
    var front := messages[..n];
    assert forall i :: 0 <= i < n ==> front[i] == messages[i];
    if Names(messages[n], x) {
      assert LastNaming(messages, n, x);
    } else {
      forall i: nat ensures LastNaming(messages, i, x) <==> LastNaming(front, i, x) { }
    }
  }

  /** A stream that the host closed or reset, and did not announce again, is not live, whatever else was refused. */
  lemma {:induction false} ClosedNotLive(streams: set<u32>, messages: seq<Message>, i: nat, x: u32)
    requires i < |messages| && messages[i] in {StreamClosed(x), StreamReset(x)}
    requires forall j :: i < j < |messages| ==> !Names(messages[j], x)
    ensures x !in LiveAfter(streams, messages)
  {
    hide ApplyEvent;
    var n := |messages| - 1;
    EventMeaning(LiveAfter(streams, messages[..n]), messages[n], x);
    if i < n {
      ClosedNotLive(streams, messages[..n], i, x);
    }
  }

  // ----- the live set after each call -----

  lemma {:induction false} LiveConcat(streams: set<u32>, a: seq<Message>, b: seq<Message>)
    ensures LiveAfter(streams, a + b) == LiveAfter(LiveAfter(streams, a), b)
  {
    hide ApplyEvent;
    if b == [] {
      assert a + b == a;
    } else {
      assert (a + b)[..|a + b| - 1] == a + b[..|b| - 1] && Last(a + b) == Last(b);
      LiveConcat(streams, a, b[..|b| - 1]);
    }
  }

  lemma LiveOne(streams: set<u32>, m: Message)
    ensures LiveAfter(streams, [m]) == if ApplyEvent(streams, m).Ok? then ApplyEvent(streams, m).value else streams
  {
    hide ApplyEvent;
    assert [m][..0] == [] && Last([m]) == m;
  }

  /** What a call read, and the live set it left. */
  ghost predicate Heard(s: Inbox, t: Inbox) {
    ReadPrefix(s, t) && t.streams == LiveAfter(s.streams, Controls(Consumed(s, t)))
  }

  lemma HeardNothing(s: Inbox, t: Inbox)
    requires t.input == s.input && t.streams == s.streams
    ensures Heard(s, t)
  {
    assert Consumed(s, t) == [];
  }

  lemma HeardOne(s: Inbox, t: Inbox)
    requires s.input != [] && t.input == s.input[1..]
    requires t.streams == match s.input[0]
                          case ControlFrame(m) => if ApplyEvent(s.streams, m).Ok? then ApplyEvent(s.streams, m).value else s.streams
                          case _ => s.streams
    ensures Heard(s, t)
  {
    hide ApplyEvent, LiveAfter, Controls;
    assert Consumed(s, t) == [s.input[0]];
    OneFrame(s.input[0]);
    if s.input[0].ControlFrame? { LiveOne(s.streams, s.input[0].message); } else { LiveNone(s.streams); }
  }

  lemma LiveNone(streams: set<u32>)
    ensures LiveAfter(streams, []) == streams
  {
  }

  lemma HeardTwice(s: Inbox, mid: Inbox, t: Inbox)
    requires Heard(s, mid) && Heard(mid, t)
    ensures Heard(s, t)
  {
    hide LiveAfter, Controls, Consumed, ReadPrefix;
    ConsumedTwice(s, mid, t);
    ReadConcat(Consumed(s, mid), Consumed(mid, t));
    LiveConcat(s.streams, Controls(Consumed(s, mid)), Controls(Consumed(mid, t)));
  }

  /** Reading a control leaves the set that the messages read leave, whatever the outcome. */
  lemma {:induction false} NextControlHears(s: Inbox)
    ensures Heard(s, NextControl(s).0)
    decreases |s.input|
  {
    hide ApplyEvent, Heard;
    var t := NextControl(s).0;
    if s.input == [] {
      HeardNothing(s, t);
    } else if s.input[0].DataFrame? && s.input[0].frame.streamId in s.streams && |s.data| < MAX_PENDING_FRAMES {
      var mid := s.(input := s.input[1..], data := s.data + [s.input[0].frame]);
      HeardOne(s, mid);
      NextControlHears(mid);
      HeardTwice(s, mid, t);
    } else {
      HeardOne(s, t);
    }
  }

  lemma QueueKeepsSet(s: Inbox, m: Message)
    requires exists before :: ApplyEvent(before, m) == Ok(s.streams)
    ensures QueueControl(s, m).0.streams == s.streams
  {
    var before :| ApplyEvent(before, m) == Ok(s.streams);
    EventTwice(before, m);
  }

  /** So does waiting. */
  lemma {:induction false} WaitForHears(s: Inbox, wanted: Message -> bool)
    ensures Heard(s, WaitFor(s, wanted).0)
    decreases |s.input|
  {
    hide ApplyEvent, NextControl, QueueControl, Heard;
    var (next, read) := NextControl(s);
    NextControlConsumes(s);
    NextControlHears(s);
    if read.Ok? && !wanted(read.value) {
      NextControlReads(s);
      QueueKeepsSet(next, read.value);
      QueueControlKeepsInput(next, read.value);
      var (queued, stored) := QueueControl(next, read.value);
      HeardNothing(next, queued);
      HeardTwice(s, next, queued);
      if stored.Ok? {
        WaitForHears(queued, wanted);
        HeardTwice(s, queued, WaitFor(queued, wanted).0);
      }
    }
  }

  /** And taking a control, from the queue or the channel. */
  lemma RecvControlHears(s: Inbox)
    ensures Heard(s, RecvControl(s).0)
  {
    hide NextControl, Heard;
    if s.controls != [] { HeardNothing(s, RecvControl(s).0); } else { NextControlHears(s); }
  }

  /** And receiving data, when it succeeds. */
  lemma {:induction false} ReceiveHears(s: Inbox)
    requires Receive(s).1.Ok?
    ensures Heard(s, Receive(s).0)
    decreases |s.data|, |s.input|
  {
    hide ApplyEvent, Heard;
    var t := Receive(s).0;
    if s.data != [] {
      if s.data[0].streamId in s.streams {
        HeardNothing(s, t);
      } else {
        var popped := s.(data := s.data[1..]);
        HeardNothing(s, popped);
        ReceiveHears(popped);
        HeardTwice(s, popped, t);
      }
    } else if s.input[0].DataFrame? {
      HeardOne(s, t);
    } else {
      var queued := QueueControl(s.(input := s.input[1..]), s.input[0].message).0;
      HeardOne(s, queued);
      ReceiveHears(queued);
      HeardTwice(s, queued, t);
    }
  }

  /**
   After any of these calls a stream that the messages read close or reset, and do not announce
   again, is not live, so sending on it is refused.
   */
  lemma ClosedByHost(s: Inbox, t: Inbox, i: nat, x: u32)
    requires Heard(s, t)
    requires var read := Controls(Consumed(s, t));
      && i < |read| && read[i] in {StreamClosed(x), StreamReset(x)}
      && forall j :: i < j < |read| ==> !Names(read[j], x)
    ensures x !in t.streams
  {
    hide LiveAfter, Controls, Consumed;
    ClosedNotLive(s.streams, Controls(Consumed(s, t)), i, x);
  }

  // ----- what each read answers -----

  /** Frame `k` is data for a live stream, with room in the queue. */
  predicate DataPasses(s: Inbox, k: nat) {
    k < |s.input| && s.input[k].DataFrame? && s.input[k].frame.streamId in s.streams && |s.data| + k < 128
  }

  predicate Refuses(streams: set<u32>, m: Message) {
    m.LocalServiceIncoming? && m.stream !in streams && |streams| >= 128
  }

  /** The first frame that is not queued data decides what reading a control answers. */
  lemma {:induction false} NextControlExact(s: Inbox, n: nat)
    requires n <= |s.input| && (forall k :: 0 <= k < n ==> DataPasses(s, k)) && !DataPasses(s, n)
    ensures NextControl(s).1 ==
      if n == |s.input| then Err(Io)
      else match s.input[n]
           case BadControl => Err(Protocol)
           case DataFrame(f) => Err(if f.streamId in s.streams then StreamLimit else Protocol)
           case ControlFrame(m) => if Refuses(s.streams, m) then Err(StreamLimit) else Ok(m)
    ensures |NextControl(s).0.input| == if n == |s.input| then 0 else |s.input| - n - 1
    decreases n
  {
    hide ApplyEvent;
    if n == 0 {
      if s.input != [] && s.input[0].ControlFrame? { EventMeaning(s.streams, s.input[0].message, 0); }
    } else {
      assert DataPasses(s, 0);
      var mid := s.(input := s.input[1..], data := s.data + [s.input[0].frame]);
      forall k | 0 <= k < n - 1 ensures DataPasses(mid, k) { assert DataPasses(s, k + 1); }
      assert DataPasses(mid, n - 1) == DataPasses(s, n);
      NextControlExact(mid, n - 1);
    }
  }

  /** A queued control is handed out first; otherwise the next one is read. */
  lemma RecvControlExact(s: Inbox)
    ensures s.controls != [] ==> RecvControl(s) == (s.(controls := s.controls[1..]), Ok(s.controls[0]))
    ensures s.controls == [] ==> RecvControl(s) == NextControl(s)
  {
  }

  /** The first frame that a wait can neither take nor queue decides its error. */
  lemma {:induction false} WaitForError(s: Inbox, wanted: Message -> bool, n: nat)
    requires n <= |s.input| && AllPassedOver(s, s.input[..n], wanted)
    requires n < |s.input| ==> !PassedOver(s, s.input[..n + 1], n, wanted) && !AnswerAt(s, wanted, n)
    ensures WaitFor(s, wanted).1 ==
      if n == |s.input| then Err(Io)
      else match s.input[n]
           case BadControl => Err(Protocol)
           case DataFrame(f) =>
             Err(if f.streamId in LiveAfter(s.streams, Controls(s.input[..n])) then StreamLimit else Protocol)
           case ControlFrame(m) => Err(StreamLimit)
    decreases n
  {
    hide ApplyEvent, LiveAfter, Controls, DataFrames, PassedOver, AllPassedOver, Passing, WaitFor, AnswerAt;
    if n == 0 {
      WaitForErrorNow(s, wanted);
    } else {
      AllPassedOverSplits(s, n, wanted);
      FirstPassedOver(s, n, wanted);
      FirstPassedOver(s, 1, wanted);
      WaitForPasses(s, wanted);
      PassingInput(s);
      var t := Passing(s);
      AheadSplits(s, n - 1);
      if n < |s.input| {
        AnswerLater(s, wanted, n - 1);
        FirstPassedOver(s, n + 1, wanted);
        NextPassedOver(s, n + 1, n - 1, wanted);
      }
      WaitForError(t, wanted, n - 1);
    }
  }

  lemma WaitForErrorNow(s: Inbox, wanted: Message -> bool)
    requires s.input != [] ==> !PassedOver(s, s.input[..1], 0, wanted) && !AnswerAt(s, wanted, 0)
    ensures WaitFor(s, wanted).1 ==
      if s.input == [] then Err(Io)
      else match s.input[0]
           case BadControl => Err(Protocol)
           case DataFrame(f) =>
             Err(if f.streamId in LiveAfter(s.streams, Controls(s.input[..0])) then StreamLimit else Protocol)
           case ControlFrame(m) => Err(StreamLimit)
  {
    if s.input != [] {
      FirstPassedOver(s, 1, wanted);
      AnswerFirst(s, wanted);
      LiveAtStart(s);
      if s.input[0].ControlFrame? {
        var m := s.input[0].message;
        EventError(s.streams, m);
        if ApplyEvent(s.streams, m).Ok? { EventTwice(s.streams, m); }
      }
    }
  }

  /** The first queued frame of a live stream is handed out, without reading. */
  lemma {:induction false} ReceiveQueued(s: Inbox, i: nat)
    requires i < |s.data| && s.data[i].streamId in s.streams
    requires forall j :: 0 <= j < i ==> s.data[j].streamId !in s.streams
    ensures Receive(s) == (s.(data := s.data[i + 1..]), Ok(s.data[i]))
    decreases i
  {
    if i > 0 {
      var popped := s.(data := s.data[1..]);
      ReceiveQueued(popped, i - 1);
      assert s.data[1..][i..] == s.data[i + 1..];
    }
  }

  /** Frame `k` is a control that a receiving call queues. */
  ghost predicate ControlPasses(s: Inbox, k: nat) {
    k < |s.input| && s.input[k].ControlFrame? && |s.controls| + k < 128
    && !Refuses(LiveAfter(s.streams, Controls(s.input[..k])), s.input[k].message)
  }

  /** With no live frame queued, the first frame that is not a queued control decides what receiving answers. */
  lemma {:induction false} ReceiveExact(s: Inbox, n: nat)
    requires forall j :: 0 <= j < |s.data| ==> s.data[j].streamId !in s.streams
    requires n <= |s.input| && (forall k :: 0 <= k < n ==> ControlPasses(s, k)) && !ControlPasses(s, n)
    ensures Receive(s).1 ==
      if n == |s.input| then Err(Io)
      else match s.input[n]
           case BadControl => Err(Protocol)
           case DataFrame(f) => if f.streamId in LiveAfter(s.streams, Controls(s.input[..n])) then Ok(f) else Err(Protocol)
           case ControlFrame(_) => Err(StreamLimit)
    decreases |s.data|, n
  {
    hide LiveAfter, Controls;
    if s.data != [] {
      var popped := s.(data := s.data[1..]);
      forall k ensures ControlPasses(popped, k) == ControlPasses(s, k) { }
      ReceiveExact(popped, n);
    } else if n == 0 {
      if s.input != [] {
        LiveAtStart(s);
        if s.input[0].ControlFrame? {
          EventMeaning(s.streams, s.input[0].message, 0);
          EventError(s.streams, s.input[0].message);
        }
      }
    } else {
      assert ControlPasses(s, 0);
      LiveAtStart(s);
      var m := s.input[0].message;
      EventMeaning(s.streams, m, 0);
      var queued := QueueControl(s.(input := s.input[1..]), m).0;
      assert Passing(s) == queued;
      forall k: nat | k < |s.input| - 1 ensures ControlPasses(queued, k) == ControlPasses(s, k + 1) {
        AheadSplits(s, k);
        assert queued.input[k] == s.input[k + 1];
      }
      forall k | 0 <= k < n - 1 ensures ControlPasses(queued, k) { assert ControlPasses(s, k + 1); }
      assert !ControlPasses(queued, n - 1);
      AheadSplits(s, n - 1);
      ReceiveExact(queued, n - 1);
    }
  }

  /** What `open` answers once its wait ended. */
  lemma OpenAnswers(s: Inbox, stream: u32, id: nat)
    ensures |s.streams| >= 128 ==> Open(s, stream, id) == (s, Err(StreamLimit))
    ensures |s.streams| < 128 ==>
      var (t, reply) := WaitFor(s, m => IsReplyTo(m, id));
      match reply
      case Err(e) => Open(s, stream, id) == (t, Err(e))
      case Ok(m) =>
        if m == Reply(id, true) then Open(s, stream, id) == (t.(streams := t.streams + {stream}), Ok(stream))
        else Open(s, stream, id) == (t, Err(Refused))
  {
    hide WaitFor;
    var wanted := m => IsReplyTo(m, id);
    if |s.streams| < 128 && WaitFor(s, wanted).1.Ok? { var passed := WaitForReads(s, wanted); }
  }

  /** Closing takes out that stream alone, and only if it is live. */
  lemma CloseMeaning(s: Inbox, stream: u32, x: u32)
    ensures var (t, r) := CloseStream(s, stream);
      && (r.Ok? <==> stream in s.streams) && (r.Err? ==> r == Err(Closed))
      && (x in t.streams <==> x in s.streams && x != stream)
      && t.input == s.input && t.controls == s.controls && t.data == s.data
  {
  }
}
