/** When exactly the live stream set of a session passes its limit, and a run in which it does. */
module StreamLimit {
  import opened Wrappers
  import opened Bytes
  import opened Frames
  import opened SessionInbox
  import opened SessionHistory

  // ----- the condition, read off the inbox before the call -----

  /** The live set once `messages` have been seen, an event past the limit changing nothing. */
  function LiveAfter(streams: set<u32>, messages: seq<Message>): set<u32> {
    if messages == [] then streams
    else
      var before := LiveAfter(streams, messages[..|messages| - 1]);
      var next := ApplyEvent(before, Last(messages));
      if next.Ok? then next.value else before
  }

  /** Frame `k` of `ahead`, met by a call waiting on inbox `s`, is queued and not what it waits for. */
  ghost predicate PassedOver(s: Inbox, ahead: seq<Inbound>, k: nat, wanted: Message -> bool)
    requires k < |ahead|
  {
    var live := LiveAfter(s.streams, Controls(ahead[..k]));
    match ahead[k]
    case BadControl => false
    case DataFrame(f) => f.streamId in live && |s.data| + |DataFrames(ahead[..k])| < MAX_PENDING_FRAMES
    case ControlFrame(m) =>
      !wanted(m) && |s.controls| + |Controls(ahead[..k])| < MAX_PENDING_CONTROLS && ApplyEvent(live, m).Ok?
  }

  ghost predicate AllPassedOver(s: Inbox, ahead: seq<Inbound>, wanted: Message -> bool) {
    forall k :: 0 <= k < |ahead| ==> PassedOver(s, ahead, k, wanted)
  }

  /**
   The next answer to request `id` is at position `n` of the input and grants it, and the
   frames before it, all of which can be queued, leave 128 streams live without `stream`.
   */
  ghost predicate FullAtReply(s: Inbox, stream: u32, id: nat, n: nat) {
    && n < |s.input| && s.input[n] == ControlFrame(Reply(id, true))
    && AllPassedOver(s, s.input[..n], m => IsReplyTo(m, id))
    && var live := LiveAfter(s.streams, Controls(s.input[..n]));
       |live| == MAX_STREAMS && stream !in live
  }

  ghost predicate WillExceed(s: Inbox, stream: u32, id: nat) {
    |s.streams| < MAX_STREAMS && exists n: nat :: FullAtReply(s, stream, id, n)
  }

  // ----- the live set along the input -----

  lemma {:induction false} LiveAfterFirst(streams: set<u32>, m: Message, rest: seq<Message>)
    requires ApplyEvent(streams, m).Ok?
    ensures LiveAfter(streams, [m] + rest) == LiveAfter(ApplyEvent(streams, m).value, rest)
  {
    hide ApplyEvent;
    var all := [m] + rest;
    if rest == [] {
      assert all[..0] == [] && Last(all) == m;
    } else {
      assert all[..|all| - 1] == [m] + rest[..|rest| - 1] && Last(all) == Last(rest);
      LiveAfterFirst(streams, m, rest[..|rest| - 1]);
    }
  }

  /** The inbox once the first frame has been queued. */
  function Passing(s: Inbox): Inbox
    requires s.input != []
  {
    var rest := s.(input := s.input[1..]);
    match s.input[0]
    case BadControl => rest
    case DataFrame(f) => rest.(data := s.data + [f])
    case ControlFrame(m) =>
      rest.(controls := s.controls + [m],
            streams := if ApplyEvent(s.streams, m).Ok? then ApplyEvent(s.streams, m).value else s.streams)
  }

  lemma FirstPassedOver(s: Inbox, n: nat, wanted: Message -> bool)
    requires 0 < n <= |s.input|
    ensures PassedOver(s, s.input[..n], 0, wanted) <==>
      match s.input[0]
      case BadControl => false
      case DataFrame(f) => f.streamId in s.streams && |s.data| < MAX_PENDING_FRAMES
      case ControlFrame(m) => !wanted(m) && |s.controls| < MAX_PENDING_CONTROLS && ApplyEvent(s.streams, m).Ok?
  {
    hide ApplyEvent;
    assert s.input[..n][..0] == [];
  }

  /** What precedes position `k + 1` of the input is its first frame and what precedes `k` after it. */
  lemma AheadSplits(s: Inbox, k: nat)
    requires k < |s.input| && !s.input[0].BadControl?
    requires s.input[0].ControlFrame? ==> ApplyEvent(s.streams, s.input[0].message).Ok?
    ensures var t := Passing(s);
      && |s.controls| + |Controls(s.input[..k + 1])| == |t.controls| + |Controls(t.input[..k])|
      && |s.data| + |DataFrames(s.input[..k + 1])| == |t.data| + |DataFrames(t.input[..k])|
      && LiveAfter(s.streams, Controls(s.input[..k + 1])) == LiveAfter(t.streams, Controls(t.input[..k]))
  {
    hide ApplyEvent, LiveAfter, Controls, DataFrames;
    var t, first := Passing(s), s.input[0];
    assert s.input[..k + 1] == [first] + t.input[..k];
    ReadConcat([first], t.input[..k]);
    OneFrame(first);
    if first.ControlFrame? {
      LiveAfterFirst(s.streams, first.message, Controls(t.input[..k]));
    } else {
      assert [] + Controls(t.input[..k]) == Controls(t.input[..k]);
    }
  }

  lemma NextPassedOver(s: Inbox, n: nat, k: nat, wanted: Message -> bool)
    requires 0 < n <= |s.input| && k < n - 1 && PassedOver(s, s.input[..n], 0, wanted)
    ensures PassedOver(s, s.input[..n], k + 1, wanted) == PassedOver(Passing(s), Passing(s).input[..n - 1], k, wanted)
  {
    hide ApplyEvent, LiveAfter, Controls, DataFrames, Passing;
    FirstPassedOver(s, n, wanted);
    AheadSplits(s, k);
    PassingInput(s);
    var t := Passing(s);
    assert s.input[..n][..k + 1] == s.input[..k + 1] && t.input[..n - 1][..k] == t.input[..k];
    assert s.input[..n][k + 1] == t.input[..n - 1][k];
  }

  lemma PassingInput(s: Inbox)
    requires s.input != []
    ensures Passing(s).input == s.input[1..]
  {
  }

  lemma AllPassedOverSplits(s: Inbox, n: nat, wanted: Message -> bool)
    requires 0 < n <= |s.input|
    ensures AllPassedOver(s, s.input[..n], wanted) <==>
      PassedOver(s, s.input[..n], 0, wanted) && AllPassedOver(Passing(s), s.input[1..][..n - 1], wanted)
  {
    hide PassedOver, Passing;
    PassingInput(s);
    var whole, ahead := s.input[..n], s.input[1..][..n - 1];
    if PassedOver(s, whole, 0, wanted) {
      var t := Passing(s);
      forall k | 1 <= k < n ensures PassedOver(s, whole, k, wanted) == PassedOver(t, ahead, k - 1, wanted) {
        NextPassedOver(s, n, k - 1, wanted);
      }
      if AllPassedOver(s, whole, wanted) {
        forall k | 0 <= k < |ahead| ensures PassedOver(t, ahead, k, wanted) {
          assert PassedOver(s, whole, k + 1, wanted);
        }
      }
      if AllPassedOver(t, ahead, wanted) {
        forall k | 0 <= k < |whole| ensures PassedOver(s, whole, k, wanted) {
          if k > 0 { assert PassedOver(t, ahead, k - 1, wanted); }
        }
      }
    }
  }

  // ----- waiting, by position -----

  /** A wait passes over a frame that can be queued. */
  lemma WaitForPasses(s: Inbox, wanted: Message -> bool)
    requires s.input != [] && PassedOver(s, s.input[..1], 0, wanted)
    ensures WaitFor(s, wanted) == WaitFor(Passing(s), wanted)
  {
    FirstPassedOver(s, 1, wanted);
    match s.input[0]
    case ControlFrame(m) =>
      EventTwice(s.streams, m);
      var next := s.(input := s.input[1..], streams := ApplyEvent(s.streams, m).value);
      assert NextControl(s) == (next, Ok(m));
      assert QueueControl(next, m) == (Passing(s), Ok(()));
    case DataFrame(f) => assert NextControl(s) == NextControl(Passing(s));
  }

  /** A wait that meets a frame it can neither queue nor take fails. */
  lemma WaitForStops(s: Inbox, wanted: Message -> bool)
    requires s.input == [] || !PassedOver(s, s.input[..1], 0, wanted)
    ensures WaitFor(s, wanted).1.Ok? <==>
      s.input != [] && s.input[0].ControlFrame? && wanted(s.input[0].message)
      && ApplyEvent(s.streams, s.input[0].message).Ok?
    ensures WaitFor(s, wanted).1.Ok? ==>
      WaitFor(s, wanted) == (s.(input := s.input[1..], streams := ApplyEvent(s.streams, s.input[0].message).value),
                             Ok(s.input[0].message))
  {
    if s.input != [] {
      FirstPassedOver(s, 1, wanted);
      if s.input[0].ControlFrame? && ApplyEvent(s.streams, s.input[0].message).Ok? {
        var m := s.input[0].message;
        EventTwice(s.streams, m);
        var next := s.(input := s.input[1..], streams := ApplyEvent(s.streams, m).value);
        assert NextControl(s) == (next, Ok(m));
      }
    }
  }

  /** Position `n` of the input holds the first message `wanted`, and everything before it can be queued. */
  ghost predicate AnswerAt(s: Inbox, wanted: Message -> bool, n: nat) {
    && n < |s.input| && s.input[n].ControlFrame? && wanted(s.input[n].message)
    && AllPassedOver(s, s.input[..n], wanted)
    && ApplyEvent(LiveAfter(s.streams, Controls(s.input[..n])), s.input[n].message).Ok?
  }

  lemma AnswerFirst(s: Inbox, wanted: Message -> bool)
    ensures AnswerAt(s, wanted, 0) <==>
      s.input != [] && s.input[0].ControlFrame? && wanted(s.input[0].message)
      && ApplyEvent(s.streams, s.input[0].message).Ok?
  {
    hide ApplyEvent;
    if s.input != [] { assert s.input[..0] == []; }
  }

  lemma AnswerLater(s: Inbox, wanted: Message -> bool, n: nat)
    requires s.input != [] && PassedOver(s, s.input[..1], 0, wanted)
    ensures AnswerAt(s, wanted, n + 1) == AnswerAt(Passing(s), wanted, n)
  {
    hide ApplyEvent, LiveAfter, Controls, DataFrames, PassedOver, AllPassedOver, Passing;
    PassingInput(s);
    if n + 1 < |s.input| {
      FirstPassedOver(s, 1, wanted);
      FirstPassedOver(s, n + 1, wanted);
      AllPassedOverSplits(s, n + 1, wanted);
      AheadSplits(s, n);
    }
  }

  lemma AnswerNotFirst(s: Inbox, wanted: Message -> bool, n: nat)
    requires AnswerAt(s, wanted, n) && n > 0
    ensures s.input != [] && PassedOver(s, s.input[..1], 0, wanted)
  {
    hide ApplyEvent, LiveAfter, Controls, DataFrames;
    assert PassedOver(s, s.input[..n], 0, wanted);
    FirstPassedOver(s, n, wanted);
    FirstPassedOver(s, 1, wanted);
  }

  /**
   A wait succeeds exactly when some position holds its answer behind frames that can all be
   queued; it then takes that answer, and the live set is the one the messages up to it leave.
   */
  lemma {:induction false} WaitForExact(s: Inbox, wanted: Message -> bool)
    ensures WaitFor(s, wanted).1.Ok? <==> exists n: nat :: AnswerAt(s, wanted, n)
    ensures forall n: nat :: AnswerAt(s, wanted, n) ==>
      && WaitFor(s, wanted).1 == Ok(s.input[n].message)
      && Ok(WaitFor(s, wanted).0.streams)
           == ApplyEvent(LiveAfter(s.streams, Controls(s.input[..n])), s.input[n].message)
    decreases |s.input|
  {
    hide ApplyEvent, LiveAfter, Controls, DataFrames, PassedOver, AllPassedOver, Passing, WaitFor, AnswerAt;
    AnswerFirst(s, wanted);
    if s.input == [] || !PassedOver(s, s.input[..1], 0, wanted) {
      WaitForStops(s, wanted);
      forall n: nat | AnswerAt(s, wanted, n) ensures n == 0 {
        if n > 0 { AnswerNotFirst(s, wanted, n); }
      }
      if s.input != [] { LiveAtStart(s); }
    } else {
      var t := Passing(s);
      PassingInput(s);
      WaitForPasses(s, wanted);
      WaitForExact(t, wanted);
      forall n: nat ensures AnswerAt(s, wanted, n + 1) == AnswerAt(t, wanted, n) { AnswerLater(s, wanted, n); }
      forall n: nat | AnswerAt(s, wanted, n)
        ensures 0 < n < |s.input| && AnswerAt(t, wanted, n - 1) && s.input[n] == t.input[n - 1]
        ensures LiveAfter(s.streams, Controls(s.input[..n])) == LiveAfter(t.streams, Controls(t.input[..n - 1]))
      {
        LaterLive(s, wanted, n);
      }
      if exists n: nat :: AnswerAt(t, wanted, n) {
        var n: nat :| AnswerAt(t, wanted, n);
        assert AnswerAt(s, wanted, n + 1);
      }
    }
  }

  lemma LiveAtStart(s: Inbox)
    requires s.input != []
    ensures LiveAfter(s.streams, Controls(s.input[..0])) == s.streams
  {
    assert s.input[..0] == [];
  }

  lemma LaterLive(s: Inbox, wanted: Message -> bool, n: nat)
    requires s.input != [] && PassedOver(s, s.input[..1], 0, wanted) && AnswerAt(s, wanted, n)
    ensures n > 0 && n < |s.input| && s.input[n] == Passing(s).input[n - 1]
    ensures AnswerAt(Passing(s), wanted, n - 1)
    ensures LiveAfter(s.streams, Controls(s.input[..n])) == LiveAfter(Passing(s).streams, Controls(Passing(s).input[..n - 1]))
  {
    hide ApplyEvent, LiveAfter, Controls, DataFrames, AllPassedOver;
    FirstPassedOver(s, 1, wanted);
    AnswerFirst(s, wanted);
    AnswerLater(s, wanted, n - 1);
    AheadSplits(s, n - 1);
  }

  // ----- the limit -----

  /** `open` leaves more than 128 live streams exactly when its next answer finds the set full without its own stream. */
  lemma OpenExceedsExactly(s: Inbox, stream: u32, id: nat)
    requires |s.streams| <= MAX_STREAMS
    ensures |Open(s, stream, id).0.streams| > MAX_STREAMS <==> WillExceed(s, stream, id)
  {
    hide WaitFor, LiveAfter, Controls, AllPassedOver, ApplyEvent;
    if |s.streams| < MAX_STREAMS {
      var wanted := m => IsReplyTo(m, id);
      WaitForExact(s, wanted);
      WaitForBound(s, wanted, MAX_STREAMS);
      var (t, reply) := WaitFor(s, wanted);
      if reply.Ok? {
        var n: nat :| AnswerAt(s, wanted, n);
        ReplyLeavesStreams(LiveAfter(s.streams, Controls(s.input[..n])), s.input[n].message, id);
        assert |t.streams + {stream}| > MAX_STREAMS <==> |t.streams| == MAX_STREAMS && stream !in t.streams by {
          if stream in t.streams { assert t.streams + {stream} == t.streams; }
        }
        if |Open(s, stream, id).0.streams| > MAX_STREAMS {
          assert s.input[n] == ControlFrame(Reply(id, true));
          assert FullAtReply(s, stream, id, n);
        }
      }
      forall n: nat | FullAtReply(s, stream, id, n)
        ensures reply == Ok(Reply(id, true)) && |t.streams| == MAX_STREAMS && stream !in t.streams
      {
        ReplyLeavesStreams(LiveAfter(s.streams, Controls(s.input[..n])), Reply(id, true), id);
        assert AnswerAt(s, wanted, n);
      }
    }
  }

  lemma ReplyLeavesStreams(streams: set<u32>, m: Message, id: nat)
    requires IsReplyTo(m, id)
    ensures ApplyEvent(streams, m) == Ok(streams) && m == Reply(id, m.succeeded)
  {
  }

  /** A call takes the set past 128 exactly when it is an `open` under that condition; nothing else ever does. */
  lemma ExceedsExactly(h: History, a: Attempt)
    requires |h.inbox.streams| <= MAX_STREAMS
    ensures |Advance(h, a).inbox.streams| > MAX_STREAMS <==>
      a.call.OpenStream? && WillExceed(Given(h.inbox, a.arrived), a.call.stream, a.call.id)
  {
    hide Advance, WillExceed, Open;
    AdvanceBound(h, a);
    AdvanceStreams(h, a);
    if a.call.OpenStream? { OpenExceedsExactly(Given(h.inbox, a.arrived), a.call.stream, a.call.id); }
  }

  // ----- a session that gets there -----

  const SERVICE: u32 := 1

  /** The host announces incoming streams `first`, `first + 1`, …, `first + n - 1`. */
  function Announced(first: nat, n: nat): seq<Inbound>
    requires first + n < 0x1_0000_0000
  {
    seq(n, i requires 0 <= i < n => ControlFrame(LocalServiceIncoming(SERVICE, first + i)))
  }

  function Streams(first: nat, n: nat): set<u32>
    requires first + n < 0x1_0000_0000
  {
    if n == 0 then {} else Streams(first, n - 1) + {first + n - 1}
  }

  lemma {:induction false} StreamsMembers(first: nat, n: nat, i: u32)
    requires first + n < 0x1_0000_0000
    ensures i in Streams(first, n) <==> first <= i < first + n
  {
    if n > 0 { StreamsMembers(first, n - 1, i); }
  }

  /** The application takes `n` controls, with `left` frames in the input before the first. */
  function Takes(n: nat, left: nat): seq<Attempt> { seq(n, i => Attempt(TakeControl, left)) }

  lemma {:induction false} StreamsCount(first: nat, n: nat)
    requires first + n < 0x1_0000_0000
    ensures |Streams(first, n)| == n
  {
    if n > 0 {
      StreamsCount(first, n - 1);
      StreamsMembers(first, n - 1, first + n - 1);
    }
  }

  lemma TakeAdmits(h: History, stream: u32, rest: seq<Inbound>, left: nat)
    requires h.inbox.input == [ControlFrame(LocalServiceIncoming(SERVICE, stream))] + rest && h.inbox.controls == []
    requires |h.inbox.streams| < MAX_STREAMS && |h.inbox.input| <= left
    ensures Advance(h, Attempt(TakeControl, left)).inbox == h.inbox.(input := rest, streams := h.inbox.streams + {stream})
  {
    assert h.inbox.input[1..] == rest && rest + [] == rest;
  }

  lemma {:induction false} TakesAdmit(h: History, first: nat, n: nat, rest: seq<Inbound>, left: nat)
    requires first + n < 0x1_0000_0000 && h.inbox.input == Announced(first, n) + rest && h.inbox.controls == []
    requires |h.inbox.streams| + n <= MAX_STREAMS && |h.inbox.input| <= left
    ensures Run(h, Takes(n, left)).inbox == h.inbox.(input := rest, streams := h.inbox.streams + Streams(first, n))
    decreases n
  {
    hide Advance, Streams, Announced;
    if n == 0 {
      NoneAnnounced(first);
      assert [] + rest == rest;
    } else {
      var tail := Announced(first + 1, n - 1) + rest;
      FirstAnnounced(first, n);
      assert h.inbox.input == [ControlFrame(LocalServiceIncoming(SERVICE, first))] + tail;
      TakeAdmits(h, first, tail, left);
      var next := Advance(h, Attempt(TakeControl, left));
      TakesAdmit(next, first + 1, n - 1, rest, left);
      assert Takes(n, left)[1..] == Takes(n - 1, left);
      assert h.inbox.streams + {first as u32} + Streams(first + 1, n - 1) == h.inbox.streams + Streams(first, n);
    }
  }

  lemma NoneAnnounced(first: nat)
    requires first < 0x1_0000_0000
    ensures Announced(first, 0) == [] && Streams(first, 0) == {}
  {
  }

  lemma FirstAnnounced(first: nat, n: nat)
    requires first + n < 0x1_0000_0000 && n > 0
    ensures Announced(first, n) == [ControlFrame(LocalServiceIncoming(SERVICE, first))] + Announced(first + 1, n - 1)
    ensures Streams(first, n) == {first as u32} + Streams(first + 1, n - 1)
  {
    hide Streams;
    forall i: u32 ensures i in {first as u32} + Streams(first + 1, n - 1) <==> i in Streams(first, n) {
      StreamsMembers(first, n, i);
      StreamsMembers(first + 1, n - 1, i);
    }
  }

  /** 127 incoming streams taken by the application, one more announced while its first `open` waits. */
  function BusyInput(id: nat): seq<Inbound> {
    Announced(2, 127) + [ControlFrame(LocalServiceIncoming(SERVICE, 129)), ControlFrame(Reply(id, true))]
  }

  /** From a fresh session, 128 calls lead to 129 live streams. */
  lemma LimitExceededInARun(id: nat)
    ensures var h := Run(Fresh(BusyInput(id), {}), Takes(127, 129) + [Attempt(OpenStream(1, id), 2)]);
      |h.inbox.streams| == MAX_STREAMS + 1
  {
    hide Advance, Open;
    var start, last := Fresh(BusyInput(id), {}), Attempt(OpenStream(1, id), 2);
    var ending := [ControlFrame(LocalServiceIncoming(SERVICE, 129)), ControlFrame(Reply(id, true))];
    RunConcat(start, Takes(127, 129), [last]);
    TakesAdmit(start, 2, 127, ending, 129);
    StreamsCount(2, 127);
    var mid := Run(start, Takes(127, 129));
    assert mid.inbox.streams == Streams(2, 127);
    StreamsMembers(2, 127, 129);
    StreamsMembers(2, 127, 1);
    OpenExceedsLimit(mid.inbox, SERVICE, 129, 1, id);
    AdvanceStreams(mid, last);
    assert [last][1..] == [];
  }
}
