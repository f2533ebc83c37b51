/** Runs of inbound calls: nothing that arrived is lost, duplicated or reordered, but for the frame a call fails on. */
module SessionHistory {
  import opened Wrappers
  import opened Bytes
  import opened Frames
  import opened SessionInbox

  /** `all` is `a` and `b` interleaved, each in its own order. */
  ghost predicate Shuffle<T(!new)>(all: seq<T>, a: seq<T>, b: seq<T>) {
    if all == [] then a == [] && b == []
    else
      var n := |all| - 1;
      || (a != [] && a[|a| - 1] == all[n] && Shuffle(all[..n], a[..|a| - 1], b))
      || (b != [] && b[|b| - 1] == all[n] && Shuffle(all[..n], a, b[..|b| - 1]))
  }

  lemma {:induction false} ShuffleLeft<T(!new)>(all: seq<T>, a: seq<T>, b: seq<T>, more: seq<T>)
    requires Shuffle(all, a, b)
    ensures Shuffle(all + more, a + more, b)
  {
    if more == [] {
      assert all + more == all && a + more == a;
    } else {
      var n := |more| - 1;
      ShuffleLeft(all, a, b, more[..n]);
      assert (all + more)[..|all| + n] == all + more[..n] && (a + more)[..|a| + n] == a + more[..n];
    }
  }

  lemma {:induction false} ShuffleRight<T(!new)>(all: seq<T>, a: seq<T>, b: seq<T>, more: seq<T>)
    requires Shuffle(all, a, b)
    ensures Shuffle(all + more, a, b + more)
  {
    if more == [] {
      assert all + more == all && b + more == b;
    } else {
      var n := |more| - 1;
      ShuffleRight(all, a, b, more[..n]);
      assert (all + more)[..|all| + n] == all + more[..n] && (b + more)[..|b| + n] == b + more[..n];
    }
  }

  /** An application call on the inbound side. `Await` is a publish or unpublish waiting for its answer. */
  datatype Call =
    | TakeControl
    | TakeData
    | Await(wanted: Message -> bool)
    | OpenStream(stream: u32, id: nat)
    | Close(stream: u32)

  /** A call that is dropped, or whose channel ends, once `arrived` frames have been read. */
  datatype Attempt = Attempt(call: Call, arrived: nat)

  /**
   The inbox and what became of everything read so far: kept or lost; and, of what was kept,
   controls delivered or consumed by a waiting call, data received or skipped.
   */
  datatype History = History(
    inbox: Inbox, read: seq<Inbound>, kept: seq<Inbound>, lost: seq<Inbound>, failures: nat,
    delivered: seq<Message>, awaited: seq<Message>, received: seq<Frame>, skipped: seq<Frame>)

  function Given(s: Inbox, arrived: nat): Inbox { if arrived < |s.input| then s.(input := s.input[..arrived]) else s }

  function Later(s: Inbox, arrived: nat): seq<Inbound> { if arrived < |s.input| then s.input[arrived..] else [] }

  /** Books what a call read between `Given(h.inbox, arrived)` and `t`, ending with error `e` if any. */
  function Settle(h: History, arrived: nat, t: Inbox, e: Option<SdkError>): History {
    var read := Consumed(Given(h.inbox, arrived), t);
    var kept := Kept(read, e);
    h.(inbox := t.(input := t.input + Later(h.inbox, arrived)),
       read := h.read + read, kept := h.kept + kept, lost := h.lost + read[|kept|..],
       failures := if e.Some? && e.value != Io then h.failures + 1 else h.failures)
  }

  /** One call, successful, failing or dropped. */
  function Advance(h: History, a: Attempt): History {
    var s := Given(h.inbox, a.arrived);
    match a.call
    case TakeControl =>
      var (t, m) := RecvControl(s);
      Settle(h, a.arrived, t, ErrorOf(m)).(delivered := h.delivered + Out(m))
    case TakeData =>
      var (t, f) := Receive(s);
      Settle(h, a.arrived, t, ErrorOf(f)).(received := h.received + Out(f),
                                           skipped := h.skipped + DeadPrefix(s.data, s.streams))
    case Await(wanted) =>
      var (t, m) := WaitFor(s, wanted);
      Settle(h, a.arrived, t, ErrorOf(m)).(awaited := h.awaited + Out(m))
    case OpenStream(stream, id) =>
      if |s.streams| >= MAX_STREAMS then h
      else
        var (_, m) := WaitFor(s, m => IsReplyTo(m, id));
        Settle(h, a.arrived, Open(s, stream, id).0, ErrorOf(m)).(awaited := h.awaited + Out(m))
    case Close(stream) => h.(inbox := CloseStream(h.inbox, stream).0)
  }

  function Run(h: History, calls: seq<Attempt>): History
    decreases calls
  {
    if calls == [] then h else Run(Advance(h, calls[0]), calls[1..])
  }

  lemma {:induction false} RunConcat(h: History, a: seq<Attempt>, b: seq<Attempt>)
    ensures Run(h, a + b) == Run(Run(h, a), b)
    decreases a
  {
    hide Advance;
    if a == [] {
      assert a + b == b;
    } else {
      assert (a + b)[1..] == a[1..] + b;
      RunConcat(Advance(h, a[0]), a[1..], b);
    }
  }

  function Fresh(input: seq<Inbound>, streams: set<u32>): History {
    History(Inbox(input, streams, [], []), [], [], [], 0, [], [], [], [])
  }

  // ----- the invariant -----

  /** What arrived was read or is still to come; what was read was kept or lost, at most one frame lost per call that failed on one. */
  ghost predicate Accounted(input: seq<Inbound>, h: History) {
    && input == h.read + h.inbox.input
    && Shuffle(h.read, h.kept, h.lost)
    && |h.lost| <= h.failures
  }

  ghost predicate ControlsAccounted(h: History) {
    Shuffle(Controls(h.kept), h.delivered + h.inbox.controls, h.awaited)
  }

  /** Data frames already handed out or skipped: all that were kept but the queued ones. */
  ghost predicate DataDone(h: History, done: seq<Frame>) {
    DataFrames(h.kept) == done + h.inbox.data && Shuffle(done, h.received, h.skipped)
  }

  ghost predicate DataAccounted(h: History) { exists done :: DataDone(h, done) }

  ghost predicate Conserved(input: seq<Inbound>, h: History) {
    Accounted(input, h) && ControlsAccounted(h) && DataAccounted(h)
  }

  // ----- one call -----

  lemma GivenSplits(s: Inbox, arrived: nat, t: Inbox)
    requires ReadPrefix(Given(s, arrived), t)
    ensures s.input == Consumed(Given(s, arrived), t) + (t.input + Later(s, arrived))
  {
    var g := Given(s, arrived);
    assert s.input == g.input + Later(s, arrived);
    assert Consumed(g, t) + t.input + Later(s, arrived) == Consumed(g, t) + (t.input + Later(s, arrived));
  }

  lemma SettleAccounts(input: seq<Inbound>, h: History, arrived: nat, t: Inbox, e: Option<SdkError>)
    requires Accounted(input, h) && ReadPrefix(Given(h.inbox, arrived), t)
    ensures Accounted(input, Settle(h, arrived, t, e))
  {
    hide Shuffle, Consumed, ReadPrefix;
    var read := Consumed(Given(h.inbox, arrived), t);
    var kept := Kept(read, e);
    var lost := read[|kept|..];
    assert read == kept + lost;
    GivenSplits(h.inbox, arrived, t);
    var left := t.input + Later(h.inbox, arrived);
    assert h.read + (read + left) == h.read + read + left;
    ShuffleLeft(h.read, h.kept, h.lost, kept);
    ShuffleRight(h.read + kept, h.kept + kept, h.lost, lost);
    assert h.read + kept + lost == h.read + (kept + lost);
  }

  /** Controls that are only queued or handed out keep their order. */
  lemma ControlsGrow(h: History, next: History, kept: seq<Inbound>)
    requires ControlsAccounted(h) && next.kept == h.kept + kept && next.awaited == h.awaited
    requires next.delivered + next.inbox.controls == h.delivered + (h.inbox.controls + Controls(kept))
    ensures ControlsAccounted(next)
  {
    hide Shuffle, Controls;
    ReadConcat(h.kept, kept);
    ShuffleLeft(Controls(h.kept), h.delivered + h.inbox.controls, h.awaited, Controls(kept));
    assert h.delivered + h.inbox.controls + Controls(kept) == h.delivered + (h.inbox.controls + Controls(kept));
  }

  /** A waiting call queues what it passes over and takes one message out. */
  lemma ControlsAwaited(h: History, next: History, kept: seq<Inbound>, passed: seq<Message>, m: Message)
    requires ControlsAccounted(h) && next.kept == h.kept + kept && Controls(kept) == passed + [m]
    requires next.delivered == h.delivered && next.inbox.controls == h.inbox.controls + passed
    requires next.awaited == h.awaited + [m]
    ensures ControlsAccounted(next)
  {
    hide Shuffle, Controls;
    ReadConcat(h.kept, kept);
    var all, queued := Controls(h.kept), h.delivered + h.inbox.controls;
    ShuffleLeft(all, queued, h.awaited, passed);
    ShuffleRight(all + passed, queued + passed, h.awaited, [m]);
    assert all + passed + [m] == all + (passed + [m]);
    assert queued + passed == h.delivered + (h.inbox.controls + passed);
  }

  /** Data frames that are only queued keep their order. */
  lemma DataGrow(h: History, next: History, kept: seq<Inbound>)
    requires DataAccounted(h) && next.kept == h.kept + kept
    requires next.received == h.received && next.skipped == h.skipped
    requires next.inbox.data == h.inbox.data + DataFrames(kept)
    ensures DataAccounted(next)
  {
    hide Shuffle, DataFrames;
    ReadConcat(h.kept, kept);
    var done :| DataDone(h, done);
    assert done + h.inbox.data + DataFrames(kept) == done + (h.inbox.data + DataFrames(kept));
    assert DataDone(next, done);
  }

  lemma DataTaken(h: History, next: History, kept: seq<Inbound>, dead: seq<Frame>, out: seq<Frame>)
    requires DataAccounted(h) && next.kept == h.kept + kept
    requires next.received == h.received + out && next.skipped == h.skipped + dead
    requires h.inbox.data + DataFrames(kept) == dead + out + next.inbox.data
    ensures DataAccounted(next)
  {
    hide Shuffle, DataFrames;
    ReadConcat(h.kept, kept);
    var done :| DataDone(h, done);
    ShuffleRight(done, h.received, h.skipped, dead);
    ShuffleLeft(done + dead, h.received, h.skipped + dead, out);
    assert done + h.inbox.data + DataFrames(kept) == done + (h.inbox.data + DataFrames(kept));
    assert done + (dead + out + next.inbox.data) == done + dead + out + next.inbox.data;
    assert DataDone(next, done + dead + out);
  }

  lemma TakeControlConserves(input: seq<Inbound>, h: History, arrived: nat)
    requires Conserved(input, h)
    ensures Conserved(input, Advance(h, Attempt(TakeControl, arrived)))
  {
    hide Shuffle, RecvControl, Consumed, ReadPrefix, Controls, DataFrames, Kept, Accounted, ControlsAccounted, DataAccounted;
    var s := Given(h.inbox, arrived);
    var (t, m) := RecvControl(s);
    RecvControlAccounts(s);
    var next, kept := Advance(h, Attempt(TakeControl, arrived)), Kept(Consumed(s, t), ErrorOf(m));
    SettleAccounts(input, h, arrived, t, ErrorOf(m));
    AccountedAlike(input, Settle(h, arrived, t, ErrorOf(m)), next);
    assert h.delivered + Out(m) + t.controls == h.delivered + (Out(m) + t.controls);
    ControlsGrow(h, next, kept);
    DataGrow(h, next, kept);
  }

  lemma AccountedAlike(input: seq<Inbound>, h: History, next: History)
    requires Accounted(input, h) && next.inbox.input == h.inbox.input
    requires next.read == h.read && next.kept == h.kept && next.lost == h.lost && next.failures == h.failures
    ensures Accounted(input, next)
  {
  }

  lemma TakeDataConserves(input: seq<Inbound>, h: History, arrived: nat)
    requires Conserved(input, h)
    ensures Conserved(input, Advance(h, Attempt(TakeData, arrived)))
  {
    hide Shuffle, Receive, Consumed, ReadPrefix, Controls, DataFrames, Kept, DeadPrefix, Accounted, ControlsAccounted, DataAccounted;
    var s := Given(h.inbox, arrived);
    var (t, f) := Receive(s);
    ReceiveAccounts(s);
    var next, kept := Advance(h, Attempt(TakeData, arrived)), Kept(Consumed(s, t), ErrorOf(f));
    SettleAccounts(input, h, arrived, t, ErrorOf(f));
    AccountedAlike(input, Settle(h, arrived, t, ErrorOf(f)), next);
    ControlsGrow(h, next, kept);
    DataTaken(h, next, kept, DeadPrefix(s.data, s.streams), Out(f));
  }

  /** A waiting call, with or without a stream inserted after it. */
  lemma WaitConserves(input: seq<Inbound>, h: History, arrived: nat, wanted: Message -> bool, streams: set<u32>)
    requires Conserved(input, h)
    ensures var (t, m) := WaitFor(Given(h.inbox, arrived), wanted);
      Conserved(input, Settle(h, arrived, t.(streams := streams), ErrorOf(m)).(awaited := h.awaited + Out(m)))
  {
    hide Shuffle, WaitFor, Consumed, ReadPrefix, Controls, DataFrames, Kept, Accounted, ControlsAccounted, DataAccounted;
    var s := Given(h.inbox, arrived);
    var (t, m) := WaitFor(s, wanted);
    var after := t.(streams := streams);
    var settled := Settle(h, arrived, after, ErrorOf(m));
    var next := settled.(awaited := h.awaited + Out(m));
    var kept := Kept(Consumed(s, t), ErrorOf(m));
    SameAfter(s, t, after);
    if m.Ok? {
      var passed := WaitForReads(s, wanted);
      assert kept == Consumed(s, t) by { KeptNothingLost(Consumed(s, t)); }
      ControlsAwaited(h, next, kept, passed, m.value);
    } else {
      WaitForFails(s, wanted);
      ControlsGrow(h, next, kept);
    }
    SettleAccounts(input, h, arrived, after, ErrorOf(m));
    AccountedAlike(input, settled, next);
    DataGrow(h, next, kept);
  }

  lemma SameAfter(s: Inbox, t: Inbox, u: Inbox)
    requires t.input == u.input
    ensures Consumed(s, t) == Consumed(s, u) && ReadPrefix(s, t) == ReadPrefix(s, u)
  {
  }

  lemma OpenConserves(input: seq<Inbound>, h: History, arrived: nat, stream: u32, id: nat)
    requires Conserved(input, h)
    ensures Conserved(input, Advance(h, Attempt(OpenStream(stream, id), arrived)))
  {
    hide Conserved, Settle, WaitFor;
    var s := Given(h.inbox, arrived);
    if |s.streams| < MAX_STREAMS {
      var wanted := m => IsReplyTo(m, id);
      WaitConserves(input, h, arrived, wanted, Open(s, stream, id).0.streams);
      var t := WaitFor(s, wanted).0;
      assert Open(s, stream, id).0 == t.(streams := Open(s, stream, id).0.streams);
    }
  }

  lemma AdvanceConserves(input: seq<Inbound>, h: History, a: Attempt)
    requires Conserved(input, h)
    ensures Conserved(input, Advance(h, a))
  {
    hide Conserved, Settle, WaitFor, Receive, RecvControl;
    match a.call
    case TakeControl => TakeControlConserves(input, h, a.arrived);
    case TakeData => TakeDataConserves(input, h, a.arrived);
    case Await(wanted) =>
      var t := WaitFor(Given(h.inbox, a.arrived), wanted).0;
      WaitConserves(input, h, a.arrived, wanted, t.streams);
      assert t.(streams := t.streams) == t;
    case OpenStream(stream, id) => OpenConserves(input, h, a.arrived, stream, id);
    case Close(stream) => StreamsIrrelevant(input, h, CloseStream(h.inbox, stream).0.streams);
  }

  lemma StreamsIrrelevant(input: seq<Inbound>, h: History, streams: set<u32>)
    requires Conserved(input, h)
    ensures Conserved(input, h.(inbox := h.inbox.(streams := streams)))
  {
    hide Shuffle;
    var done :| DataDone(h, done);
    assert DataDone(h.(inbox := h.inbox.(streams := streams)), done);
  }

  /** Frames arriving later belong to what is still to come. */
  lemma ArrivalsConserved(input: seq<Inbound>, h: History, more: seq<Inbound>)
    requires Conserved(input, h)
    ensures Conserved(input + more, h.(inbox := h.inbox.(input := h.inbox.input + more)))
  {
    hide Shuffle;
    assert h.read + h.inbox.input + more == h.read + (h.inbox.input + more);
    var done :| DataDone(h, done);
    assert DataDone(h.(inbox := h.inbox.(input := h.inbox.input + more)), done);
  }

  /** A call given the whole input leaves the inbox its own function says. */
  lemma AdvanceWhole(h: History, call: Call)
    ensures var s := h.inbox;
      Advance(h, Attempt(call, |s.input|)).inbox ==
        match call
        case TakeControl => RecvControl(s).0
        case TakeData => Receive(s).0
        case Await(wanted) => WaitFor(s, wanted).0
        case OpenStream(stream, id) => Open(s, stream, id).0
        case Close(stream) => CloseStream(s, stream).0
  {
    hide WaitFor, Receive, RecvControl, Consumed, Kept, DeadPrefix;
  }

  // ----- every run -----

  /**
   Inbound conservation over every run of successful, failing and dropped calls. Everything
   that arrived was read or is still to come. Of what was read, a call that fails on a frame loses
   that frame and a dropped one none. Of the rest, the controls handed to the application, then those still queued,
   are the arrivals minus exactly the messages that waiting calls consumed; the data frames
   handed out are the arrivals in order, minus frames skipped because their stream was dead
   when dequeued, minus those still queued.
   */
  lemma {:induction false} RunConserves(input: seq<Inbound>, h: History, calls: seq<Attempt>)
    requires Conserved(input, h)
    ensures Conserved(input, Run(h, calls))
    decreases calls
  {
    hide Conserved, Advance;
    if calls != [] {
      AdvanceConserves(input, h, calls[0]);
      RunConserves(input, Advance(h, calls[0]), calls[1..]);
    }
  }

  lemma FreshConserved(input: seq<Inbound>, streams: set<u32>)
    ensures Conserved(input, Fresh(input, streams))
  {
    assert DataDone(Fresh(input, streams), []);
  }

  /** With no failure nothing is lost: every frame read is in the order it arrived in. */
  lemma {:induction false} NothingLost(input: seq<Inbound>, h: History)
    requires Conserved(input, h) && h.failures == 0
    ensures h.kept == h.read
  {
    hide Controls, DataFrames, DataAccounted, ControlsAccounted;
    ShuffleAlone(h.read, h.kept);
  }

  lemma {:induction false} ShuffleAlone<T(!new)>(all: seq<T>, a: seq<T>)
    requires Shuffle(all, a, [])
    ensures a == all
  {
    if all != [] {
      ShuffleAlone(all[..|all| - 1], a[..|a| - 1]);
      assert all == all[..|all| - 1] + [all[|all| - 1]] && a == a[..|a| - 1] + [a[|a| - 1]];
    }
  }

  // ----- the live stream set -----

  lemma AdvanceStreams(h: History, a: Attempt)
    ensures var s := Given(h.inbox, a.arrived);
      Advance(h, a).inbox.streams ==
        match a.call
        case TakeControl => RecvControl(s).0.streams
        case TakeData => Receive(s).0.streams
        case Await(wanted) => WaitFor(s, wanted).0.streams
        case OpenStream(stream, id) => Open(s, stream, id).0.streams
        case Close(stream) => CloseStream(s, stream).0.streams
  {
    hide WaitFor, Receive, RecvControl, Consumed, Kept, DeadPrefix;
  }

  lemma AdvanceBound(h: History, a: Attempt)
    requires |h.inbox.streams| <= MAX_STREAMS + 1
    ensures |Advance(h, a).inbox.streams| <= MAX_STREAMS + 1
    ensures |h.inbox.streams| <= MAX_STREAMS && !a.call.OpenStream? ==> |Advance(h, a).inbox.streams| <= MAX_STREAMS
  {
    hide WaitFor, Receive, NextControl, Advance, Open;
    var s := Given(h.inbox, a.arrived);
    AdvanceStreams(h, a);
    var bound := if |s.streams| <= MAX_STREAMS then MAX_STREAMS else MAX_STREAMS + 1;
    match a.call
    case TakeControl => NextControlBound(s, bound);
    case TakeData => ReceiveBound(s, bound);
    case Await(wanted) => WaitForBound(s, wanted, bound);
    case OpenStream(stream, id) => OpenBound(s, stream, id);
    case Close(stream) => if stream in s.streams { SubsetSmaller(s.streams - {stream}, s.streams); }
  }

  /** The live stream set never exceeds 129 entries, over every run of calls, failing and dropped ones included. */
  lemma {:induction false} RunBound(h: History, calls: seq<Attempt>)
    requires |h.inbox.streams| <= MAX_STREAMS + 1
    ensures |Run(h, calls).inbox.streams| <= MAX_STREAMS + 1
    decreases calls
  {
    hide Advance;
    if calls != [] {
      AdvanceBound(h, calls[0]);
      RunBound(Advance(h, calls[0]), calls[1..]);
    }
  }
}
