/** The refresh queue: at most one active subscription set and one coalesced pending set. */
module Refresh {
  import opened Wrappers

  datatype Reason = SubscriptionsReplaced | IntervalElapsed | Manual

  type UrlSet = seq<string>

  datatype Queue = Queue(active: Option<UrlSet>, pending: Option<UrlSet>, inFlight: bool, lastReason: Option<Reason>)

  const EMPTY := Queue(None, None, false, None)

  function Pushed(q: Queue, urls: UrlSet, reason: Reason): (Queue, bool) {
    if q.active.None? then (q.(active := Some(urls), inFlight := false, lastReason := Some(reason)), true)
    else (q.(pending := Some(urls), lastReason := Some(reason)), false)
  }

  function Finished(q: Queue): (Queue, Option<UrlSet>) {
    (q.(active := q.pending, pending := None, inFlight := false), q.pending)
  }

  function Taken(q: Queue): (Queue, Option<UrlSet>) {
    if q.inFlight then (q, None) else (q.(inFlight := q.active.Some?), q.active)
  }

  predicate IsIdle(q: Queue) { q.active.None? && q.pending.None? }

  // ----- whole runs -----

  datatype Op = Push(urls: UrlSet, reason: Reason) | Finish | Take

  /**
   A run so far. `started` lists the sets announced for fetching (by a push on an idle queue
   or by finishing), and `origin` the number of the push each came from. `taken` lists the
   sets handed to the worker, and `ticket` the number of the announcement each belongs to.
   */
  datatype History = History(queue: Queue, pushes: seq<UrlSet>, reasons: seq<Reason>,
                             started: seq<UrlSet>, origin: seq<int>,
                             taken: seq<UrlSet>, ticket: seq<int>)

  const START := History(EMPTY, [], [], [], [], [], [])

  function Announce(h: History, urls: UrlSet): History {
    h.(started := h.started + [urls], origin := h.origin + [|h.pushes| - 1])
  }

  function Step(h: History, op: Op): History {
    match op
    case Push(urls, reason) =>
      var (q, start) := Pushed(h.queue, urls, reason);
      var next := h.(queue := q, pushes := h.pushes + [urls], reasons := h.reasons + [reason]);
      if start then Announce(next, urls) else next
    case Finish =>
      var (q, urls) := Finished(h.queue);
      var next := h.(queue := q);
      if urls.Some? then Announce(next, urls.value) else next
    case Take =>
      var (q, urls) := Taken(h.queue);
      var next := h.(queue := q);
      if urls.Some? then next.(taken := h.taken + [urls.value], ticket := h.ticket + [|h.started| - 1]) else next
  }

  function Run(h: History, ops: seq<Op>): History
    decreases ops
  {
    if ops == [] then h else Run(Step(h, ops[0]), ops[1..])
  }

  function Last<T>(s: seq<T>): T
    requires s != []
  {
    s[|s| - 1]
  }

  /** `picked` is `source` read at strictly increasing positions. */
  ghost predicate Subsequence(picked: seq<UrlSet>, positions: seq<int>, source: seq<UrlSet>) {
    && |picked| == |positions|
    && (forall i, j :: 0 <= i < j < |positions| ==> positions[i] < positions[j])
    && forall i :: 0 <= i < |positions| ==> 0 <= positions[i] < |source| && picked[i] == source[positions[i]]
  }

  /** Announcements follow the pushes, and the newest push is announced or waiting. */
  ghost predicate Announced(h: History) {
    && Subsequence(h.started, h.origin, h.pushes)
    && (h.queue.active.Some? ==> h.started != [] && h.queue.active.value == Last(h.started))
    && (h.queue.pending.Some? ==>
          && h.queue.active.Some?
          && h.pushes != [] && h.queue.pending.value == Last(h.pushes)
          && h.origin != [] && Last(h.origin) < |h.pushes| - 1)
    && (h.queue.pending.None? && h.pushes != [] ==> h.origin != [] && Last(h.origin) == |h.pushes| - 1)
    && h.queue.lastReason == (if h.reasons == [] then None else Some(Last(h.reasons)))
  }

  /** Hand-outs follow the announcements; the current one is handed out exactly when in flight. */
  ghost predicate HandedOut(h: History) {
    && Subsequence(h.taken, h.ticket, h.started)
    && (h.queue.inFlight ==> h.queue.active.Some?)
    && (h.queue.active.Some? ==>
          (h.queue.inFlight <==> h.ticket != [] && Last(h.ticket) == |h.started| - 1))
  }

  ghost predicate Inv(h: History) { Announced(h) && HandedOut(h) }

  lemma SubsequenceGrows(picked: seq<UrlSet>, positions: seq<int>, source: seq<UrlSet>, urls: UrlSet)
    requires Subsequence(picked, positions, source)
    ensures Subsequence(picked, positions, source + [urls])
  {
  }

  lemma SubsequencePicks(picked: seq<UrlSet>, positions: seq<int>, source: seq<UrlSet>)
    requires Subsequence(picked, positions, source) && source != []
    requires positions != [] ==> Last(positions) < |source| - 1
    ensures Subsequence(picked + [Last(source)], positions + [|source| - 1], source)
  {
    forall i | 0 <= i < |positions| ensures positions[i] < |source| - 1 {
      assert i < |positions| - 1 ==> positions[i] < Last(positions);
    }
  }

  lemma PositionsBelow(picked: seq<UrlSet>, positions: seq<int>, source: seq<UrlSet>)
    requires Subsequence(picked, positions, source)
    ensures positions != [] ==> 0 <= Last(positions) < |source|
  {
  }

  lemma PushKeeps(h: History, urls: UrlSet, reason: Reason)
    requires Inv(h)
    ensures Inv(Step(h, Push(urls, reason)))
  {
    hide Subsequence;
    PositionsBelow(h.started, h.origin, h.pushes);
    PositionsBelow(h.taken, h.ticket, h.started);
    SubsequenceGrows(h.started, h.origin, h.pushes, urls);
    if h.queue.active.None? {
      SubsequencePicks(h.started, h.origin, h.pushes + [urls]);
      SubsequenceGrows(h.taken, h.ticket, h.started, urls);
    }
  }

  lemma FinishKeeps(h: History)
    requires Inv(h)
    ensures Inv(Step(h, Finish))
  {
    hide Subsequence;
    PositionsBelow(h.taken, h.ticket, h.started);
    if h.queue.pending.Some? {
      SubsequencePicks(h.started, h.origin, h.pushes);
      SubsequenceGrows(h.taken, h.ticket, h.started, Last(h.pushes));
    }
  }

  lemma TakeKeeps(h: History)
    requires Inv(h)
    ensures Inv(Step(h, Take))
  {
    hide Subsequence;
    PositionsBelow(h.taken, h.ticket, h.started);
    if h.queue.active.Some? && !h.queue.inFlight {
      SubsequencePicks(h.taken, h.ticket, h.started);
    }
  }

  lemma StepKeeps(h: History, op: Op)
    requires Inv(h)
    ensures Inv(Step(h, op))
  {
    hide Inv, Step;
    match op
    case Push(urls, reason) => PushKeeps(h, urls, reason);
    case Finish => FinishKeeps(h);
    case Take => TakeKeeps(h);
  }

  lemma {:induction false} RunKeeps(h: History, ops: seq<Op>)
    requires Inv(h)
    ensures Inv(Run(h, ops))
    decreases ops
  {
    hide Inv, Step;
    if ops != [] {
      StepKeeps(h, ops[0]);
      RunKeeps(Step(h, ops[0]), ops[1..]);
    }
  }

  /**
   Over every run: the sets announced are the pushed sets read at strictly increasing
   positions, and the sets handed to the worker are the announced ones in the same sense, so no
   announcement is handed out twice. A waiting set is the newest push; with nothing waiting
   the newest push has been announced, so coalescing never loses the newest set.
   */
  lemma EveryRun(ops: seq<Op>)
    ensures Orderly(Run(START, ops))
  {
    hide Run, Orderly;
    RunKeeps(START, ops);
    InvOrderly(Run(START, ops));
  }

  ghost predicate Orderly(h: History) {
    && Subsequence(h.started, h.origin, h.pushes)
    && Subsequence(h.taken, h.ticket, h.started)
    && (h.queue.pending.Some? ==> h.queue.active.Some? && h.pushes != [] && h.queue.pending.value == Last(h.pushes))
    && (h.queue.pending.None? && h.pushes != [] ==> h.started != [] && Last(h.started) == Last(h.pushes))
    && h.queue.lastReason == (if h.reasons == [] then None else Some(Last(h.reasons)))
  }

  lemma InvOrderly(h: History)
    requires Inv(h)
    ensures Orderly(h)
  {
  }

  /** What is in flight is the last set handed out; with nothing waiting it is the newest push. */
  lemma InFlightIsNewest(h: History)
    requires Inv(h) && h.queue.active.Some?
    ensures h.queue.inFlight ==> h.taken != [] && Last(h.taken) == h.queue.active.value
    ensures h.queue.pending.None? && h.pushes != [] ==> h.queue.active.value == Last(h.pushes)
    ensures h.pushes != []
  {
  }

  lemma RunFour(h: History, a: Op, b: Op, c: Op, d: Op)
    ensures Run(h, [a, b, c, d]) == Step(Step(Step(Step(h, a), b), c), d)
  {
    hide Step;
    var h1, h2, h3 := Step(h, a), Step(Step(h, a), b), Step(Step(Step(h, a), b), c);
    assert [a, b, c, d][1..] == [b, c, d] && [b, c, d][1..] == [c, d] && [c, d][1..] == [d] && [d][1..] == [];
    assert Run(h3, [d]) == Run(Step(h3, d), []);
    assert Run(h2, [c, d]) == Run(h3, [d]);
    assert Run(h1, [b, c, d]) == Run(h2, [c, d]);
  }

  /**
   From any state of any run, a worker that takes and finishes twice leaves the queue idle
   and, if there was work, has last been handed the newest set pushed.
   */
  lemma DrainReachesNewest(h: History)
    requires Inv(h)
    ensures var d := Run(h, [Take, Finish, Take, Finish]);
      && IsIdle(d.queue)
      && d.pushes == h.pushes
      && (h.queue.active.Some? ==> h.pushes != [] && d.taken != [] && Last(d.taken) == Last(h.pushes))
  {
    hide Inv, Run;
    RunFour(h, Take, Finish, Take, Finish);
    var h1 := Step(h, Take);
    var h3 := Step(Step(h1, Finish), Take);
    StepKeeps(h, Take);
    StepKeeps(h1, Finish);
    StepKeeps(Step(h1, Finish), Take);
    if h.queue.active.Some? {
      InFlightIsNewest(h1);
      if h.queue.pending.Some? { InFlightIsNewest(h3); }
    } else {
      IdleHasNoPending(h);
    }
  }

  lemma IdleHasNoPending(h: History)
    requires Inv(h) && h.queue.active.None?
    ensures IsIdle(h.queue)
  {
  }

  /** Whatever the state, a set pushed now is the last one handed out once the queue is drained. */
  lemma PushIsServed(h: History, urls: UrlSet, reason: Reason)
    requires Inv(h)
    ensures var d := Run(Step(h, Push(urls, reason)), [Take, Finish, Take, Finish]);
      IsIdle(d.queue) && d.taken != [] && Last(d.taken) == urls
  {
    var next := Step(h, Push(urls, reason));
    assert next.queue.active.Some? && Last(next.pushes) == urls;
    hide Run, Step, Inv;
    StepKeeps(h, Push(urls, reason));
    DrainReachesNewest(next);
  }

  /** How many sets are held after a run: a push adds one up to two, a finish takes one away. */
  function Load(ops: seq<Op>): (n: nat)
    ensures n <= 2
  {
    if ops == [] then 0 else Loaded(Load(ops[..|ops| - 1]), ops[|ops| - 1])
  }

  function Loaded(n: nat, op: Op): nat {
    match op
    case Push(_, _) => if n >= 2 then 2 else n + 1
    case Finish => if n == 0 then 0 else n - 1
    case Take => n
  }

  lemma {:induction false} RunSnoc(h: History, ops: seq<Op>, op: Op)
    ensures Run(h, ops + [op]) == Step(Run(h, ops), op)
    decreases ops
  {
    hide Step;
    if ops == [] {
      assert ops + [op] == [op] && [op][1..] == [];
      assert Run(Step(h, op), []) == Step(h, op);
    } else {
      assert (ops + [op])[1..] == ops[1..] + [op];
      RunSnoc(Step(h, ops[0]), ops[1..], op);
    }
  }

  /** After every run the first set held is active and the second waits. */
  lemma {:induction false} LoadExact(ops: seq<Op>)
    ensures var q := Run(START, ops).queue;
      (q.active.Some? <==> Load(ops) >= 1) && (q.pending.Some? <==> Load(ops) == 2)
  {
    hide Run;
    if ops == [] {
      assert Run(START, ops) == START by { RunNothing(); }
    } else {
      var front, op := ops[..|ops| - 1], ops[|ops| - 1];
      assert ops == front + [op];
      LoadExact(front);
      RunSnoc(START, front, op);
      LoadStep(Run(START, front), op, Load(front));
      assert Load(ops) == Loaded(Load(front), op);
    }
  }

  lemma LoadStep(h: History, op: Op, load: nat)
    requires h.queue.active.Some? <==> load >= 1
    requires h.queue.pending.Some? <==> load == 2
    requires load <= 2
    ensures var q := Step(h, op).queue;
      (q.active.Some? <==> Loaded(load, op) >= 1) && (q.pending.Some? <==> Loaded(load, op) == 2)
  {
  }

  lemma RunNothing()
    ensures Run(START, []) == START
  {
  }

  // ----- the queue as it runs -----

  /** The queue. Its ghost history lists what was pushed, announced and handed out. */
  class RefreshQueue {
    var active: Option<UrlSet>
    var pending: Option<UrlSet>
    var inFlight: bool
    var lastReason: Option<Reason>
    ghost var history: History

    ghost predicate Valid()
      reads this
    {
      history.queue == Queue(active, pending, inFlight, lastReason) && Inv(history)
    }

    /** The run theorem, of the live queue. */
    lemma KeepsOrder()
      requires Valid()
      ensures Orderly(history)
    {
      InvOrderly(history);
    }

    constructor ()
      ensures Valid() && history == START
    {
      active, pending, inFlight, lastReason := None, None, false, None;
      history := START;
    }

    /** Answers whether the set was announced for fetching at once; otherwise it waits, in place of any other. */
    method Push(urls: UrlSet, reason: Reason) returns (start: bool)
      requires Valid()
      modifies this
      ensures Valid() && history == Step(old(history), Op.Push(urls, reason))
      ensures start <==> history.started == old(history.started) + [urls]
      ensures !start ==> history.started == old(history.started) && active == old(active) && pending == Some(urls)
    {
      PushKeeps(history, urls, reason);
      history := Step(history, Op.Push(urls, reason));
      if active.None? {
        active, inFlight, lastReason := Some(urls), false, Some(reason);
        return true;
      }
      pending, lastReason := Some(urls), Some(reason);
      return false;
    }

    /** Announces the waiting set, which is the newest pushed, or leaves the queue idle. */
    method FinishActive() returns (next: Option<UrlSet>)
      requires Valid()
      modifies this
      ensures Valid() && history == Step(old(history), Finish)
      ensures next == active && pending.None?
      ensures next.Some? ==> history.pushes != [] && next.value == Last(history.pushes)
      ensures history.started == if next.Some? then old(history.started) + [next.value] else old(history.started)
    {
      FinishKeeps(history);
      history := Step(history, Finish);
      active, inFlight := None, false;
      next := pending;
      if next.Some? {
        pending := None;
        active := next;
      }
    }

    /** Hands out the announced set, once. */
    method TakeActive() returns (urls: Option<UrlSet>)
      requires Valid()
      modifies this
      ensures Valid() && history == Step(old(history), Take)
      ensures urls.Some? <==> active.Some? && (old(history.ticket) == [] || Last(old(history.ticket)) != |history.started| - 1)
      ensures urls.Some? ==> urls.value == Last(history.started) && history.taken == old(history.taken) + [urls.value]
      ensures urls.None? ==> history.taken == old(history.taken)
    {
      TakeKeeps(history);
      history := Step(history, Take);
      if inFlight { return None; }
      inFlight := active.Some?;
      return active;
    }
  }
}
