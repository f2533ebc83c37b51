/** What a write answers, read off the schedule of polls alone. */
module WriterOutcome {
  import opened Wrappers
  import opened Bytes
  import opened SessionWriter

  // ----- the reference: a list of work, done one poll at a time -----

  datatype Work = Sending(count: nat) | Flushing

  function Perform(work: seq<Work>, script: seq<Poll>): Outcome
    decreases script
  {
    if work == [] then Done
    else if script == [] then Cancelled
    else
      match script[0]
      case Pending => Perform(work, script[1..])
      case Failed => IoError
      case Dropped => Cancelled
      case Ready(n) =>
        if work[0].Flushing? then Perform(work[1..], script[1..])
        else if n == 0 then IoError
        else if n >= work[0].count then Perform(work[1..], script[1..])
        else Perform([Sending(work[0].count - n)] + work[1..], script[1..])
  }

  /** What a session owes before it takes a new frame: the rest of a pending frame, and a flush. */
  function Owed(o: Output): seq<Work> {
    if o.pending.Some? then [Sending(|Unwritten(o)|), Flushing]
    else if o.needFlush then [Flushing]
    else []
  }

  // ----- the writer refines it -----

  lemma {:induction false} DrainRefines(o: Output, script: seq<Poll>, later: seq<Work>)
    requires o.pending.Some? && o.offset < |o.pending.value|
    ensures var (p, rest, outcome) := Drain(o, script);
      Perform([Sending(|o.pending.value| - o.offset)] + later, script) == if outcome == Done then Perform(later, rest) else outcome
    decreases |script|
  {
    var need := |o.pending.value| - o.offset;
    var work := [Sending(need)] + later;
    assert work[0] == Sending(need) && work[1..] == later;
    if script != [] {
      match script[0]
      case Pending => DrainRefines(o, script[1..], later);
      case Ready(n) =>
        if n > 0 {
          var count := Min(n, need);
          var next := o.(wire := o.wire + o.pending.value[o.offset..o.offset + count], offset := o.offset + count);
          if n < need {
            DrainRefines(next, script[1..], later);
          } else {
            assert Drain(next, script[1..]) == (next.(pending := None, offset := 0, needFlush := true), script[1..], Done);
          }
        }
      case _ =>
    }
  }

  lemma {:induction false} FlushRefines(o: Output, script: seq<Poll>, later: seq<Work>)
    ensures var (p, rest, outcome) := Flush(o, script);
      Perform([Flushing] + later, script) == if outcome == Done then Perform(later, rest) else outcome
    decreases |script|
  {
    var work := [Flushing] + later;
    assert work[0] == Flushing && work[1..] == later;
    if script != [] && script[0].Pending? { FlushRefines(o, script[1..], later); }
  }

  lemma FinishRefines(o: Output, script: seq<Poll>, later: seq<Work>)
    requires Settled(o)
    ensures var (p, rest, outcome) := FinishOutput(o, script);
      Perform(Owed(o) + later, script) == if outcome == Done then Perform(later, rest) else outcome
  {
    hide Drain, Flush, Perform;
    if o.pending.Some? {
      var (drained, rest, outcome) := Drain(o, script);
      DrainRefines(o, script, [Flushing] + later);
      DrainConserves(o, script);
      assert Owed(o) + later == [Sending(|Unwritten(o)|)] + ([Flushing] + later);
      if outcome == Done { FlushRefines(drained, rest, later); }
    } else if o.needFlush {
      FlushRefines(o, script, later);
    } else {
      assert Owed(o) + later == later;
    }
  }

  /** A write answers what doing the owed work, then the frame and its flush, answers; and takes the frame once the owed work is done. */
  lemma WriteRefines(o: Output, frame: seq<byte>, script: seq<Poll>)
    requires Settled(o) && frame != []
    ensures WriteFrame(o, frame, script).2 == Perform(Owed(o) + [Sending(|frame|), Flushing], script)
    ensures WriteFrame(o, frame, script).1 <==> Perform(Owed(o), script) == Done
  {
    hide Drain, Flush, FinishOutput, Perform;
    var (ready, rest, outcome) := FinishOutput(o, script);
    var tail := [Sending(|frame|), Flushing];
    FinishRefines(o, script, tail);
    FinishRefines(o, script, []);
    assert Owed(o) + [] == Owed(o);
    NoWork(rest);
    FinishConserves(o, script);
    if outcome == Done {
      var loaded := ready.(pending := Some(frame), offset := 0);
      DrainRefines(loaded, rest, [Flushing]);
      assert tail == [Sending(|frame|)] + [Flushing];
      DrainConserves(loaded, rest);
      var (drained, rest', outcome') := Drain(loaded, rest);
      if outcome' == Done {
        FlushRefines(drained, rest', []);
        assert [Flushing] + [] == [Flushing];
        NoWork(Flush(drained, rest').1);
      }
    }
  }

  lemma NoWork(script: seq<Poll>)
    ensures Perform([], script) == Done
  {
  }

  /** Finishing pending output answers what doing the owed work answers. */
  lemma FinishAnswers(o: Output, script: seq<Poll>)
    requires Settled(o)
    ensures FinishOutput(o, script).2 == Perform(Owed(o), script)
  {
    hide Perform, FinishOutput;
    FinishRefines(o, script, []);
    assert Owed(o) + [] == Owed(o);
    NoWork(FinishOutput(o, script).1);
  }

  // ----- what the reference answers -----

  /** Polls that keep the writer going: pending, or ready for at least one byte. */
  predicate Smooth(script: seq<Poll>) {
    forall i :: 0 <= i < |script| ==> script[i].Pending? || (script[i].Ready? && script[i].n > 0)
  }

  function Readies(script: seq<Poll>): nat {
    if script == [] then 0 else Readies(script[1..]) + if script[0].Ready? then 1 else 0
  }

  /** At most one ready poll per byte and one per flush. */
  function Size(work: seq<Work>): nat {
    if work == [] then 0 else Size(work[1..]) + if work[0].Flushing? then 1 else work[0].count
  }

  predicate Real(work: seq<Work>) { forall i :: 0 <= i < |work| ==> work[i].Sending? ==> work[i].count > 0 }

  lemma {:induction false} SmoothFinishes(work: seq<Work>, script: seq<Poll>)
    requires Real(work) && Smooth(script) && Readies(script) >= Size(work)
    ensures Perform(work, script) == Done
    decreases script
  {
    if work != [] {
      assert script != [];
      assert Smooth(script[1..]);
      if script[0].Ready? && work[0].Sending? && script[0].n < work[0].count {
        var left := [Sending(work[0].count - script[0].n)] + work[1..];
        assert left[1..] == work[1..];
        SmoothFinishes(left, script[1..]);
      } else if script[0].Ready? {
        SmoothFinishes(work[1..], script[1..]);
      } else {
        SmoothFinishes(work, script[1..]);
      }
    }
  }

  /**
   A write over a channel that keeps going succeeds: no failure, no drop, no empty write, and a
   ready poll for every byte owed, every byte of the frame and two flushes.
   */
  lemma WriteSucceeds(o: Output, frame: seq<byte>, script: seq<Poll>)
    requires Settled(o) && frame != [] && Smooth(script)
    requires Readies(script) >= |Unwritten(o)| + |frame| + 2
    ensures var (_, took, outcome) := WriteFrame(o, frame, script); took && outcome == Done
  {
    hide WriteFrame, Perform;
    WriteRefines(o, frame, script);
    var tail := [Sending(|frame|), Flushing];
    assert tail[1..] == [Flushing] && [Flushing][1..] == [];
    assert Size([Flushing]) == 1 && Size(tail) == |frame| + 1;
    OwedSize(o, tail);
    OwedSize(o, []);
    assert Owed(o) + [] == Owed(o);
    SmoothFinishes(Owed(o) + tail, script);
    SmoothFinishes(Owed(o), script);
  }

  lemma OwedSize(o: Output, later: seq<Work>)
    requires Settled(o) && Real(later)
    ensures Real(Owed(o) + later) && Size(Owed(o) + later) <= |Unwritten(o)| + 1 + Size(later)
  {
    var all := Owed(o) + later;
    if o.pending.Some? {
      assert all[1..] == [Flushing] + later && all[1..][1..] == later;
    } else if o.needFlush {
      assert all[1..] == later;
    } else {
      assert all == later;
    }
  }

  /** The work left after polls that all made progress; `None` once one of them stopped it. */
  function Left(work: seq<Work>, polls: seq<Poll>): Option<seq<Work>>
    decreases polls
  {
    if polls == [] then Some(work)
    else if work == [] then Some([])
    else
      match polls[0]
      case Pending => Left(work, polls[1..])
      case Ready(n) =>
        if work[0].Flushing? then Left(work[1..], polls[1..])
        else if n == 0 then None
        else if n >= work[0].count then Left(work[1..], polls[1..])
        else Left([Sending(work[0].count - n)] + work[1..], polls[1..])
      case _ => None
  }

  /**
   The answer, by the first poll that settles it: an I/O error exactly on a failure or on an empty
   write, a cancellation exactly on a drop or when the schedule ends first.
   */
  lemma {:induction false} FirstStop(work: seq<Work>, script: seq<Poll>, i: nat)
    requires Real(work) && i <= |script| && Left(work, script[..i]).Some? && Left(work, script[..i]).value != []
    ensures i == |script| ==> Perform(work, script) == Cancelled
    ensures i < |script| && script[i].Failed? ==> Perform(work, script) == IoError
    ensures i < |script| && script[i].Dropped? ==> Perform(work, script) == Cancelled
    ensures i < |script| && script[i] == Ready(0) && Left(work, script[..i]).value[0].Sending? ==> Perform(work, script) == IoError
    decreases i
  {
    if i > 0 {
      assert script[..i][1..] == script[1..][..i - 1] && script[..i][0] == script[0];
      match script[0]
      case Pending => FirstStop(work, script[1..], i - 1);
      case Ready(n) =>
        if work[0].Flushing? || n >= work[0].count {
          LeftNothing(script[1..][..i - 1]);
          FirstStop(work[1..], script[1..], i - 1);
        } else {
          FirstStop([Sending(work[0].count - n)] + work[1..], script[1..], i - 1);
        }
      case _ =>
    }
  }

  lemma LeftNothing(polls: seq<Poll>)
    ensures Left([], polls) == Some([])
  {
  }

  /** Work is left after `i` polls, and poll `i`, or the end of the schedule, gives `outcome`. */
  ghost predicate StopsAt(work: seq<Work>, script: seq<Poll>, i: nat, outcome: Outcome) {
    && i <= |script| && Left(work, script[..i]).Some? && Left(work, script[..i]).value != []
    && match outcome
       case Done => false
       case Cancelled => i == |script| || script[i].Dropped?
       case IoError =>
         i < |script| && (script[i].Failed? || (script[i] == Ready(0) && Left(work, script[..i]).value[0].Sending?))
  }

  lemma {:induction false} DoneAt(work: seq<Work>, script: seq<Poll>, i: nat)
    requires i <= |script| && Left(work, script[..i]) == Some([])
    ensures Perform(work, script) == Done
    decreases i
  {
    if i > 0 && work != [] {
      assert script[..i][1..] == script[1..][..i - 1] && script[..i][0] == script[0];
      match script[0]
      case Pending => DoneAt(work, script[1..], i - 1);
      case Ready(n) =>
        if work[0].Flushing? || n >= work[0].count { DoneAt(work[1..], script[1..], i - 1); }
        else { DoneAt([Sending(work[0].count - n)] + work[1..], script[1..], i - 1); }
      case _ =>
    }
  }

  /** The poll that settles the answer. */
  lemma {:induction false} Settling(work: seq<Work>, script: seq<Poll>) returns (i: nat)
    requires Real(work)
    ensures i <= |script|
    ensures if Perform(work, script) == Done then Left(work, script[..i]) == Some([])
            else StopsAt(work, script, i, Perform(work, script))
    decreases script
  {
    i := 0;
    assert script[..0] == [];
    if work != [] && script != [] && (script[0].Pending? || (script[0].Ready? && (work[0].Flushing? || script[0].n > 0))) {
      var next := if script[0].Pending? then work
                  else if work[0].Flushing? || script[0].n >= work[0].count then work[1..]
                  else [Sending(work[0].count - script[0].n)] + work[1..];
      var j := Settling(next, script[1..]);
      i := j + 1;
      assert script[..i][1..] == script[1..][..j] && script[..i][0] == script[0];
    }
  }

  /** The answer exactly: done, failed and cancelled schedules, told apart by the first poll that settles the matter. */
  lemma OutcomeExact(work: seq<Work>, script: seq<Poll>)
    requires Real(work)
    ensures Perform(work, script) == Done <==> exists i :: 0 <= i <= |script| && Left(work, script[..i]) == Some([])
    ensures Perform(work, script) == IoError <==> exists i: nat :: StopsAt(work, script, i, IoError)
    ensures Perform(work, script) == Cancelled <==> exists i: nat :: StopsAt(work, script, i, Cancelled)
  {
    hide Perform, Left;
    var i := Settling(work, script);
    forall j | 0 <= j <= |script| && Left(work, script[..j]) == Some([]) ensures Perform(work, script) == Done { DoneAt(work, script, j); }
    forall j: nat, outcome | StopsAt(work, script, j, outcome) ensures Perform(work, script) == outcome { FirstStop(work, script, j); }
  }
}
