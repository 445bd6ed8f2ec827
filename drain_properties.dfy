/**
 * What a drain run guarantees, stated over the Drain and ExecuteSpec
 * functions that the command's methods are proved against.
 */
module DrainProperties {
  import opened Wrappers
  import opened Queue
  import opened Engine
  import opened Decimal
  import opened Command

  /** The engine calls in a trace, in order. */
  function CallsOf(t: seq<Effect>): seq<Call>
  {
    if t == [] then []
    else (if t[0].Reindex? then [t[0].call] else []) + CallsOf(t[1..])
  }

  /** The queue deletions in a trace, in order. */
  function DeletesOf(t: seq<Effect>): seq<QueueItem>
  {
    if t == [] then []
    else (if t[0].Delete? then [t[0].item] else []) + DeletesOf(t[1..])
  }

  /** Every deletion comes right after a call for the same row that returned normally. */
  predicate AcksFollowSuccess(t: seq<Effect>, workspaceEnabled: WorkspacePolicy)
  {
    forall i :: 0 <= i < |t| && t[i].Delete? ==>
      0 < i && t[i - 1] == Reindex(CallFor(t[i].item, workspaceEnabled), None)
  }

  /** The effects a run adds to the trace. */
  function NewEffects(st: WorkerState, engine: Oracle, workspaceEnabled: WorkspacePolicy): seq<Effect>
    requires |st.trace| <= |Drain(st, engine, workspaceEnabled).trace|
  {
    Drain(st, engine, workspaceEnabled).trace[|st.trace|..]
  }

  // ---------------------------------------------------------------------------
  // Trace bookkeeping

  lemma {:induction false} CallsOfAppend(a: seq<Effect>, b: seq<Effect>)
    ensures CallsOf(a + b) == CallsOf(a) + CallsOf(b)
  {
    if a == [] {
      assert a + b == b;
    } else {
      var head := if a[0].Reindex? then [a[0].call] else [];
      assert (a + b)[0] == a[0];
      assert (a + b)[1..] == a[1..] + b;
      CallsOfAppend(a[1..], b);
      calc {
        CallsOf(a + b);
        head + CallsOf(a[1..] + b);
        head + (CallsOf(a[1..]) + CallsOf(b));
        (head + CallsOf(a[1..])) + CallsOf(b);
        CallsOf(a) + CallsOf(b);
      }
    }
  }

  lemma {:induction false} DeletesOfAppend(a: seq<Effect>, b: seq<Effect>)
    ensures DeletesOf(a + b) == DeletesOf(a) + DeletesOf(b)
  {
    if a == [] {
      assert a + b == b;
    } else {
      var head := if a[0].Delete? then [a[0].item] else [];
      assert (a + b)[0] == a[0];
      assert (a + b)[1..] == a[1..] + b;
      DeletesOfAppend(a[1..], b);
      calc {
        DeletesOf(a + b);
        head + DeletesOf(a[1..] + b);
        head + (DeletesOf(a[1..]) + DeletesOf(b));
        (head + DeletesOf(a[1..])) + DeletesOf(b);
        DeletesOf(a) + DeletesOf(b);
      }
    }
  }

  /** The calls and deletions of a two-effect trace. */
  lemma TwoEffects(a: Effect, b: Effect)
    ensures CallsOf([a, b]) == (if a.Reindex? then [a.call] else []) + (if b.Reindex? then [b.call] else [])
    ensures DeletesOf([a, b]) == (if a.Delete? then [a.item] else []) + (if b.Delete? then [b.item] else [])
  {
    assert [a, b][1..] == [b];
    assert [b][1..] == [];
    assert CallsOf([b]) == (if b.Reindex? then [b.call] else []) + CallsOf([]);
    assert DeletesOf([b]) == (if b.Delete? then [b.item] else []) + DeletesOf([]);
  }

  /** Acknowledging `rows` calls the engine once per row, in order, each on the row's own scope. */
  lemma {:induction false} AckedCalls(rows: seq<QueueItem>, workspaceEnabled: WorkspacePolicy)
    ensures |CallsOf(Acked(rows, workspaceEnabled))| == |rows|
    ensures forall k :: 0 <= k < |rows| ==> CallsOf(Acked(rows, workspaceEnabled))[k] == CallFor(rows[k], workspaceEnabled)
  {
    if rows != [] {
      var init, last := rows[..|rows| - 1], rows[|rows| - 1];
      AckedCalls(init, workspaceEnabled);
      var tail := [Reindex(CallFor(last, workspaceEnabled), None), Delete(last)];
      assert Acked(rows, workspaceEnabled) == Acked(init, workspaceEnabled) + tail;
      CallsOfAppend(Acked(init, workspaceEnabled), tail);
      assert CallsOf(tail) == [CallFor(last, workspaceEnabled)] by {
        TwoEffects(Reindex(CallFor(last, workspaceEnabled), None), Delete(last));
      }
      var calls := CallsOf(Acked(rows, workspaceEnabled));
      assert calls == CallsOf(Acked(init, workspaceEnabled)) + [CallFor(last, workspaceEnabled)];
      forall k | 0 <= k < |rows|
        ensures calls[k] == CallFor(rows[k], workspaceEnabled)
      {
        if k < |init| {
          assert rows[k] == init[k];
        }
      }
    }
  }

  /** Acknowledging `rows` deletes exactly their triples, in order. */
  lemma {:induction false} AckedDeletes(rows: seq<QueueItem>, workspaceEnabled: WorkspacePolicy)
    ensures DeletesOf(Acked(rows, workspaceEnabled)) == rows
  {
    if rows != [] {
      var init, last := rows[..|rows| - 1], rows[|rows| - 1];
      AckedDeletes(init, workspaceEnabled);
      var tail := [Reindex(CallFor(last, workspaceEnabled), None), Delete(last)];
      DeletesOfAppend(Acked(init, workspaceEnabled), tail);
      TwoEffects(Reindex(CallFor(last, workspaceEnabled), None), Delete(last));
      assert init + [last] == rows;
    }
  }

  /** Acknowledging rows only calls the engine and deletes: it never touches the lock or the capture switch. */
  lemma {:induction false} AckedOnlyCallsAndDeletes(rows: seq<QueueItem>, workspaceEnabled: WorkspacePolicy)
    ensures forall e :: e in Acked(rows, workspaceEnabled) ==> e.Reindex? || e.Delete?
  {
    if rows != [] {
      AckedOnlyCallsAndDeletes(rows[..|rows| - 1], workspaceEnabled);
    }
  }

  /** Within the acknowledged prefix, each deletion follows a successful call for the same row. */
  lemma {:induction false} AckedAcksFollowSuccess(rows: seq<QueueItem>, workspaceEnabled: WorkspacePolicy)
    ensures AcksFollowSuccess(Acked(rows, workspaceEnabled), workspaceEnabled)
    ensures Acked(rows, workspaceEnabled) != [] ==> Acked(rows, workspaceEnabled)[0].Reindex?
  {
    if rows != [] {
      var init, last := rows[..|rows| - 1], rows[|rows| - 1];
      AckedAcksFollowSuccess(init, workspaceEnabled);
      var a := Acked(init, workspaceEnabled);
      var t := a + [Reindex(CallFor(last, workspaceEnabled), None), Delete(last)];
      assert Acked(rows, workspaceEnabled) == t;
      forall i | 0 <= i < |t| && t[i].Delete?
        ensures 0 < i && t[i - 1] == Reindex(CallFor(t[i].item, workspaceEnabled), None)
      {
        if i < |a| {
          assert t[i] == a[i] && t[i - 1] == a[i - 1];
        }
      }
    }
  }

  /** A failing row has a triple of its own: an equal row earlier would have failed first. */
  lemma FailingRowIsNew(rows: seq<QueueItem>, engine: Oracle, workspaceEnabled: WorkspacePolicy)
    requires FirstFailure(rows, engine, workspaceEnabled) < |rows|
    ensures rows[FirstFailure(rows, engine, workspaceEnabled)] !in rows[..FirstFailure(rows, engine, workspaceEnabled)]
  {
    FirstFailureSpec(rows, engine, workspaceEnabled);
  }

  // ---------------------------------------------------------------------------
  // The lock and count checks

  /** With the lock file present, the run only reports that another process is busy. */
  lemma SkippedWhenLocked(st: WorkerState, engine: Oracle, workspaceEnabled: WorkspacePolicy)
    requires st.locked
    ensures var r := Drain(st, engine, workspaceEnabled);
            && r.locked && r.queue == st.queue && r.trace == st.trace
            && r.captureEnabled == st.captureEnabled
            && r.output == st.output + [SkipMessage]
  {
  }

  /** With an empty queue, no lock is taken and nothing else changes either. */
  lemma NothingToDoWhenEmpty(st: WorkerState, engine: Oracle, workspaceEnabled: WorkspacePolicy)
    requires !st.locked && st.queue == []
    ensures var r := Drain(st, engine, workspaceEnabled);
            && !r.locked && r.queue == [] && r.trace == st.trace
            && r.captureEnabled == st.captureEnabled
            && r.output == st.output + [NothingToDoMessage]
  {
  }

  // ---------------------------------------------------------------------------
  // Runs that take the lock

  /** The loop's effects are engine calls and deletions only. */
  lemma LoopOnlyCallsAndDeletes(rows: seq<QueueItem>, engine: Oracle, workspaceEnabled: WorkspacePolicy)
    ensures forall e :: e in LoopEffects(rows, engine, workspaceEnabled) ==> e.Reindex? || e.Delete?
    ensures EndsUncaught(rows, engine, workspaceEnabled) ==> |LoopEffects(rows, engine, workspaceEnabled)| > 0
  {
    AckedOnlyCallsAndDeletes(rows[..FirstFailure(rows, engine, workspaceEnabled)], workspaceEnabled);
  }

  /**
   * A run that takes the lock releases it on the success path and on the
   * \Exception path, and only there: a throwable that passes the catch clause
   * leaves the lock file in place. The run's effects open with taking the
   * lock and disabling capture, hold only calls and deletions after that, and
   * end with releasing the lock exactly when nothing escaped.
   */
  lemma LockReleasedAfterRun(st: WorkerState, engine: Oracle, workspaceEnabled: WorkspacePolicy)
    requires !st.locked && st.queue != []
    ensures Drain(st, engine, workspaceEnabled).locked <==> EndsUncaught(st.queue, engine, workspaceEnabled)
    ensures !Drain(st, engine, workspaceEnabled).captureEnabled
    ensures var t := NewEffects(st, engine, workspaceEnabled);
            && |t| >= 3 && t[0] == TakeLock && t[1] == CaptureOff
            && (t[|t| - 1] == ReleaseLock <==> !EndsUncaught(st.queue, engine, workspaceEnabled))
            && forall i :: 2 <= i < |t| - 1 ==> t[i].Reindex? || t[i].Delete?
  {
    var rows := st.queue;
    LoopOnlyCallsAndDeletes(rows, engine, workspaceEnabled);
    var loop := LoopEffects(rows, engine, workspaceEnabled);
    var close := if EndsUncaught(rows, engine, workspaceEnabled) then [] else [ReleaseLock];
    var t := NewEffects(st, engine, workspaceEnabled);
    assert t == [TakeLock, CaptureOff] + loop + close;
    if close == [] {
      assert t[|t| - 1] == loop[|loop| - 1];
      assert loop[|loop| - 1] in loop;
    }
    forall i | 2 <= i < |t| - 1
      ensures t[i].Reindex? || t[i].Delete?
    {
      assert t[i] == loop[i - 2];
      assert loop[i - 2] in loop;
    }
  }

  /** No engine call is made before the capture switch is turned off. */
  lemma CaptureOffBeforeEngineCalls(st: WorkerState, engine: Oracle, workspaceEnabled: WorkspacePolicy)
    requires !st.locked && st.queue != []
    ensures var t := NewEffects(st, engine, workspaceEnabled);
            forall i :: 0 <= i < |t| && t[i].Reindex? ==> 1 < i && t[1] == CaptureOff
  {
    LockReleasedAfterRun(st, engine, workspaceEnabled);
  }

  /** Effects without deletions around a stretch keep each deletion in it next to its call. */
  lemma AcksFollowSuccessFramed(head: seq<Effect>, acked: seq<Effect>, tail: seq<Effect>, workspaceEnabled: WorkspacePolicy)
    requires AcksFollowSuccess(acked, workspaceEnabled)
    requires acked != [] ==> acked[0].Reindex?
    requires forall k :: 0 <= k < |head| ==> !head[k].Delete?
    requires forall k :: 0 <= k < |tail| ==> !tail[k].Delete?
    ensures AcksFollowSuccess(head + acked + tail, workspaceEnabled)
  {
    var t := head + acked + tail;
    forall i | 0 <= i < |t|
      ensures t[i].Delete? ==> 0 < i && t[i - 1] == Reindex(CallFor(t[i].item, workspaceEnabled), None)
    {
      if i < |head| {
        assert t[i] == head[i];
      } else if i >= |head| + |acked| {
        assert t[i] == tail[i - |head| - |acked|];
      } else {
        assert t[i] == acked[i - |head|];
        if i != |head| {
          assert t[i - 1] == acked[i - |head| - 1];
        }
      }
    }
  }

  /** In the loop's effects each deletion follows the successful call for its row, and the first effect is a call. */
  lemma LoopAcksFollowSuccess(rows: seq<QueueItem>, engine: Oracle, workspaceEnabled: WorkspacePolicy)
    ensures AcksFollowSuccess(LoopEffects(rows, engine, workspaceEnabled), workspaceEnabled)
    ensures LoopEffects(rows, engine, workspaceEnabled) != [] ==> LoopEffects(rows, engine, workspaceEnabled)[0].Reindex?
  {
    var n := FirstFailure(rows, engine, workspaceEnabled);
    var acked := Acked(rows[..n], workspaceEnabled);
    AckedAcksFollowSuccess(rows[..n], workspaceEnabled);
    if n < |rows| {
      var c := CallFor(rows[n], workspaceEnabled);
      assert LoopEffects(rows, engine, workspaceEnabled) == acked + [Reindex(c, Outcome(engine, c))];
      AcksFollowSuccessFramed([], acked, [Reindex(c, Outcome(engine, c))], workspaceEnabled);
      assert [] + acked == acked;
    } else {
      assert LoopEffects(rows, engine, workspaceEnabled) == acked;
    }
  }

  /** Rows are deleted only right after their own call returned normally. */
  lemma AckAfterSuccess(st: WorkerState, engine: Oracle, workspaceEnabled: WorkspacePolicy)
    requires !st.locked && st.queue != []
    ensures AcksFollowSuccess(NewEffects(st, engine, workspaceEnabled), workspaceEnabled)
  {
    var rows := st.queue;
    var loop := LoopEffects(rows, engine, workspaceEnabled);
    LoopAcksFollowSuccess(rows, engine, workspaceEnabled);
    var close := if EndsUncaught(rows, engine, workspaceEnabled) then [] else [ReleaseLock];
    assert NewEffects(st, engine, workspaceEnabled) == [TakeLock, CaptureOff] + loop + close by {
      DrainAfterRun(st, engine, workspaceEnabled);
    }
    AcksFollowSuccessFramed([TakeLock, CaptureOff], loop, close, workspaceEnabled);
  }

  /** A run's new effects are its RunEffects; their calls and deletions are the loop's. */
  lemma NewEffectsOfRun(st: WorkerState, engine: Oracle, workspaceEnabled: WorkspacePolicy)
    requires !st.locked && st.queue != []
    ensures NewEffects(st, engine, workspaceEnabled) == RunEffects(st.queue, engine, workspaceEnabled)
    ensures CallsOf(NewEffects(st, engine, workspaceEnabled)) == CallsOf(LoopEffects(st.queue, engine, workspaceEnabled))
    ensures DeletesOf(NewEffects(st, engine, workspaceEnabled)) == DeletesOf(LoopEffects(st.queue, engine, workspaceEnabled))
  {
    var loop := LoopEffects(st.queue, engine, workspaceEnabled);
    var close := if EndsUncaught(st.queue, engine, workspaceEnabled) then [] else [ReleaseLock];
    CallsOfAppend([TakeLock, CaptureOff] + loop, close);
    CallsOfAppend([TakeLock, CaptureOff], loop);
    DeletesOfAppend([TakeLock, CaptureOff] + loop, close);
    DeletesOfAppend([TakeLock, CaptureOff], loop);
    TwoEffects(TakeLock, CaptureOff);
    assert [ReleaseLock][1..] == [];
  }

  /** The loop's calls are those for rows 0..n, n being the first failure (or all rows). */
  lemma LoopCalls(rows: seq<QueueItem>, engine: Oracle, workspaceEnabled: WorkspacePolicy)
    ensures var n := FirstFailure(rows, engine, workspaceEnabled);
            var calls := CallsOf(LoopEffects(rows, engine, workspaceEnabled));
            && |calls| == (if n < |rows| then n + 1 else n)
            && forall k :: 0 <= k < |calls| ==> calls[k] == CallFor(rows[k], workspaceEnabled)
  {
    var n := FirstFailure(rows, engine, workspaceEnabled);
    var acked := Acked(rows[..n], workspaceEnabled);
    var calls := CallsOf(LoopEffects(rows, engine, workspaceEnabled));
    AckedCalls(rows[..n], workspaceEnabled);
    if n < |rows| {
      var c := CallFor(rows[n], workspaceEnabled);
      var failing := Reindex(c, Outcome(engine, c));
      assert LoopEffects(rows, engine, workspaceEnabled) == acked + [failing];
      CallsOfAppend(acked, [failing]);
      assert CallsOf([failing]) == [c] by {
        assert [failing][1..] == [];
      }
      assert calls == CallsOf(acked) + [c];
    } else {
      assert LoopEffects(rows, engine, workspaceEnabled) == acked;
    }
    forall k | 0 <= k < |calls|
      ensures calls[k] == CallFor(rows[k], workspaceEnabled)
    {
      if k < n {
        assert rows[..n][k] == rows[k];
      }
    }
  }

  /** The loop deletes exactly the rows before the first failure, in order. */
  lemma LoopDeletes(rows: seq<QueueItem>, engine: Oracle, workspaceEnabled: WorkspacePolicy)
    ensures DeletesOf(LoopEffects(rows, engine, workspaceEnabled)) == rows[..FirstFailure(rows, engine, workspaceEnabled)]
  {
    var n := FirstFailure(rows, engine, workspaceEnabled);
    var acked := Acked(rows[..n], workspaceEnabled);
    AckedDeletes(rows[..n], workspaceEnabled);
    if n < |rows| {
      var c := CallFor(rows[n], workspaceEnabled);
      DeletesOfAppend(acked, [Reindex(c, Outcome(engine, c))]);
      assert [Reindex(c, Outcome(engine, c))][1..] == [];
    } else {
      assert acked + [] == acked;
    }
  }

  /**
   * When no engine call fails, every queued row is reindexed once, in queue
   * order, on its own scope, and deleted; the queue ends empty and the run
   * reports completion.
   */
  lemma CompleteRunDrainsQueue(st: WorkerState, engine: Oracle, workspaceEnabled: WorkspacePolicy)
    requires !st.locked && st.queue != []
    requires forall k :: 0 <= k < |st.queue| ==> Succeeds(engine, workspaceEnabled, st.queue[k])
    ensures var r := Drain(st, engine, workspaceEnabled);
            var calls := CallsOf(NewEffects(st, engine, workspaceEnabled));
            && r.queue == [] && !r.locked
            && |calls| == |st.queue|
            && (forall k :: 0 <= k < |st.queue| ==> calls[k] == CallFor(st.queue[k], workspaceEnabled))
            && DeletesOf(NewEffects(st, engine, workspaceEnabled)) == st.queue
            && r.output == st.output + [ProcessingMessage(|st.queue|), CompleteMessage]
  {
    var rows := st.queue;
    var r := Drain(st, engine, workspaceEnabled);
    FirstFailureAt(rows, engine, workspaceEnabled, |rows|);
    assert rows[..|rows|] == rows;
    assert r.queue == [] && !r.locked && r.output == st.output + [ProcessingMessage(|rows|), CompleteMessage] by {
      assert FailureOf(rows, engine, workspaceEnabled) == None;
      DrainAfterRun(st, engine, workspaceEnabled);
      WithoutCovered(rows, rows);
    }
    NewEffectsOfRun(st, engine, workspaceEnabled);
    var calls := CallsOf(NewEffects(st, engine, workspaceEnabled));
    assert |calls| == |rows| && forall k :: 0 <= k < |rows| ==> calls[k] == CallFor(rows[k], workspaceEnabled) by {
      LoopCalls(rows, engine, workspaceEnabled);
    }
    assert DeletesOf(NewEffects(st, engine, workspaceEnabled)) == rows by {
      LoopDeletes(rows, engine, workspaceEnabled);
    }
  }

  /**
   * Fail fast: when the engine throws on row n (counting from 0), exactly the
   * rows before it are acknowledged, the engine is called for rows 0..n and
   * never after, and the failing row stays queued. An \Exception is
   * reported with its message and code and the lock is released; any other
   * throwable passes the catch clause, so nothing more is written and the
   * lock file stays.
   */
  lemma FailFastPrefixDeletion(st: WorkerState, engine: Oracle, workspaceEnabled: WorkspacePolicy, n: nat)
    requires !st.locked && n < |st.queue|
    requires forall k :: 0 <= k < n ==> Succeeds(engine, workspaceEnabled, st.queue[k])
    requires !Succeeds(engine, workspaceEnabled, st.queue[n])
    ensures var r := Drain(st, engine, workspaceEnabled);
            var calls := CallsOf(NewEffects(st, engine, workspaceEnabled));
            && r.queue == Without(st.queue, st.queue[..n])
            && st.queue[n] in r.queue
            && |calls| == n + 1
            && (forall k :: 0 <= k <= n ==> calls[k] == CallFor(st.queue[k], workspaceEnabled))
            && DeletesOf(NewEffects(st, engine, workspaceEnabled)) == st.queue[..n]
            && (r.locked <==> engine[CallFor(st.queue[n], workspaceEnabled)] == Fatal)
            && r.output == st.output + [ProcessingMessage(|st.queue|)]
               + (if engine[CallFor(st.queue[n], workspaceEnabled)].Exception?
                  then [ErrorMessage(engine[CallFor(st.queue[n], workspaceEnabled)].error)]
                  else [])
  {
    var rows := st.queue;
    FirstFailureAt(rows, engine, workspaceEnabled, n);
    FailingRowIsNew(rows, engine, workspaceEnabled);
    WithoutMembers(rows, rows[..n], rows[n]);
    NewEffectsOfRun(st, engine, workspaceEnabled);
    LoopCalls(rows, engine, workspaceEnabled);
    LoopDeletes(rows, engine, workspaceEnabled);
  }

  /** With distinct triples in the queue, a failure on row n leaves exactly rows n.. queued, in order. */
  lemma FailFastLeavesSuffix(st: WorkerState, engine: Oracle, workspaceEnabled: WorkspacePolicy, n: nat)
    requires !st.locked && n < |st.queue| && Distinct(st.queue)
    requires forall k :: 0 <= k < n ==> Succeeds(engine, workspaceEnabled, st.queue[k])
    requires !Succeeds(engine, workspaceEnabled, st.queue[n])
    ensures Drain(st, engine, workspaceEnabled).queue == st.queue[n..]
    ensures Drain(st, engine, workspaceEnabled).locked <==> engine[CallFor(st.queue[n], workspaceEnabled)] == Fatal
  {
    FailFastPrefixDeletion(st, engine, workspaceEnabled, n);
    WithoutPrefix(st.queue, n);
  }

  /**
   * A throwable that is not an \Exception on row n: the rows before it are
   * deleted, the lock file stays, the count line is the last line written,
   * the lock is never released, and the throwable leaves updateReferenceIndex.
   */
  lemma UncaughtErrorKeepsLock(st: WorkerState, engine: Oracle, workspaceEnabled: WorkspacePolicy, n: nat)
    requires !st.locked && n < |st.queue|
    requires forall k :: 0 <= k < n ==> Succeeds(engine, workspaceEnabled, st.queue[k])
    requires Outcome(engine, CallFor(st.queue[n], workspaceEnabled)) == Some(Fatal)
    ensures var r := Drain(st, engine, workspaceEnabled);
            && r.locked && DrainEscapes(st, engine, workspaceEnabled)
            && r.queue == Without(st.queue, st.queue[..n])
            && r.output == st.output + [ProcessingMessage(|st.queue|)]
            && ReleaseLock !in NewEffects(st, engine, workspaceEnabled)
  {
    FailFastPrefixDeletion(st, engine, workspaceEnabled, n);
    LockReleasedAfterRun(st, engine, workspaceEnabled);
    var t := NewEffects(st, engine, workspaceEnabled);
    forall i | 0 <= i < |t|
      ensures t[i] != ReleaseLock
    {
    }
  }

  /**
   * Once a throwable has escaped, the lock file is left behind: every later
   * run, whatever is queued by then and however the engine behaves, only
   * reports that another process is busy.
   */
  lemma UncaughtErrorBlocksLaterRuns(st: WorkerState, engine: Oracle, workspaceEnabled: WorkspacePolicy,
                                     queued: seq<QueueItem>, laterEngine: Oracle)
    requires DrainEscapes(st, engine, workspaceEnabled)
    ensures var once := Drain(st, engine, workspaceEnabled).(queue := queued);
            Drain(once, laterEngine, workspaceEnabled) == once.(output := once.output + [SkipMessage])
  {
    DrainAfterRun(st, engine, workspaceEnabled);
  }

  /** The row whose call throws is never deleted by the run. */
  lemma FailingRowNeverDeleted(st: WorkerState, engine: Oracle, workspaceEnabled: WorkspacePolicy)
    requires !st.locked && st.queue != []
    ensures forall x :: x in DeletesOf(NewEffects(st, engine, workspaceEnabled)) ==> Succeeds(engine, workspaceEnabled, x)
  {
    var rows := st.queue;
    var n := FirstFailure(rows, engine, workspaceEnabled);
    FirstFailureSpec(rows, engine, workspaceEnabled);
    if n < |rows| {
      FailFastPrefixDeletion(st, engine, workspaceEnabled, n);
    } else {
      CompleteRunDrainsQueue(st, engine, workspaceEnabled);
    }
  }

  /**
   * Draining twice with no new rows and no failures: the second run finds the
   * queue empty and, the lock having been released, only says so.
   */
  lemma SecondRunIsNoOp(st: WorkerState, engine: Oracle, workspaceEnabled: WorkspacePolicy)
    requires !st.locked
    requires forall k :: 0 <= k < |st.queue| ==> Succeeds(engine, workspaceEnabled, st.queue[k])
    ensures var once := Drain(st, engine, workspaceEnabled);
            Drain(once, engine, workspaceEnabled) == once.(output := once.output + [NothingToDoMessage])
  {
    if st.queue != [] {
      CompleteRunDrainsQueue(st, engine, workspaceEnabled);
    }
  }

  // ---------------------------------------------------------------------------
  // execute

  /** --force turns capture off and runs the full index; it never reads or writes the lock or the queue. */
  lemma ForceModeBypassesQueue(st: WorkerState, options: Options, engine: Oracle, workspaceEnabled: WorkspacePolicy)
    requires options.force
    ensures var r := ExecuteSpec(st, options, engine, workspaceEnabled);
            && r.locked == st.locked && r.queue == st.queue && r.output == st.output
            && !r.captureEnabled
            && r.trace == st.trace + [CaptureOff, FullIndex(options.check, !options.silent)]
  {
  }

  /** Without --force, execute prints the title and drains the queue. */
  lemma QueueModeDrains(st: WorkerState, options: Options, engine: Oracle, workspaceEnabled: WorkspacePolicy)
    requires !options.force
    ensures ExecuteSpec(st, options, engine, workspaceEnabled)
         == Drain(st.(output := st.output + [Description]), engine, workspaceEnabled)
  {
  }
}
