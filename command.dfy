/**
 * The `referenceindex:update` console command (AsyncReferenceIndexCommand):
 * the queue-drain worker `updateReferenceIndex`, its file lock and the
 * `execute` dispatcher that chooses between draining the queue and a direct,
 * unqueued index run.
 */
module Command {
  import opened Wrappers
  import opened Queue
  import opened Engine
  import opened Decimal

  const Description := "Update the reference index"
  const SkipMessage := "Another process is updating the reference index - skipping"
  const NothingToDoMessage := "No reference indexing tasks queued - nothing to do."
  const CompleteMessage := "Reference indexing complete!"

  function ProcessingMessage(count: nat): string
  {
    "Processing reference index for " + NatToString(count) + " record(s)"
  }

  function ErrorMessage(e: EngineError): string
  {
    "ERROR! " + e.message + " (" + IntToString(e.code) + ")"
  }

  /** The observable side effects of the command, in the order they happen. */
  datatype Effect =
    | TakeLock                                       // touch() of the lock file
    | ReleaseLock                                    // unlink() of the lock file
    | CaptureOff                                     // captureReferenceIndex(false)
    | Reindex(call: Call, outcome: Option<Thrown>)   // one updateRefIndexTable call
    | Delete(item: QueueItem)                        // one DELETE on the queue table
    | FullIndex(checkOnly: bool, verbose: bool)      // ReferenceIndex::updateIndex

  /** The command line options --force, --check and --silent. */
  datatype Options = Options(force: bool, check: bool, silent: bool)

  /**
   * Everything the command reads or changes: whether the lock file exists,
   * the queue table, the global capture switch, the console output and the
   * trace of side effects.
   */
  datatype WorkerState = WorkerState(
    locked: bool,
    queue: seq<QueueItem>,
    captureEnabled: bool,
    output: seq<string>,
    trace: seq<Effect>)

  /** The effects of processing `rows` when every engine call returns: call, then delete, row by row. */
  function Acked(rows: seq<QueueItem>, workspaceEnabled: WorkspacePolicy): seq<Effect>
  {
    if rows == [] then []
    else
      var last := rows[|rows| - 1];
      Acked(rows[..|rows| - 1], workspaceEnabled)
        + [Reindex(CallFor(last, workspaceEnabled), None), Delete(last)]
  }

  lemma AckedStep(rows: seq<QueueItem>, i: nat, workspaceEnabled: WorkspacePolicy)
    requires i < |rows|
    ensures Acked(rows[..i + 1], workspaceEnabled)
         == Acked(rows[..i], workspaceEnabled) + [Reindex(CallFor(rows[i], workspaceEnabled), None), Delete(rows[i])]
  {
    assert rows[..i + 1][..i] == rows[..i];
  }

  /** The effects of the foreach loop: the rows before the first failure are acknowledged, the failing one is only called. */
  function LoopEffects(rows: seq<QueueItem>, engine: Oracle, workspaceEnabled: WorkspacePolicy): seq<Effect>
  {
    var n := FirstFailure(rows, engine, workspaceEnabled);
    Acked(rows[..n], workspaceEnabled)
      + if n < |rows| then
          var c := CallFor(rows[n], workspaceEnabled);
          [Reindex(c, Outcome(engine, c))]
        else []
  }

  /** Before the first row nothing is deleted and nothing is recorded. */
  lemma LoopStart(rows: seq<QueueItem>, t0: seq<Effect>, workspaceEnabled: WorkspacePolicy)
    ensures Without(rows, rows[..0]) == rows
    ensures t0 + Acked(rows[..0], workspaceEnabled) == t0
  {
    assert rows[..0] == [];
    WithoutDisjoint(rows, rows[..0]);
  }

  /** A row whose call returns extends the acknowledged prefix by one row. */
  lemma LoopAdvances(rows: seq<QueueItem>, t0: seq<Effect>, engine: Oracle, workspaceEnabled: WorkspacePolicy, i: nat)
    requires i < |rows| && i <= FirstFailure(rows, engine, workspaceEnabled)
    requires Succeeds(engine, workspaceEnabled, rows[i])
    ensures i + 1 <= FirstFailure(rows, engine, workspaceEnabled)
    ensures Without(Without(rows, rows[..i]), [rows[i]]) == Without(rows, rows[..i + 1])
    ensures t0 + Acked(rows[..i], workspaceEnabled) + [Reindex(CallFor(rows[i], workspaceEnabled), None), Delete(rows[i])]
         == t0 + Acked(rows[..i + 1], workspaceEnabled)
  {
    FirstFailureNext(rows, engine, workspaceEnabled, i);
    WithoutStep(rows, rows[..i], rows[i]);
    assert rows[..i + 1] == rows[..i] + [rows[i]];
    AckedStep(rows, i, workspaceEnabled);
  }

  /** A row whose call throws ends the loop with the loop's effects and its failure. */
  lemma LoopStopsAt(rows: seq<QueueItem>, t0: seq<Effect>, engine: Oracle, workspaceEnabled: WorkspacePolicy, i: nat)
    requires i < |rows| && i <= FirstFailure(rows, engine, workspaceEnabled)
    requires !Succeeds(engine, workspaceEnabled, rows[i])
    ensures FirstFailure(rows, engine, workspaceEnabled) == i
    ensures t0 + Acked(rows[..i], workspaceEnabled)
              + [Reindex(CallFor(rows[i], workspaceEnabled), Outcome(engine, CallFor(rows[i], workspaceEnabled)))]
         == t0 + LoopEffects(rows, engine, workspaceEnabled)
    ensures FailureOf(rows, engine, workspaceEnabled) == Outcome(engine, CallFor(rows[i], workspaceEnabled))
  {
    FirstFailureStop(rows, engine, workspaceEnabled, i);
  }

  /** Running off the end of the queue: every row was acknowledged and there is no failure. */
  lemma LoopCompletes(rows: seq<QueueItem>, t0: seq<Effect>, engine: Oracle, workspaceEnabled: WorkspacePolicy)
    requires |rows| <= FirstFailure(rows, engine, workspaceEnabled)
    ensures FirstFailure(rows, engine, workspaceEnabled) == |rows|
    ensures t0 + Acked(rows[..|rows|], workspaceEnabled) == t0 + LoopEffects(rows, engine, workspaceEnabled)
    ensures FailureOf(rows, engine, workspaceEnabled).None?
  {
    FirstFailureStop(rows, engine, workspaceEnabled, |rows|);
  }

  /** What ends the loop early, if anything does. */
  function FailureOf(rows: seq<QueueItem>, engine: Oracle, workspaceEnabled: WorkspacePolicy): Option<Thrown>
  {
    var n := FirstFailure(rows, engine, workspaceEnabled);
    if n < |rows| then Outcome(engine, CallFor(rows[n], workspaceEnabled)) else None
  }

  /**
   * The loop ends with a throwable that is not an \Exception: it passes the
   * catch clause, so neither the closing line nor the unlock is reached.
   */
  predicate EndsUncaught(rows: seq<QueueItem>, engine: Oracle, workspaceEnabled: WorkspacePolicy)
  {
    FailureOf(rows, engine, workspaceEnabled) == Some(Fatal)
  }

  /** The effects of a run that gets past the lock and count checks. */
  function RunEffects(rows: seq<QueueItem>, engine: Oracle, workspaceEnabled: WorkspacePolicy): seq<Effect>
  {
    [TakeLock, CaptureOff] + LoopEffects(rows, engine, workspaceEnabled)
      + if EndsUncaught(rows, engine, workspaceEnabled) then [] else [ReleaseLock]
  }

  /** The closing lines: completion, the caught exception with its code, or nothing when the throwable escapes. */
  function FinalLines(rows: seq<QueueItem>, engine: Oracle, workspaceEnabled: WorkspacePolicy): seq<string>
  {
    match FailureOf(rows, engine, workspaceEnabled)
    case None => [CompleteMessage]
    case Some(Exception(e)) => [ErrorMessage(e)]
    case Some(Fatal) => []
  }

  /** The state after updateReferenceIndex. */
  function Drain(st: WorkerState, engine: Oracle, workspaceEnabled: WorkspacePolicy): WorkerState
  {
    if st.locked then
      st.(output := st.output + [SkipMessage])
    else if |st.queue| == 0 then
      st.(output := st.output + [NothingToDoMessage])
    else
      var rows := st.queue;
      var n := FirstFailure(rows, engine, workspaceEnabled);
      st.(locked := EndsUncaught(rows, engine, workspaceEnabled),
          queue := Without(rows, rows[..n]),
          captureEnabled := false,
          output := st.output + [ProcessingMessage(|rows|)] + FinalLines(rows, engine, workspaceEnabled),
          trace := st.trace + RunEffects(rows, engine, workspaceEnabled))
  }

  /** A throwable that is not an \Exception leaves updateReferenceIndex: the run got past the checks and the loop ended uncaught. */
  predicate DrainEscapes(st: WorkerState, engine: Oracle, workspaceEnabled: WorkspacePolicy)
  {
    !st.locked && |st.queue| != 0 && EndsUncaught(st.queue, engine, workspaceEnabled)
  }

  /** Drain spelled out field by field for a run that gets past the lock and count checks. */
  lemma DrainAfterRun(st: WorkerState, engine: Oracle, workspaceEnabled: WorkspacePolicy)
    requires !st.locked && |st.queue| != 0
    ensures var r := Drain(st, engine, workspaceEnabled);
            var rows := st.queue;
            && r.locked == EndsUncaught(rows, engine, workspaceEnabled) && !r.captureEnabled
            && r.queue == Without(rows, rows[..FirstFailure(rows, engine, workspaceEnabled)])
            && r.output == st.output + [ProcessingMessage(|rows|)] + FinalLines(rows, engine, workspaceEnabled)
            && r.trace == st.trace + [TakeLock, CaptureOff] + LoopEffects(rows, engine, workspaceEnabled)
                 + (if EndsUncaught(rows, engine, workspaceEnabled) then [] else [ReleaseLock])
  {
  }

  /** The state after execute. */
  function ExecuteSpec(st: WorkerState, options: Options, engine: Oracle, workspaceEnabled: WorkspacePolicy): WorkerState
  {
    if options.force then
      st.(captureEnabled := false,
          trace := st.trace + [CaptureOff, FullIndex(options.check, !options.silent)])
    else
      Drain(st.(output := st.output + [Description]), engine, workspaceEnabled)
  }

  /** Whether execute is left by an uncaught throwable instead of returning. */
  predicate ExecuteEscapes(st: WorkerState, options: Options, engine: Oracle, workspaceEnabled: WorkspacePolicy)
  {
    !options.force && DrainEscapes(st, engine, workspaceEnabled)
  }

  class AsyncReferenceIndexCommand {
    var locked: bool
    var queue: seq<QueueItem>
    var captureEnabled: bool
    var output: seq<string>
    var trace: seq<Effect>

    function State(): WorkerState
      reads this
    {
      WorkerState(locked, queue, captureEnabled, output, trace)
    }

    constructor (lockFileExists: bool, pending: seq<QueueItem>)
      ensures State() == WorkerState(lockFileExists, pending, true, [], [])
    {
      locked := lockFileExists;
      queue := pending;
      captureEnabled := true;
      output := [];
      trace := [];
    }

    /** touch() of the lock file; it does not look whether the file is already there. */
    method Lock()
      modifies this
      ensures locked && trace == old(trace) + [TakeLock]
      ensures queue == old(queue) && captureEnabled == old(captureEnabled) && output == old(output)
    {
      locked := true;
      trace := trace + [TakeLock];
    }

    /** unlink() of the lock file, unconditionally. */
    method Unlock()
      modifies this
      ensures !locked && trace == old(trace) + [ReleaseLock]
      ensures queue == old(queue) && captureEnabled == old(captureEnabled) && output == old(output)
    {
      locked := false;
      trace := trace + [ReleaseLock];
    }

    /** AsyncReferenceIndex::captureReferenceIndex(false). */
    method DisableCapture()
      modifies this
      ensures !captureEnabled && trace == old(trace) + [CaptureOff]
      ensures locked == old(locked) && queue == old(queue) && output == old(output)
    {
      captureEnabled := false;
      trace := trace + [CaptureOff];
    }

    /** The DELETE of every queue row whose triple equals `item`'s. */
    method PerformDeletion(item: QueueItem)
      modifies this
      ensures queue == Without(old(queue), [item]) && trace == old(trace) + [Delete(item)]
      ensures locked == old(locked) && captureEnabled == old(captureEnabled) && output == old(output)
    {
      queue := Without(queue, [item]);
      trace := trace + [Delete(item)];
    }

    method WriteLine(message: string)
      modifies this
      ensures output == old(output) + [message]
      ensures locked == old(locked) && queue == old(queue) && captureEnabled == old(captureEnabled) && trace == old(trace)
    {
      output := output + [message];
    }

    /**
     * Drains the queue, guarded by the lock file, stopping at the first engine
     * error; `uncaught` is true when a throwable that is not an \Exception
     * leaves the method.
     */
    method UpdateReferenceIndex(engine: Oracle, workspaceEnabled: WorkspacePolicy) returns (uncaught: bool)
      modifies this
      ensures State() == Drain(old(State()), engine, workspaceEnabled)
      ensures uncaught == DrainEscapes(old(State()), engine, workspaceEnabled)
    {
      ghost var before := State();
      uncaught := false;
      if locked {
        WriteLine(SkipMessage);
        return;
      }
      var count := |queue|;
      if count == 0 {
        WriteLine(NothingToDoMessage);
        return;
      }
      Lock();
      WriteLine(ProcessingMessage(count));
      DisableCapture();
      var failure := ProcessQueue(engine, workspaceEnabled);
      DrainAfterRun(before, engine, workspaceEnabled);
      ghost var rows := before.queue;
      assert output == before.output + [ProcessingMessage(|rows|)];
      assert trace == before.trace + [TakeLock, CaptureOff] + LoopEffects(rows, engine, workspaceEnabled);
      match failure {
        case None =>
          WriteLine(CompleteMessage);
          assert FinalLines(rows, engine, workspaceEnabled) == [CompleteMessage];
        case Some(Exception(e)) =>
          WriteLine(ErrorMessage(e));
          assert FinalLines(rows, engine, workspaceEnabled) == [ErrorMessage(e)];
        case Some(Fatal) =>
          // Not an \Exception: it passes the catch clause, the lock file stays.
          uncaught := true;
          return;
      }
      Unlock();
    }

    /**
     * The foreach loop over the queue rows inside the try block; the first
     * exception ends the loop and is returned.
     */
    method ProcessQueue(engine: Oracle, workspaceEnabled: WorkspacePolicy) returns (failure: Option<Thrown>)
      modifies this
      ensures locked == old(locked) && captureEnabled == old(captureEnabled) && output == old(output)
      ensures queue == Without(old(queue), old(queue)[..FirstFailure(old(queue), engine, workspaceEnabled)])
      ensures trace == old(trace) + LoopEffects(old(queue), engine, workspaceEnabled)
      ensures failure == FailureOf(old(queue), engine, workspaceEnabled)
    {
      var rows := queue;
      ghost var t0 := trace;
      failure := None;
      var i := 0;
      LoopStart(rows, t0, workspaceEnabled);
      while i < |rows|
        invariant 0 <= i <= |rows|
        invariant rows == old(queue) && t0 == old(trace)
        invariant i <= FirstFailure(rows, engine, workspaceEnabled)
        invariant queue == Without(rows, rows[..i])
        invariant trace == t0 + Acked(rows[..i], workspaceEnabled)
        invariant locked == old(locked) && captureEnabled == old(captureEnabled) && output == old(output)
        invariant failure.None?
      {
        var outcome := ProcessRow(rows[i], engine, workspaceEnabled);
        if outcome.Some? {
          failure := outcome;
          LoopStopsAt(rows, t0, engine, workspaceEnabled, i);
          return;
        }
        LoopAdvances(rows, t0, engine, workspaceEnabled, i);
        i := i + 1;
      }
      LoopCompletes(rows, t0, engine, workspaceEnabled);
    }

    /**
     * One iteration: a fresh engine instance, scoped to the row's workspace
     * when that is non-empty and the table is workspace-enabled, reindexes the
     * record; only when that returns is the row's triple deleted.
     */
    method ProcessRow(item: QueueItem, engine: Oracle, workspaceEnabled: WorkspacePolicy) returns (outcome: Option<Thrown>)
      modifies this
      ensures outcome == Outcome(engine, CallFor(item, workspaceEnabled))
      ensures locked == old(locked) && captureEnabled == old(captureEnabled) && output == old(output)
      ensures outcome.None? ==> queue == Without(old(queue), [item])
      ensures outcome.None? ==> trace == old(trace) + [Reindex(CallFor(item, workspaceEnabled), None), Delete(item)]
      ensures outcome.Some? ==> queue == old(queue)
      ensures outcome.Some? ==> trace == old(trace) + [Reindex(CallFor(item, workspaceEnabled), outcome)]
    {
      var scope := Default;
      if item.workspace != 0 && item.table in workspaceEnabled {
        scope := Workspace(item.workspace);
      }
      var call := Call(item.table, item.uid, scope);
      outcome := Outcome(engine, call);
      trace := trace + [Reindex(call, outcome)];
      if outcome.None? {
        PerformDeletion(item);
      }
    }

    /**
     * Direct indexing with --force, otherwise the queue drain. The exit code
     * is 0 whenever execute returns; None means an uncaught throwable left it.
     */
    method Execute(options: Options, engine: Oracle, workspaceEnabled: WorkspacePolicy) returns (exitCode: Option<int>)
      modifies this
      ensures exitCode.None? <==> ExecuteEscapes(old(State()), options, engine, workspaceEnabled)
      ensures exitCode.Some? ==> exitCode.value == 0
      ensures State() == ExecuteSpec(old(State()), options, engine, workspaceEnabled)
    {
      if options.force {
        DisableCapture();
        trace := trace + [FullIndex(options.check, !options.silent)];
      } else {
        WriteLine(Description);
        var uncaught := UpdateReferenceIndex(engine, workspaceEnabled);
        if uncaught {
          return None;
        }
      }
      return Some(0);
    }
  }
}
