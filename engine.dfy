/**
 * The reindexing engine as the drain worker sees it: TYPO3's ReferenceIndex
 * (a fresh instance per row, optionally scoped to a workspace) and
 * BackendUtility::isTableWorkspaceEnabled, both foreign code, are oracles.
 */
module Engine {
  import opened Wrappers
  import opened Queue

  /** The workspace an engine instance works in: the default, or one set by setWorkspaceId. */
  datatype Scope = Default | Workspace(id: int)

  /** One updateRefIndexTable(table, uid) call on an instance in `scope`. */
  datatype Call = Call(table: string, uid: int, scope: Scope)

  /** What an \Exception carries: its message and code. */
  datatype EngineError = EngineError(message: string, code: int)

  /**
   * What a failing call throws: an \Exception, which the worker's catch
   * clause handles, or any other \Throwable (a PHP \Error such as a
   * TypeError), which that clause does not catch.
   */
  datatype Thrown = Exception(error: EngineError) | Fatal

  /** The engine's behaviour: the calls that throw, each with what it throws. */
  type Oracle = imap<Call, Thrown>

  /** The tables isTableWorkspaceEnabled answers true for. */
  type WorkspacePolicy = iset<string>

  /** The engine's answer to a call: None when it returns, Some(what it throws) otherwise. */
  function Outcome(engine: Oracle, call: Call): Option<Thrown>
  {
    if call in engine then Some(engine[call]) else None
  }

  /**
   * The scope of the fresh instance used for `item`: its workspace when the
   * workspace is non-empty and the table is workspace-enabled, else the default.
   */
  function ScopeFor(item: QueueItem, workspaceEnabled: WorkspacePolicy): (s: Scope)
    ensures s.Workspace? <==> item.workspace != 0 && item.table in workspaceEnabled
    ensures s.Workspace? ==> s.id == item.workspace
  {
    if item.workspace != 0 && item.table in workspaceEnabled then Workspace(item.workspace) else Default
  }

  /** The engine call made for `item`; every call starts from a fresh instance. */
  function CallFor(item: QueueItem, workspaceEnabled: WorkspacePolicy): Call
  {
    Call(item.table, item.uid, ScopeFor(item, workspaceEnabled))
  }

  predicate Succeeds(engine: Oracle, workspaceEnabled: WorkspacePolicy, item: QueueItem)
  {
    Outcome(engine, CallFor(item, workspaceEnabled)).None?
  }

  /**
   * The position of the first row whose engine call throws, or |rows| when
   * none does: the number of rows a drain run acknowledges.
   */
  function FirstFailure(rows: seq<QueueItem>, engine: Oracle, workspaceEnabled: WorkspacePolicy): (n: nat)
    ensures n <= |rows|
  {
    if rows == [] then 0
    else if !Succeeds(engine, workspaceEnabled, rows[0]) then 0
    else 1 + FirstFailure(rows[1..], engine, workspaceEnabled)
  }

  /** Every row before the first failure succeeds, and the row at it fails. */
  lemma {:induction false} FirstFailureSpec(rows: seq<QueueItem>, engine: Oracle, workspaceEnabled: WorkspacePolicy)
    ensures var n := FirstFailure(rows, engine, workspaceEnabled);
            && (forall k :: 0 <= k < n ==> Succeeds(engine, workspaceEnabled, rows[k]))
            && (n < |rows| ==> !Succeeds(engine, workspaceEnabled, rows[n]))
  {
    if rows != [] && Succeeds(engine, workspaceEnabled, rows[0]) {
      FirstFailureSpec(rows[1..], engine, workspaceEnabled);
    }
  }

  /** The first failure is pinned down by the rows before it succeeding and the row at it failing. */
  lemma {:induction false} FirstFailureAt(rows: seq<QueueItem>, engine: Oracle, workspaceEnabled: WorkspacePolicy, i: nat)
    requires i <= |rows|
    requires forall k :: 0 <= k < i ==> Succeeds(engine, workspaceEnabled, rows[k])
    requires i < |rows| ==> !Succeeds(engine, workspaceEnabled, rows[i])
    ensures FirstFailure(rows, engine, workspaceEnabled) == i
  {
    if i > 0 {
      assert Succeeds(engine, workspaceEnabled, rows[0]);
      FirstFailureAt(rows[1..], engine, workspaceEnabled, i - 1);
    }
  }

  /** A scan that has not yet passed the first failure moves past a row that succeeds. */
  lemma FirstFailureNext(rows: seq<QueueItem>, engine: Oracle, workspaceEnabled: WorkspacePolicy, i: nat)
    requires i < |rows| && i <= FirstFailure(rows, engine, workspaceEnabled)
    requires Succeeds(engine, workspaceEnabled, rows[i])
    ensures i + 1 <= FirstFailure(rows, engine, workspaceEnabled)
  {
    FirstFailureSpec(rows, engine, workspaceEnabled);
  }

  /** A scan that has not yet passed the first failure and stops at the end or at a failing row stops at it. */
  lemma FirstFailureStop(rows: seq<QueueItem>, engine: Oracle, workspaceEnabled: WorkspacePolicy, i: nat)
    requires i <= |rows| && i <= FirstFailure(rows, engine, workspaceEnabled)
    requires i < |rows| ==> !Succeeds(engine, workspaceEnabled, rows[i])
    ensures FirstFailure(rows, engine, workspaceEnabled) == i
  {
    FirstFailureSpec(rows, engine, workspaceEnabled);
  }
}
