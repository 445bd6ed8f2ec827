/** Three concrete drain runs: one where every call returns, one where the first call throws an `\Exception`, and one where it throws another throwable. */
module DrainScenarios {
  import opened Wrappers
  import opened Queue
  import opened Engine
  import opened Decimal
  import opened Command
  import opened DrainProperties

  /** Three rows; only tt_content supports workspaces, so only the third call is workspace-scoped. */
  lemma ThreeRowsAllSucceed(st: WorkerState, engine: Oracle, workspaceEnabled: WorkspacePolicy)
    requires st == WorkerState(false, [QueueItem("pages", 10, 0), QueueItem("pages", 11, 0), QueueItem("tt_content", 5, 1)], true, [], [])
    requires engine == imap[] && workspaceEnabled == iset{"tt_content"}
    ensures var r := Drain(st, engine, workspaceEnabled);
            && r.queue == [] && !r.locked
            && CallsOf(NewEffects(st, engine, workspaceEnabled))
               == [Call("pages", 10, Default), Call("pages", 11, Default), Call("tt_content", 5, Workspace(1))]
  {
    var expected := [Call("pages", 10, Default), Call("pages", 11, Default), Call("tt_content", 5, Workspace(1))];
    assert "pages" != "tt_content" by { assert "pages"[0] != "tt_content"[0]; }
    assert forall k :: 0 <= k < |st.queue| ==> CallFor(st.queue[k], workspaceEnabled) == expected[k];
    CompleteRunDrainsQueue(st, engine, workspaceEnabled);
  }

  /** Two rows and a first call that throws: both rows stay queued, one call is made, the lock is gone. */
  lemma FirstRowFails(st: WorkerState, engine: Oracle, workspaceEnabled: WorkspacePolicy)
    requires st == WorkerState(false, [QueueItem("pages", 10, 0), QueueItem("pages", 11, 0)], true, [], [])
    requires engine == imap[Call("pages", 10, Default) := Exception(EngineError("boom", 7))]
    requires workspaceEnabled == iset{}
    ensures var r := Drain(st, engine, workspaceEnabled);
            && r.queue == st.queue && !r.locked
            && CallsOf(NewEffects(st, engine, workspaceEnabled)) == [Call("pages", 10, Default)]
            && r.output[|r.output| - 1] == "ERROR! boom (7)"
  {
    var rows := st.queue;
    var c := CallFor(rows[0], workspaceEnabled);
    assert c == Call("pages", 10, Default);
    assert engine[c] == Exception(EngineError("boom", 7));
    FailFastPrefixDeletion(st, engine, workspaceEnabled, 0);
    var r := Drain(st, engine, workspaceEnabled);
    assert r.queue == rows by {
      WithoutDisjoint(rows, rows[..0]);
    }
    assert r.output == [ProcessingMessage(2), ErrorMessage(EngineError("boom", 7))];
    BoomMessage();
  }

  /**
   * The same two rows, but the first call raises a PHP \Error: both rows stay
   * queued, only the count line is written, the lock file stays, and the next
   * run is skipped.
   */
  lemma FirstRowFatal(st: WorkerState, engine: Oracle, workspaceEnabled: WorkspacePolicy)
    requires st == WorkerState(false, [QueueItem("pages", 10, 0), QueueItem("pages", 11, 0)], true, [], [])
    requires engine == imap[Call("pages", 10, Default) := Fatal]
    requires workspaceEnabled == iset{}
    ensures var r := Drain(st, engine, workspaceEnabled);
            && r.locked && r.queue == st.queue && r.output == [ProcessingMessage(2)]
            && Drain(r, imap[], iset{}).output == [ProcessingMessage(2), SkipMessage]
  {
    var rows := st.queue;
    assert CallFor(rows[0], workspaceEnabled) == Call("pages", 10, Default);
    UncaughtErrorKeepsLock(st, engine, workspaceEnabled, 0);
    WithoutDisjoint(rows, rows[..0]);
  }

  lemma BoomMessage()
    ensures ErrorMessage(EngineError("boom", 7)) == "ERROR! boom (7)"
  {
    assert IntToString(7) == [DigitChar(7)] == "7";
  }
}
