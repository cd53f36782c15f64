/**
 * The worktree manager: a registry of one record per agent, kept in step
 * with the version-control engine's worktrees and branches. An agent moves
 * from absent to active when its worktree is created and back to absent
 * when it is removed, directly or by the staleness sweep.
 */
module Worktrees {
  import opened PyStrings
  import opened Conflicts
  import opened VcsClient

  /** One registry row. Timestamps are whole seconds. */
  datatype WorktreeInfo = WorktreeInfo(
    agentId: string,
    path: string,
    branch: string,
    createdAt: int,
    lastActive: int,
    status: string)

  /** The only status any operation writes. */
  const ActiveStatus: string := "active"

  datatype Error =
    | AlreadyExists(agentId: string, existingPath: string)
    | NotFound(agentId: string)
    | VcsFailed

  datatype Result<T> = Ok(value: T) | Err(error: Error)

  // ---------------------------------------------------------------------------
  // Names derived from the agent identifier
  // ---------------------------------------------------------------------------

  /** `worktree_base_dir / f"worktree-{agent_id}"`. */
  function WorktreePath(baseDir: string, agentId: string): (p: string)
    ensures baseDir + "/worktree-" <= p
    ensures p[|baseDir| + 10..] == agentId
  {
    baseDir + "/" + "worktree-" + agentId
  }

  /** `f"agent-{agent_id}"`. */
  function BranchName(agentId: string): (b: string)
    ensures "agent-" <= b
    ensures b[6..] == agentId
  {
    "agent-" + agentId
  }

  /** Distinct agents get distinct worktree paths and distinct branches. */
  lemma NamesDetermineAgent(baseDir: string, a: string, b: string)
    ensures WorktreePath(baseDir, a) == WorktreePath(baseDir, b) <==> a == b
    ensures BranchName(a) == BranchName(b) <==> a == b
  {
    var n := |baseDir + "/" + "worktree-"|;
    if WorktreePath(baseDir, a) == WorktreePath(baseDir, b) {
      assert a == WorktreePath(baseDir, a)[n..];
      assert b == WorktreePath(baseDir, b)[n..];
    }
    if BranchName(a) == BranchName(b) {
      assert a == BranchName(a)[6..];
      assert b == BranchName(b)[6..];
    }
  }

  // ---------------------------------------------------------------------------
  // Staleness
  // ---------------------------------------------------------------------------

  /**
   * Inactive for more than `thresholdMinutes` minutes at time `now`. The
   * integer test is exactly the test on minutes as a fraction,
   * `(now - last_active) / 60 > threshold`.
   */
  predicate IsStale(w: WorktreeInfo, now: int, thresholdMinutes: int)
    ensures IsStale(w, now, thresholdMinutes) <==> (now - w.lastActive) as real / 60.0 > thresholdMinutes as real
  {
    now - w.lastActive > 60 * thresholdMinutes
  }

  /** The agents of `reg` that are stale at time `now`. */
  function StaleAgents(reg: map<string, WorktreeInfo>, now: int, thresholdMinutes: int): set<string>
  {
    set a | a in reg && IsStale(reg[a], now, thresholdMinutes)
  }

  // ---------------------------------------------------------------------------
  // The registry
  // ---------------------------------------------------------------------------

  /** Every row is filed under its own agent identifier, the table's primary key. */
  predicate WellKeyed(reg: map<string, WorktreeInfo>)
  {
    forall a :: a in reg ==> reg[a].agentId == a
  }

  /** `ws` holds every record of `reg` exactly once. */
  predicate Enumerates(ws: seq<WorktreeInfo>, reg: map<string, WorktreeInfo>)
  {
    && (forall i :: 0 <= i < |ws| ==> ws[i].agentId in reg && reg[ws[i].agentId] == ws[i])
    && (forall i, j :: 0 <= i < j < |ws| ==> ws[i].agentId != ws[j].agentId)
    && (forall a :: a in reg ==> exists i :: 0 <= i < |ws| && ws[i].agentId == a)
  }

  /** Ordered by creation time, newest first. */
  predicate NewestFirst(ws: seq<WorktreeInfo>)
  {
    forall i, j :: 0 <= i < j < |ws| ==> ws[i].createdAt >= ws[j].createdAt
  }

  /** `k` is a newest record among `keys`. */
  predicate IsNewest(reg: map<string, WorktreeInfo>, keys: set<string>, k: string)
    requires keys <= reg.Keys
  {
    k in keys && forall j :: j in keys ==> reg[j].createdAt <= reg[k].createdAt
  }

  /** A non-empty set of rows has a newest one. */
  lemma {:induction false} NewestExists(reg: map<string, WorktreeInfo>, keys: set<string>)
    requires keys != {} && keys <= reg.Keys
    ensures exists k :: IsNewest(reg, keys, k)
    decreases keys
  {
    var x :| x in keys;
    var rest := keys - {x};
    if rest == {} {
      assert keys == {x};
      assert IsNewest(reg, keys, x);
    } else {
      NewestExists(reg, rest);
      var k :| IsNewest(reg, rest, k);
      if reg[x].createdAt <= reg[k].createdAt {
        assert IsNewest(reg, keys, k);
      } else {
        assert IsNewest(reg, keys, x);
      }
    }
  }

  /** The rows listed in `ws` are stored rows, none of them remaining, each listed once. */
  predicate ListedRows(ws: seq<WorktreeInfo>, reg: map<string, WorktreeInfo>, remaining: set<string>)
  {
    && remaining <= reg.Keys
    && (forall i :: 0 <= i < |ws| ==> ws[i].agentId in reg && reg[ws[i].agentId] == ws[i] && ws[i].agentId !in remaining)
    && (forall i, j :: 0 <= i < j < |ws| ==> ws[i].agentId != ws[j].agentId)
  }

  /** Every stored row that no longer remains is listed in `ws`. */
  predicate ListedCovers(ws: seq<WorktreeInfo>, reg: map<string, WorktreeInfo>, remaining: set<string>)
  {
    forall a :: a in reg && a !in remaining ==> exists i :: 0 <= i < |ws| && ws[i].agentId == a
  }

  /** `ws` is newest first, and no remaining row is newer than a listed one. */
  predicate ListedInOrder(ws: seq<WorktreeInfo>, reg: map<string, WorktreeInfo>, remaining: set<string>)
    requires remaining <= reg.Keys
  {
    && NewestFirst(ws)
    && (forall i, a :: 0 <= i < |ws| && a in remaining ==> reg[a].createdAt <= ws[i].createdAt)
  }

  /**
   * The listing loop's invariant: `ws` lists, newest first and once each,
   * the rows not in `remaining`, and none of those left is newer.
   */
  predicate ListedSoFar(ws: seq<WorktreeInfo>, reg: map<string, WorktreeInfo>, remaining: set<string>)
  {
    ListedRows(ws, reg, remaining) && ListedCovers(ws, reg, remaining) && ListedInOrder(ws, reg, remaining)
  }

  lemma ListStepRows(ws: seq<WorktreeInfo>, reg: map<string, WorktreeInfo>, remaining: set<string>, k: string)
    requires WellKeyed(reg)
    requires ListedRows(ws, reg, remaining)
    requires k in remaining
    ensures ListedRows(ws + [reg[k]], reg, remaining - {k})
  {
    var ws' := ws + [reg[k]];
    assert ws'[|ws|] == reg[k];
    assert forall i :: 0 <= i < |ws| ==> ws'[i] == ws[i];
  }

  lemma ListStepCovers(ws: seq<WorktreeInfo>, reg: map<string, WorktreeInfo>, remaining: set<string>, k: string)
    requires WellKeyed(reg) && k in reg
    requires ListedCovers(ws, reg, remaining)
    ensures ListedCovers(ws + [reg[k]], reg, remaining - {k})
  {
    var ws' := ws + [reg[k]];
    forall a | a in reg && a !in remaining - {k}
      ensures exists i :: 0 <= i < |ws'| && ws'[i].agentId == a
    {
      if a == k {
        assert ws'[|ws|].agentId == a;
      } else {
        var i :| 0 <= i < |ws| && ws[i].agentId == a;
        assert ws'[i] == ws[i];
      }
    }
  }

  lemma ListStepInOrder(ws: seq<WorktreeInfo>, reg: map<string, WorktreeInfo>, remaining: set<string>, k: string)
    requires remaining <= reg.Keys
    requires ListedInOrder(ws, reg, remaining)
    requires IsNewest(reg, remaining, k)
    ensures ListedInOrder(ws + [reg[k]], reg, remaining - {k})
  {
    var ws' := ws + [reg[k]];
    assert ws'[|ws|] == reg[k];
    assert forall i :: 0 <= i < |ws| ==> ws'[i] == ws[i];
  }

  /** Appending a newest remaining row keeps the listing invariant. */
  lemma ListStep(ws: seq<WorktreeInfo>, reg: map<string, WorktreeInfo>, remaining: set<string>, k: string)
    requires WellKeyed(reg)
    requires ListedSoFar(ws, reg, remaining)
    requires IsNewest(reg, remaining, k)
    ensures ListedSoFar(ws + [reg[k]], reg, remaining - {k})
  {
    ListStepRows(ws, reg, remaining, k);
    ListStepCovers(ws, reg, remaining, k);
    ListStepInOrder(ws, reg, remaining, k);
  }

  /** Once nothing remains, the listing is complete. */
  lemma ListDone(ws: seq<WorktreeInfo>, reg: map<string, WorktreeInfo>)
    requires ListedSoFar(ws, reg, {})
    ensures Enumerates(ws, reg) && NewestFirst(ws)
  {
  }

  /** A listing that enumerates the registry has exactly as many entries as the registry has rows. */
  lemma {:induction false} EnumerationSize(ws: seq<WorktreeInfo>, reg: map<string, WorktreeInfo>)
    requires Enumerates(ws, reg)
    ensures |ws| == |reg|
  {
    var ids := set i | 0 <= i < |ws| :: ws[i].agentId;
    assert ids == reg.Keys by {
      forall a | a in reg ensures a in ids {
        var i :| 0 <= i < |ws| && ws[i].agentId == a;
      }
    }
    DistinctIdsCount(ws);
  }

  lemma {:induction false} DistinctIdsCount(ws: seq<WorktreeInfo>)
    requires forall i, j :: 0 <= i < j < |ws| ==> ws[i].agentId != ws[j].agentId
    ensures |set i | 0 <= i < |ws| :: ws[i].agentId| == |ws|
    decreases |ws|
  {
    if ws != [] {
      var init := ws[..|ws| - 1];
      DistinctIdsCount(init);
      var last := ws[|ws| - 1].agentId;
      var s := set i | 0 <= i < |init| :: init[i].agentId;
      assert (set i | 0 <= i < |ws| :: ws[i].agentId) == s + {last};
      assert last !in s;
    }
  }

  /** A subset of a finite set is no larger than the set. */
  lemma SubsetNoLarger(part: set<string>, whole: set<string>)
    requires part <= whole
    ensures |part| <= |whole|
  {
    assert whole == part + (whole - part);
  }

  // ---------------------------------------------------------------------------
  // The staleness sweep, as a specification
  // ---------------------------------------------------------------------------

  /** How one forced removal of the sweep ended. */
  datatype RemovalOutcome =
    | WorktreeKept  // `git worktree remove --force` failed
    | BranchKept    // the worktree went, but `git branch -D` failed
    | Removed       // both succeeded, so the row is dropped and counted

  /** One removal tried by the sweep: the row it was tried for and how it ended. */
  datatype Attempt = Attempt(row: WorktreeInfo, outcome: RemovalOutcome)

  /** The engine calls one attempt makes, in order, with their outcomes. */
  function AttemptCalls(t: Attempt): seq<Call>
  {
    match t.outcome
    case WorktreeKept => [RemoveWorktreeCall(t.row.path, true, false)]
    case BranchKept => [RemoveWorktreeCall(t.row.path, true, true), DeleteBranchCall(t.row.branch, false)]
    case Removed => [RemoveWorktreeCall(t.row.path, true, true), DeleteBranchCall(t.row.branch, true)]
  }

  /** The calls of a run of attempts, one attempt after the other. */
  function SweepCalls(ts: seq<Attempt>): seq<Call>
    decreases |ts|
  {
    if ts == [] then [] else SweepCalls(ts[..|ts| - 1]) + AttemptCalls(ts[|ts| - 1])
  }

  /** The rows the attempts were made for, in order. */
  function RowsOf(ts: seq<Attempt>): (r: seq<WorktreeInfo>)
    ensures |r| == |ts|
    decreases |ts|
  {
    if ts == [] then [] else RowsOf(ts[..|ts| - 1]) + [ts[|ts| - 1].row]
  }

  /** The agents whose attempt ended with both removals succeeding. */
  function RemovedAgents(ts: seq<Attempt>): set<string>
    decreases |ts|
  {
    if ts == [] then {}
    else RemovedAgents(ts[..|ts| - 1]) + (if ts[|ts| - 1].outcome == Removed then {ts[|ts| - 1].row.agentId} else {})
  }

  /** How many attempts ended with both removals succeeding. */
  function CountRemoved(ts: seq<Attempt>): nat
    decreases |ts|
  {
    if ts == [] then 0 else CountRemoved(ts[..|ts| - 1]) + (if ts[|ts| - 1].outcome == Removed then 1 else 0)
  }

  /** One more attempt extends each of the views above by that attempt alone. */
  lemma AttemptStep(ts: seq<Attempt>, t: Attempt)
    ensures SweepCalls(ts + [t]) == SweepCalls(ts) + AttemptCalls(t)
    ensures RowsOf(ts + [t]) == RowsOf(ts) + [t.row]
    ensures t.outcome == Removed ==>
      RemovedAgents(ts + [t]) == RemovedAgents(ts) + {t.row.agentId} && CountRemoved(ts + [t]) == CountRemoved(ts) + 1
    ensures t.outcome != Removed ==>
      RemovedAgents(ts + [t]) == RemovedAgents(ts) && CountRemoved(ts + [t]) == CountRemoved(ts)
  {
    assert (ts + [t])[..|ts|] == ts;
    if t.outcome != Removed {
      assert RemovedAgents(ts) + {} == RemovedAgents(ts);
    }
  }

  /**
   * When every attempt is for a different agent, an agent counts as removed
   * exactly when its own attempt ended with both removals succeeding.
   */
  lemma {:induction false} RemovedAgentsIff(ts: seq<Attempt>)
    requires forall i, k :: 0 <= i < k < |ts| ==> ts[i].row.agentId != ts[k].row.agentId
    ensures forall j :: 0 <= j < |ts| ==> (ts[j].row.agentId in RemovedAgents(ts) <==> ts[j].outcome == Removed)
    decreases |ts|
  {
    if ts != [] {
      var init, last := ts[..|ts| - 1], ts[|ts| - 1];
      assert forall i :: 0 <= i < |init| ==> init[i] == ts[i];
      RemovedAgentsIff(init);
      RemovedAgentsNotIn(init, last.row.agentId);
    }
  }

  /** An agent no attempt was made for is not among the removed ones. */
  lemma {:induction false} RemovedAgentsNotIn(ts: seq<Attempt>, a: string)
    requires forall i :: 0 <= i < |ts| ==> ts[i].row.agentId != a
    ensures a !in RemovedAgents(ts)
    decreases |ts|
  {
    if ts != [] {
      var init := ts[..|ts| - 1];
      assert forall i :: 0 <= i < |init| ==> init[i] == ts[i];
      RemovedAgentsNotIn(init, a);
    }
  }

  /** The stale rows of a listing, in listing order. */
  function StaleRows(ws: seq<WorktreeInfo>, now: int, thresholdMinutes: int): (r: seq<WorktreeInfo>)
    ensures |r| <= |ws|
    decreases |ws|
  {
    if ws == [] then []
    else
      var last := ws[|ws| - 1];
      StaleRows(ws[..|ws| - 1], now, thresholdMinutes) + (if IsStale(last, now, thresholdMinutes) then [last] else [])
  }

  /** Looking at one more row of a listing adds that row if it is stale. */
  lemma StaleRowsStep(ws: seq<WorktreeInfo>, i: int, now: int, thresholdMinutes: int)
    requires 0 <= i < |ws|
    ensures StaleRows(ws[..i + 1], now, thresholdMinutes)
      == StaleRows(ws[..i], now, thresholdMinutes) + (if IsStale(ws[i], now, thresholdMinutes) then [ws[i]] else [])
  {
    assert ws[..i + 1][..i] == ws[..i];
  }

  /** The stale rows of a listing are rows of the listing, and stale. */
  lemma {:induction false} StaleRowsSound(ws: seq<WorktreeInfo>, now: int, thresholdMinutes: int, j: int)
    requires 0 <= j < |StaleRows(ws, now, thresholdMinutes)|
    ensures exists i :: 0 <= i < |ws| && ws[i] == StaleRows(ws, now, thresholdMinutes)[j]
    ensures IsStale(StaleRows(ws, now, thresholdMinutes)[j], now, thresholdMinutes)
    decreases |ws|
  {
    var init := ws[..|ws| - 1];
    var s := StaleRows(init, now, thresholdMinutes);
    if j < |s| {
      StaleRowsSound(init, now, thresholdMinutes, j);
      var i :| 0 <= i < |init| && init[i] == s[j];
      assert ws[i] == init[i];
    } else {
      assert StaleRows(ws, now, thresholdMinutes)[j] == ws[|ws| - 1];
    }
  }

  /** Every stale row of a listing is among its stale rows. */
  lemma {:induction false} StaleRowsComplete(ws: seq<WorktreeInfo>, now: int, thresholdMinutes: int, i: int)
    requires 0 <= i < |ws| && IsStale(ws[i], now, thresholdMinutes)
    ensures ws[i] in StaleRows(ws, now, thresholdMinutes)
    decreases |ws|
  {
    if i < |ws| - 1 {
      assert ws[..|ws| - 1][i] == ws[i];
      StaleRowsComplete(ws[..|ws| - 1], now, thresholdMinutes, i);
    }
  }

  /** Filtering keeps distinct identifiers distinct and keeps newest-first order. */
  lemma {:induction false} StaleRowsKeepOrder(ws: seq<WorktreeInfo>, now: int, thresholdMinutes: int)
    requires forall i, j :: 0 <= i < j < |ws| ==> ws[i].agentId != ws[j].agentId
    requires NewestFirst(ws)
    ensures forall i, j :: 0 <= i < j < |StaleRows(ws, now, thresholdMinutes)| ==>
      StaleRows(ws, now, thresholdMinutes)[i].agentId != StaleRows(ws, now, thresholdMinutes)[j].agentId
    ensures NewestFirst(StaleRows(ws, now, thresholdMinutes))
    decreases |ws|
  {
    if ws != [] {
      var init, last := ws[..|ws| - 1], ws[|ws| - 1];
      StaleRowsKeepOrder(init, now, thresholdMinutes);
      var s := StaleRows(init, now, thresholdMinutes);
      forall i | 0 <= i < |s|
        ensures s[i].agentId != last.agentId && s[i].createdAt >= last.createdAt
      {
        StaleRowsSound(init, now, thresholdMinutes, i);
        var k :| 0 <= k < |init| && init[k] == s[i];
        assert ws[k] == init[k];
      }
    }
  }

  /** The stale rows of a registry, as a table of their own. */
  function StaleRegistry(reg: map<string, WorktreeInfo>, now: int, thresholdMinutes: int): (r: map<string, WorktreeInfo>)
    ensures r.Keys == StaleAgents(reg, now, thresholdMinutes)
    ensures forall a :: a in r ==> r[a] == reg[a]
  {
    map a | a in reg && IsStale(reg[a], now, thresholdMinutes) :: reg[a]
  }

  /**
   * The stale rows of a complete newest-first listing list the stale part of
   * the table: each stale row exactly once, nothing else, newest first.
   */
  lemma StaleRowsListing(ws: seq<WorktreeInfo>, reg: map<string, WorktreeInfo>, now: int, thresholdMinutes: int)
    requires Enumerates(ws, reg) && NewestFirst(ws)
    ensures Enumerates(StaleRows(ws, now, thresholdMinutes), StaleRegistry(reg, now, thresholdMinutes))
    ensures NewestFirst(StaleRows(ws, now, thresholdMinutes))
  {
    var s, sr := StaleRows(ws, now, thresholdMinutes), StaleRegistry(reg, now, thresholdMinutes);
    StaleRowsKeepOrder(ws, now, thresholdMinutes);
    forall j | 0 <= j < |s|
      ensures s[j].agentId in sr && sr[s[j].agentId] == s[j]
    {
      StaleRowsSound(ws, now, thresholdMinutes, j);
      var i :| 0 <= i < |ws| && ws[i] == s[j];
    }
    forall a | a in sr
      ensures exists j :: 0 <= j < |s| && s[j].agentId == a
    {
      var i :| 0 <= i < |ws| && ws[i].agentId == a;
      StaleRowsComplete(ws, now, thresholdMinutes, i);
      var j :| 0 <= j < |s| && s[j] == ws[i];
    }
  }

  /**
   * The sweep's record after visiting `ws[..i]`: one attempt per stale row
   * visited, in order; the log grew by exactly their calls; `removed` and
   * `cleaned` are the agents, and the number, of attempts that succeeded.
   */
  predicate SweptAttempts(
    ws: seq<WorktreeInfo>, i: int, log0: seq<Call>, log: seq<Call>, ts: seq<Attempt>,
    removed: set<string>, cleaned: int, now: int, thresholdMinutes: int)
  {
    && 0 <= i <= |ws|
    && RowsOf(ts) == StaleRows(ws[..i], now, thresholdMinutes)
    && log == log0 + SweepCalls(ts)
    && removed == RemovedAgents(ts)
    && cleaned == CountRemoved(ts) == |removed|
  }

  /** The record grows by a successful attempt on the stale row `ws[i]`. */
  lemma SweptAttemptsRemoved(
    ws: seq<WorktreeInfo>, i: int, log0: seq<Call>, before: seq<Call>, after: seq<Call>,
    ts: seq<Attempt>, t: Attempt, removed: set<string>, cleaned: int, now: int, thresholdMinutes: int)
    requires SweptAttempts(ws, i, log0, before, ts, removed, cleaned, now, thresholdMinutes)
    requires i < |ws| && IsStale(ws[i], now, thresholdMinutes) && t == Attempt(ws[i], Removed)
    requires after == before + AttemptCalls(t)
    requires |removed + {ws[i].agentId}| == |removed| + 1
    ensures SweptAttempts(ws, i + 1, log0, after, ts + [t], removed + {ws[i].agentId}, cleaned + 1, now, thresholdMinutes)
  {
    StaleRowsStep(ws, i, now, thresholdMinutes);
    AttemptStep(ts, t);
  }

  /** The record grows by a failed attempt on the stale row `ws[i]`. */
  lemma SweptAttemptsKept(
    ws: seq<WorktreeInfo>, i: int, log0: seq<Call>, before: seq<Call>, after: seq<Call>,
    ts: seq<Attempt>, t: Attempt, removed: set<string>, cleaned: int, now: int, thresholdMinutes: int)
    requires SweptAttempts(ws, i, log0, before, ts, removed, cleaned, now, thresholdMinutes)
    requires i < |ws| && IsStale(ws[i], now, thresholdMinutes) && t.row == ws[i] && t.outcome != Removed
    requires after == before + AttemptCalls(t)
    ensures SweptAttempts(ws, i + 1, log0, after, ts + [t], removed, cleaned, now, thresholdMinutes)
  {
    StaleRowsStep(ws, i, now, thresholdMinutes);
    AttemptStep(ts, t);
  }

  /** Passing over a row that is not stale leaves the record as it is. */
  lemma SweptAttemptsSkip(
    ws: seq<WorktreeInfo>, i: int, log0: seq<Call>, log: seq<Call>,
    ts: seq<Attempt>, removed: set<string>, cleaned: int, now: int, thresholdMinutes: int)
    requires SweptAttempts(ws, i, log0, log, ts, removed, cleaned, now, thresholdMinutes)
    requires i < |ws| && !IsStale(ws[i], now, thresholdMinutes)
    ensures SweptAttempts(ws, i + 1, log0, log, ts, removed, cleaned, now, thresholdMinutes)
  {
    StaleRowsStep(ws, i, now, thresholdMinutes);
  }

  /**
   * The sweep's registry invariant after visiting `ws[..i]`: exactly the
   * agents in `removed`, all of them stale and already visited, are gone.
   */
  predicate SweptRegistry(
    ws: seq<WorktreeInfo>, i: int, reg0: map<string, WorktreeInfo>, reg: map<string, WorktreeInfo>,
    removed: set<string>, now: int, thresholdMinutes: int)
  {
    && Enumerates(ws, reg0)
    && 0 <= i <= |ws|
    && removed <= StaleAgents(reg0, now, thresholdMinutes)
    && reg == reg0 - removed
    && (forall j :: i <= j < |ws| ==> ws[j].agentId !in removed)
  }

  /** Removing the stale row `ws[i]` successfully keeps the registry invariant one step further. */
  lemma SweptRegistryStep(
    ws: seq<WorktreeInfo>, i: int, reg0: map<string, WorktreeInfo>,
    removed: set<string>, now: int, thresholdMinutes: int)
    requires 0 <= i < |ws| && IsStale(ws[i], now, thresholdMinutes)
    requires SweptRegistry(ws, i, reg0, reg0 - removed, removed, now, thresholdMinutes)
    ensures SweptRegistry(ws, i + 1, reg0, reg0 - removed - {ws[i].agentId}, removed + {ws[i].agentId}, now, thresholdMinutes)
    ensures reg0 - removed - {ws[i].agentId} == reg0 - (removed + {ws[i].agentId})
    ensures |removed + {ws[i].agentId}| == |removed| + 1
  {
    assert ws[i].agentId in StaleAgents(reg0, now, thresholdMinutes);
  }

  /** Before the first row nothing has been removed. */
  lemma SweepStart(ws: seq<WorktreeInfo>, reg0: map<string, WorktreeInfo>, now: int, thresholdMinutes: int)
    requires Enumerates(ws, reg0)
    ensures SweptRegistry(ws, 0, reg0, reg0, {}, now, thresholdMinutes)
  {
    assert reg0 - {} == reg0;
  }

  /** Passing over a row, or keeping it after a failed removal, keeps the registry invariant. */
  lemma SweepSkip(
    ws: seq<WorktreeInfo>, i: int, reg0: map<string, WorktreeInfo>, reg: map<string, WorktreeInfo>,
    removed: set<string>, now: int, thresholdMinutes: int)
    requires 0 <= i < |ws|
    requires SweptRegistry(ws, i, reg0, reg, removed, now, thresholdMinutes)
    ensures SweptRegistry(ws, i + 1, reg0, reg, removed, now, thresholdMinutes)
  {
  }

  /** Once every row of the listing was visited, the record and the table say what the sweep did. */
  lemma SweepDone(
    ws: seq<WorktreeInfo>, reg0: map<string, WorktreeInfo>, reg: map<string, WorktreeInfo>,
    log0: seq<Call>, log: seq<Call>, ts: seq<Attempt>, removed: set<string>, cleaned: int,
    now: int, thresholdMinutes: int)
    requires NewestFirst(ws)
    requires SweptRegistry(ws, |ws|, reg0, reg, removed, now, thresholdMinutes)
    requires SweptAttempts(ws, |ws|, log0, log, ts, removed, cleaned, now, thresholdMinutes)
    ensures Enumerates(RowsOf(ts), StaleRegistry(reg0, now, thresholdMinutes))
    ensures NewestFirst(RowsOf(ts))
    ensures log == log0 + SweepCalls(ts)
    ensures removed == RemovedAgents(ts)
    ensures forall j :: 0 <= j < |ts| ==> (ts[j].row.agentId in removed <==> ts[j].outcome == Removed)
    ensures removed <= StaleAgents(reg0, now, thresholdMinutes)
    ensures reg == reg0 - removed
    ensures cleaned == CountRemoved(ts) == |removed| <= |StaleAgents(reg0, now, thresholdMinutes)|
  {
    assert ws[..|ws|] == ws;
    StaleRowsListing(ws, reg0, now, thresholdMinutes);
    RemovedAgentsIff(ts);
    SubsetNoLarger(removed, StaleAgents(reg0, now, thresholdMinutes));
  }

  // ---------------------------------------------------------------------------
  // The manager
  // ---------------------------------------------------------------------------

  class WorktreeManager {
    /** Directory under which every worktree is created. */
    const baseDir: string
    /** The version-control engine. */
    const vcs: Vcs
    /** The registry table, keyed by agent identifier. */
    var registry: map<string, WorktreeInfo>

    ghost predicate Valid()
      reads this
    {
      WellKeyed(registry)
    }

    /** Opens the manager over the rows already persisted in the registry table. */
    constructor (baseDir: string, vcs: Vcs, persisted: map<string, WorktreeInfo>)
      requires WellKeyed(persisted)
      ensures Valid()
      ensures this.baseDir == baseDir && this.vcs == vcs && registry == persisted
    {
      this.baseDir := baseDir;
      this.vcs := vcs;
      registry := persisted;
    }

    /** `_get_worktree`: the row of `agentId`, if there is one. */
    function GetWorktree(agentId: string): (r: Option<WorktreeInfo>)
      reads this
      requires Valid()
      ensures r.Some? <==> agentId in registry
      ensures r.Some? ==> r.value == registry[agentId] && r.value.agentId == agentId
    {
      if agentId in registry then Some(registry[agentId]) else None
    }

    /**
     * `create_worktree`: refuses an agent that already has a row, without any
     * engine call; otherwise asks the engine for a worktree at the derived path
     * on a new derived branch, and files a fresh active row only if that worked.
     */
    method CreateWorktree(agentId: string, baseBranch: string, now: int) returns (r: Result<string>)
      requires Valid()
      modifies this, vcs
      ensures Valid()
      ensures agentId in old(registry) ==>
        && r == Err(AlreadyExists(agentId, old(registry)[agentId].path))
        && registry == old(registry)
        && vcs.log == old(vcs.log)
      ensures agentId !in old(registry) ==>
        && vcs.log == old(vcs.log) + [AddWorktreeCall(WorktreePath(baseDir, agentId), BranchName(agentId), baseBranch, r.Ok?)]
        && (r.Ok? ==>
              && r.value == WorktreePath(baseDir, agentId)
              && registry == old(registry)[agentId := WorktreeInfo(agentId, r.value, BranchName(agentId), now, now, ActiveStatus)])
        && (r.Err? ==> r.error == VcsFailed && registry == old(registry))
    {
      var existing := GetWorktree(agentId);
      if existing.Some? {
        return Err(AlreadyExists(agentId, existing.value.path));
      }
      var path := WorktreePath(baseDir, agentId);
      var branch := BranchName(agentId);
      var ok := vcs.AddWorktree(path, branch, baseBranch);
      if !ok {
        return Err(VcsFailed);
      }
      registry := registry[agentId := WorktreeInfo(agentId, path, branch, now, now, ActiveStatus)];
      r := Ok(path);
    }

    /**
     * `remove_worktree`: refuses an unknown agent before any engine call;
     * otherwise removes the worktree, then (only if that worked) deletes the
     * branch, and drops the row only when both worked.
     */
    method RemoveWorktree(agentId: string, force: bool) returns (r: Result<()>)
      requires Valid()
      modifies this, vcs
      ensures Valid()
      ensures agentId !in old(registry) ==>
        && r == Err(NotFound(agentId))
        && registry == old(registry)
        && vcs.log == old(vcs.log)
      ensures agentId in old(registry) ==>
        var w := old(registry)[agentId];
        && (r.Ok? ==>
              && registry == old(registry) - {agentId}
              && vcs.log == old(vcs.log) + [RemoveWorktreeCall(w.path, force, true), DeleteBranchCall(w.branch, true)])
        && (r.Err? ==>
              && r.error == VcsFailed
              && registry == old(registry)
              && (|| vcs.log == old(vcs.log) + [RemoveWorktreeCall(w.path, force, false)]
                  || vcs.log == old(vcs.log) + [RemoveWorktreeCall(w.path, force, true), DeleteBranchCall(w.branch, false)]))
    {
      var worktree := GetWorktree(agentId);
      if worktree.None? {
        return Err(NotFound(agentId));
      }
      var w := worktree.value;
      var removed := vcs.RemoveWorktree(w.path, force);
      if !removed {
        return Err(VcsFailed);
      }
      var deleted := vcs.DeleteBranch(w.branch);
      if !deleted {
        return Err(VcsFailed);
      }
      registry := registry - {agentId};
      r := Ok(());
    }

    /**
     * `list_worktrees`: every row exactly once, newest first. The table's
     * `ORDER BY created_at DESC` is modelled as repeatedly taking a newest
     * row among those not yet listed.
     */
    method ListWorktrees() returns (ws: seq<WorktreeInfo>)
      requires Valid()
      ensures Enumerates(ws, registry)
      ensures NewestFirst(ws)
    {
      ws := [];
      var remaining := registry.Keys;
      while remaining != {}
        invariant ListedSoFar(ws, registry, remaining)
        decreases remaining
      {
        NewestExists(registry, remaining);
        var k :| IsNewest(registry, remaining, k);
        ListStep(ws, registry, remaining, k);
        ws := ws + [registry[k]];
        remaining := remaining - {k};
      }
      ListDone(ws, registry);
    }

    /** `update_last_active`: stamps the agent's row with `now`; an unknown agent changes nothing. */
    method UpdateLastActive(agentId: string, now: int)
      requires Valid()
      modifies this
      ensures Valid()
      ensures registry.Keys == old(registry).Keys
      ensures forall a :: a in registry && a != agentId ==> registry[a] == old(registry)[a]
      ensures agentId in registry ==> registry[agentId] == old(registry)[agentId].(lastActive := now)
    {
      if agentId in registry {
        registry := registry[agentId := registry[agentId].(lastActive := now)];
      }
    }

    /**
     * `detect_conflicts`: refuses an unknown agent before any engine call;
     * otherwise runs the dry-run merge of the agent's branch into
     * `targetBranch` and classifies its report. The registry is never touched.
     */
    method DetectConflicts(agentId: string, targetBranch: string) returns (r: Result<seq<ConflictFile>>)
      requires Valid()
      modifies vcs
      ensures registry == old(registry)
      ensures agentId !in registry ==> r == Err(NotFound(agentId)) && vcs.log == old(vcs.log)
      ensures agentId in registry ==>
        && |vcs.log| == |old(vcs.log)| + 1
        && vcs.log[..|old(vcs.log)|] == old(vcs.log)
        && var c := vcs.log[|old(vcs.log)|];
           && c.MergeTreeCall?
           && c.targetBranch == targetBranch
           && c.sourceBranch == registry[agentId].branch
           && r == Ok(ReportConflicts(c.exitCode, c.stdout))
    {
      var worktree := GetWorktree(agentId);
      if worktree.None? {
        return Err(NotFound(agentId));
      }
      var exitCode, stdout := vcs.MergeTree(targetBranch, worktree.value.branch);
      var conflicts := ClassifyMergeReport(exitCode, stdout);
      r := Ok(conflicts);
    }

    /**
     * One pass of the sweep's loop, over the row `ws[i]`: a stale row gets a
     * forced removal, which is counted when it succeeds; any other row is
     * passed over. Both sweep invariants move one row further.
     */
    method SweepRow(
      ws: seq<WorktreeInfo>, i: int, ghost reg0: map<string, WorktreeInfo>, ghost log0: seq<Call>,
      cleaned: nat, ghost attempts: seq<Attempt>, ghost removed: set<string>, now: int, thresholdMinutes: int)
      returns (cleaned': nat, ghost attempts': seq<Attempt>, ghost removed': set<string>)
      requires Valid()
      requires 0 <= i < |ws|
      requires SweptRegistry(ws, i, reg0, registry, removed, now, thresholdMinutes)
      requires SweptAttempts(ws, i, log0, vcs.log, attempts, removed, cleaned, now, thresholdMinutes)
      modifies this, vcs
      ensures Valid()
      ensures SweptRegistry(ws, i + 1, reg0, registry, removed', now, thresholdMinutes)
      ensures SweptAttempts(ws, i + 1, log0, vcs.log, attempts', removed', cleaned', now, thresholdMinutes)
    {
      cleaned', attempts', removed' := cleaned, attempts, removed;
      var wt := ws[i];
      if now - wt.lastActive > 60 * thresholdMinutes {
        assert wt.agentId in reg0 && reg0[wt.agentId] == wt;
        ghost var logBefore := vcs.log;
        var result := RemoveWorktree(wt.agentId, true);
        ghost var attempt: Attempt;
        if result.Ok? {
          attempt := Attempt(wt, Removed);
          SweptRegistryStep(ws, i, reg0, removed, now, thresholdMinutes);
          SweptAttemptsRemoved(ws, i, log0, logBefore, vcs.log, attempts, attempt, removed, cleaned, now, thresholdMinutes);
          cleaned', removed' := cleaned + 1, removed + {wt.agentId};
        } else {
          if vcs.log == logBefore + [RemoveWorktreeCall(wt.path, true, false)] {
            attempt := Attempt(wt, WorktreeKept);
          } else {
            attempt := Attempt(wt, BranchKept);
          }
          SweepSkip(ws, i, reg0, registry, removed, now, thresholdMinutes);
          SweptAttemptsKept(ws, i, log0, logBefore, vcs.log, attempts, attempt, removed, cleaned, now, thresholdMinutes);
        }
        attempts' := attempts + [attempt];
      } else {
        SweepSkip(ws, i, reg0, registry, removed, now, thresholdMinutes);
        SweptAttemptsSkip(ws, i, log0, vcs.log, attempts, removed, cleaned, now, thresholdMinutes);
      }
    }

    /** The loop of `cleanup_stale_worktrees`, over the listing `ws` of the table `reg0`. */
    method SweepListing(ws: seq<WorktreeInfo>, ghost reg0: map<string, WorktreeInfo>, now: int, thresholdMinutes: int)
      returns (cleaned: nat, ghost attempts: seq<Attempt>, ghost removed: set<string>)
      requires Valid() && registry == reg0 && Enumerates(ws, reg0)
      modifies this, vcs
      ensures Valid()
      ensures SweptRegistry(ws, |ws|, reg0, registry, removed, now, thresholdMinutes)
      ensures SweptAttempts(ws, |ws|, old(vcs.log), vcs.log, attempts, removed, cleaned, now, thresholdMinutes)
    {
      ghost var log0 := vcs.log;
      cleaned, attempts, removed := 0, [], {};
      SweepStart(ws, reg0, now, thresholdMinutes);
      for i := 0 to |ws|
        invariant Valid()
        invariant SweptRegistry(ws, i, reg0, registry, removed, now, thresholdMinutes)
        invariant SweptAttempts(ws, i, log0, vcs.log, attempts, removed, cleaned, now, thresholdMinutes)
      {
        cleaned, attempts, removed := SweepRow(ws, i, reg0, log0, cleaned, attempts, removed, now, thresholdMinutes);
      }
    }

    /**
     * `cleanup_stale_worktrees`: tries a forced removal of every row inactive
     * for more than `thresholdMinutes` minutes, newest first, carries on past
     * failed removals, and returns how many removals succeeded. `attempts`
     * records each try and how it ended; `removed` names the agents dropped.
     */
    method CleanupStaleWorktrees(thresholdMinutes: int, now: int)
      returns (cleaned: nat, ghost attempts: seq<Attempt>, ghost removed: set<string>)
      requires Valid()
      modifies this, vcs
      ensures Valid()
      ensures Enumerates(RowsOf(attempts), StaleRegistry(old(registry), now, thresholdMinutes))
      ensures NewestFirst(RowsOf(attempts))
      ensures vcs.log == old(vcs.log) + SweepCalls(attempts)
      ensures removed == RemovedAgents(attempts)
      ensures forall j :: 0 <= j < |attempts| ==> (attempts[j].row.agentId in removed <==> attempts[j].outcome == Removed)
      ensures removed <= StaleAgents(old(registry), now, thresholdMinutes)
      ensures registry == old(registry) - removed
      ensures cleaned == CountRemoved(attempts) == |removed| <= |StaleAgents(old(registry), now, thresholdMinutes)|
    {
      ghost var reg0, log0 := registry, vcs.log;
      var worktrees := ListWorktrees();
      cleaned, attempts, removed := SweepListing(worktrees, reg0, now, thresholdMinutes);
      SweepDone(worktrees, reg0, registry, log0, vcs.log, attempts, removed, cleaned, now, thresholdMinutes);
    }
  }

  /** The life of agent "a1": created from "main", refused a second time, removed, gone from the listing. */
  method LifecycleScenario()
  {
    var vcs := new Vcs();
    var manager := new WorktreeManager("/w", vcs, map[]);
    var created := manager.CreateWorktree("a1", "main", 100);
    if created.Ok? {
      assert created.value == "/w/worktree-a1";
      assert manager.registry["a1"].branch == "agent-a1";
      assert manager.registry["a1"].createdAt == manager.registry["a1"].lastActive == 100;
      var again := manager.CreateWorktree("a1", "main", 200);
      assert again.Err? && again.error.AlreadyExists?;
      var gone := manager.RemoveWorktree("a1", false);
      if gone.Ok? {
        var listing := manager.ListWorktrees();
        assert manager.registry == map[];
        EnumerationSize(listing, manager.registry);
        assert listing == [];
      }
    }
  }
}
