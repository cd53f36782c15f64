# Git worktree manager, modelled in Dafny

This project models the core of a multi-agent Git worktree manager. Each agent
gets its own worktree at a path derived from its identifier, on its own branch
`agent-<id>`. All worktrees share one repository. A registry table keeps one row
per agent. The manager keeps this table in step with the worktrees and branches
that Git holds. It also classifies the report of a dry-run merge (`git merge-tree`)
into a list of conflicting files.

The model has four modules:

- `PyStrings` (`py_strings.dfy`) covers the pieces of Python's `str` that the
  classifier relies on: `lower()`, `sub in s`, `startswith` (Dafny's prefix
  test), `split("\n")` and the argument-less `split()`. Each comes with lemmas
  that pin it down. `split("\n")` and `"\n".join` are inverses in both
  directions. The tokens of `split()` are non-empty and contain no whitespace,
  and together they hold exactly the non-space characters of the text. The last
  token is the text's final word. Words separated by whitespace runs of any
  length split back into exactly those words, so no word is cut or merged.
- `Conflicts` (`conflicts.dfy`) has the classifier half of `detect_conflicts`.
  It has three parts: the gate, the per-line test and the scanning loop. The
  loop is proved equal to a specification function, `ReportConflicts`. Lemmas
  about that function cover the clean case, line order, the bound of one
  record per line, soundness, completeness and a worked example.
- `VcsClient` (`vcs_client.dfy`) stands for the Git command-line tool. Its four
  primitives (`worktree add`, `worktree remove`, `branch -D` and `merge-tree`)
  return outcomes the manager cannot predict. Each call is appended to a ghost
  call log. Through this log the manager's contracts say which calls it made,
  in which order and with which arguments.
- `Worktrees` (`worktree_manager.dfy`) has the records, the derived names, the
  staleness test and the `WorktreeManager` class. The class has a
  `map<string, WorktreeInfo>` registry field, which the methods update in place.

Timestamps are whole seconds, and the current time is passed in as `now`. The
staleness test `(now - last_active) / 60 > threshold` becomes
`now - last_active > 60 * threshold` on integers. The contract of `IsStale`
states that this agrees with the division over the reals.

`Worktrees.LifecycleScenario` is a client of the manager. It walks agent "a1"
through its life: the worktree is created from "main" at `/w/worktree-a1` on
branch `agent-a1`, a second create is refused, and after removal the listing
is empty. It uses nothing but the contracts above.

Where the code and the system's design documentation disagree, the model follows the code:

- The design documentation describes a report holding one "changed in both … file" line and
  says it yields one conflict. The code yields that conflict only when the gate
  passes: the merge must exit non-zero, or the lower-cased report must contain
  "conflict". `UnsignalledLineIgnored` shows such a line being ignored when the
  merge exits with status 0.
- The design says `update_last_active` strictly increases `last_active`. The
  code sets the field to the current time, whatever it was before. Both agree
  that an unknown agent is not an error: the code's `UPDATE` has no existence
  check and affects no row.
- The design lists a store-level `DuplicateAgentError` and a `delete` that fails
  on a missing row. The code defines no such errors. `create_worktree` and
  `remove_worktree` check whether the row exists before they write it: the
  first goes on only when it is absent, the second only when it is present. So
  in a sequential run neither error can arise. The `PRIMARY KEY` on `agent_id`
  (git/worktree_manager.py:159) would make an `INSERT` that lost a race raise
  `IntegrityError`. Concurrency is not modelled (see below).

## Model

| member | source | states |
|---|---|---|
| `PyStrings.Lower` | git/worktree_manager.py:392 | `stdout.lower()` keeps the length, maps every upper-case ASCII letter to its lower-case letter (code point plus 32), leaves no upper-case ASCII letter and changes nothing else |
| `PyStrings.LowerAppend` | git/worktree_manager.py:392 | lower-casing a concatenation lower-cases each part |
| `PyStrings.Contains` | git/worktree_manager.py:392 | `sub in s`: a string found in `s` is never longer than `s` |
| `PyStrings.ContainsIff` | git/worktree_manager.py:392 | `"conflict" in s` holds exactly when the word occurs at some index of `s`, in both directions |
| `PyStrings.MissingCharNotContained` | git/worktree_manager.py:392 | text lacking one of the word's characters never contains the word |
| `PyStrings.SplitOn` | git/worktree_manager.py:394 | `split("\n")` gives one piece more than there are newlines, and no piece contains a newline |
| `PyStrings.JoinSplitOn` | git/worktree_manager.py:394 | joining the pieces of `split("\n")` with newlines gives back the report |
| `PyStrings.SplitOnJoin` | git/worktree_manager.py:394 | splitting a join of newline-free pieces gives back those pieces |
| `PyStrings.Tokens` | git/worktree_manager.py:398 | every token of `line.split()` is non-empty and has no whitespace |
| `PyStrings.ConcatTokens` | git/worktree_manager.py:398 | the tokens, glued together, are exactly the non-space characters of the line, in order |
| `PyStrings.LastTokenEndsText` | git/worktree_manager.py:398-400 | `parts[-1]` is the line's final word: before it there is nothing or whitespace, and after it only whitespace |
| `PyStrings.TokensEmptyIff` | git/worktree_manager.py:398 | `line.split()` is empty exactly when the line is all whitespace |
| `PyStrings.TokensLeadingWord` | git/worktree_manager.py:398 | after leading whitespace, a word followed by the end or by whitespace is the first token, whole; the rest is split on its own |
| `PyStrings.TokensInterleave` | git/worktree_manager.py:398 | words separated by non-empty whitespace runs of any length, with optional whitespace before and after, split into exactly those words |
| `PyStrings.TokensOfFiveWords` | git/worktree_manager.py:398-399 | five single-space-separated words split into exactly those five tokens |
| `Conflicts.SignalsConflict` | git/worktree_manager.py:392 | the gate passes exactly when the exit status is non-zero or "conflict" occurs at some index of the lower-cased report |
| `Conflicts.ConflictOfLine` | git/worktree_manager.py:396-405 | a line yields a record exactly when it starts with "changed in both" and has at least four tokens; the record has type content and its path is one of the line's tokens, non-empty and free of whitespace |
| `Conflicts.ReportConflicts` | git/worktree_manager.py:391-406 | a report that does not pass the gate yields nothing; there is never more than one record per report line |
| `Conflicts.ClassifyMergeReport` | git/worktree_manager.py:391-409 | the scanning loop returns exactly `ReportConflicts(exitCode, stdout)` |
| `Conflicts.ConflictsOfLines` | git/worktree_manager.py:394-406 | the loop over the report's lines: every record it collects has type content and a non-empty, whitespace-free path |
| `Conflicts.ConflictsOfLinesAppend` | git/worktree_manager.py:394-406 | scanning two line lists one after the other gives the records of the first, then of the second, so line order is kept |
| `Conflicts.ConflictsOfLinesBound` | git/worktree_manager.py:394-406 | there are never more conflict records than report lines |
| `Conflicts.ConflictsOfLinesSound` | git/worktree_manager.py:395-406 | every record comes from a matching line and has type content |
| `Conflicts.ConflictsOfLinesComplete` | git/worktree_manager.py:395-406 | every matching line contributes its record |
| `Conflicts.ConflictPathEndsLine` | git/worktree_manager.py:398-400 | a record's path is the final word of its line |
| `Conflicts.CleanReportHasNoConflicts` | git/worktree_manager.py:392 | exit status 0 with no "conflict" in any letter case yields no records |
| `Conflicts.OneChangedInBothLine` | git/worktree_manager.py:392-406 | a failing merge whose report is one line `changed in both x <path>` yields exactly `[ConflictFile(path, content)]` |
| `Conflicts.UnsignalledLineIgnored` | git/worktree_manager.py:392 | the same kind of line, from a merge exiting 0 without the word "conflict", yields nothing |
| `Conflicts.MentionOpensGate` | git/worktree_manager.py:392 | a report that contains any letter-case spelling of "conflict" anywhere passes the gate, whatever the exit status |
| `Conflicts.ShoutedConflictOpensGate` | git/worktree_manager.py:392 | a report containing git's `CONFLICT` marker passes the gate even when the merge exits 0 |
| `VcsClient.Vcs.AddWorktree` | git/worktree_manager.py:207-221 | appends one `worktree add` call, with its arguments and outcome, to the log |
| `VcsClient.Vcs.RemoveWorktree` | git/worktree_manager.py:269-279 | appends one `worktree remove` call, with its force flag and outcome, to the log |
| `VcsClient.Vcs.DeleteBranch` | git/worktree_manager.py:282-288 | appends one `branch -D` call and its outcome to the log |
| `VcsClient.Vcs.MergeTree` | git/worktree_manager.py:382-388 | appends one `merge-tree` call, with its exit status and report, to the log |
| `Worktrees.WorktreePath` | git/worktree_manager.py:200 | the worktree path starts with `<base>/worktree-`, and what follows is the agent identifier |
| `Worktrees.BranchName` | git/worktree_manager.py:201 | the branch name starts with `agent-`, and what follows is the agent identifier |
| `Worktrees.NamesDetermineAgent` | git/worktree_manager.py:200-201 | the path string `<base>/worktree-<id>` and the branch name each determine the agent: two agents share one only if they are the same agent. This is about the string before `pathlib` normalisation (see "Left out") |
| `Worktrees.IsStale` | git/worktree_manager.py:502-503 | the integer staleness test agrees with `(now - last_active) / 60 > threshold` over the reals |
| `Worktrees.NewestExists` | git/worktree_manager.py:320-326 | every non-empty set of rows has a newest one, so `ORDER BY created_at DESC` has a first row |
| `Worktrees.EnumerationSize` | git/worktree_manager.py:328-342 | a listing that holds every row exactly once has as many entries as the table has rows |
| `Worktrees.RemovedAgentsIff` | git/worktree_manager.py:508-512 | when every attempt is for a different agent, an agent counts as removed exactly when its own attempt ended with both removals succeeding |
| `Worktrees.StaleRows` | git/worktree_manager.py:501-503 | the rows the sweep selects from its listing, in listing order, never more than the listing holds |
| `Worktrees.StaleRowsSound` | git/worktree_manager.py:501-503 | every row the sweep selects is a row of the listing, and stale |
| `Worktrees.StaleRowsComplete` | git/worktree_manager.py:501-503 | every stale row of the listing is selected |
| `Worktrees.StaleRowsKeepOrder` | git/worktree_manager.py:501-503 | the selected rows keep distinct identifiers and newest-first order |
| `Worktrees.StaleRegistry` | git/worktree_manager.py:501-503 | the stale part of the table holds exactly the stale agents, each with its own row |
| `Worktrees.StaleRowsListing` | git/worktree_manager.py:498-503 | the stale rows of a complete newest-first listing list the stale part of the table: each stale row exactly once, nothing else, newest first |
| `Worktrees.SweepDone` | git/worktree_manager.py:498-515 | after the last row, the attempts cover the stale rows newest first, the log holds exactly their calls, and the table lost exactly the agents whose removal fully succeeded; the count is their number |
| `Worktrees.WorktreeManager.constructor` | git/worktree_manager.py:109-171 | the manager opens over the rows already in the table, with the given base directory and engine |
| `Worktrees.WorktreeManager.GetWorktree` | git/worktree_manager.py:415-449 | returns a row exactly when the agent has one, and that row is filed under the agent's own identifier |
| `Worktrees.WorktreeManager.CreateWorktree` | git/worktree_manager.py:173-242 | a known agent is refused with its existing path, with no engine call and no table change. Otherwise exactly one `worktree add` is made, of `<base>/worktree-<id>` on branch `agent-<id>`. Only on success is exactly one active row added, with `created_at = last_active = now`, and its path returned. On failure nothing changes |
| `Worktrees.WorktreeManager.RemoveWorktree` | git/worktree_manager.py:244-301 | an unknown agent is refused with no engine call. The branch is deleted only after the worktree removal succeeded. The row is dropped, and the other rows kept, only when both succeeded. Otherwise the table is unchanged |
| `Worktrees.WorktreeManager.ListWorktrees` | git/worktree_manager.py:303-342 | returns every row exactly once, each as stored, ordered by `created_at` newest first |
| `Worktrees.WorktreeManager.UpdateLastActive` | git/worktree_manager.py:451-478 | the agent's `last_active` becomes `now` and nothing else changes. No row is added or dropped. An unknown agent changes nothing |
| `Worktrees.WorktreeManager.DetectConflicts` | git/worktree_manager.py:344-409 | an unknown agent is refused with no engine call. Otherwise exactly one `merge-tree` of the agent's branch into the target is made, and the result is the classification of its exit status and report. The table is never changed |
| `Worktrees.WorktreeManager.SweepRow` | git/worktree_manager.py:501-512 | one pass of the sweep loop: a row that is not stale is passed over; a stale row gets one forced removal, recorded as an attempt with its logged calls; the row is dropped and counted only if that removal fully succeeded. Both loop invariants hold one row further |
| `Worktrees.WorktreeManager.SweepListing` | git/worktree_manager.py:501-512 | the whole loop over the listing: afterwards the attempts are exactly the listing's stale rows in order, the log grew by exactly their calls, and the table lost exactly the fully removed stale agents |
| `Worktrees.WorktreeManager.CleanupStaleWorktrees` | git/worktree_manager.py:480-515 | one forced removal is attempted per stale row, each stale row exactly once and no other row, newest first. The engine log grows by exactly those attempts' calls: a forced `worktree remove`, then `branch -D` only if that succeeded. A row is dropped exactly when its attempt had both calls succeed; every other row is kept. The count returned is the number of rows dropped, so at most the number of stale rows |

## Left out

- SQLite storage: the connection handling, the table creation and the durability
  of each write. The registry is an in-memory map. The constructor receives the
  rows already in the table.
- The constructor's filesystem work is not modelled: the `.git` existence check
  that raises `ValueError`, the default base directory and database path, and
  `mkdir`. The model starts from an already resolved base directory.
- The `git` subprocesses are replaced by the `Vcs` class. It does not model Git's
  own behaviour, and a failure carries no diagnostic text (`VcsFailed`).
- Timestamps are whole seconds instead of ISO-8601 strings with microseconds. The
  floating-point rounding of the minute count at line 502 is not modelled.
- Rows with equal `created_at` may be listed in any order, because the table
  query leaves ties unordered.
- `Worktrees.WorktreePath`: a worktree path is the base directory, then
  `/worktree-`, then the agent identifier, as a plain string. The `pathlib`
  normalisation of repeated separators, a trailing separator or `.` components
  is not modelled. It changes the rendered path in two cases: an identifier
  that contains `/`, and the root base directory `/`, where `pathlib` renders
  `/worktree-<id>` but the model gives `//worktree-<id>`.
- `Worktrees.NamesDetermineAgent`: holds for the path strings only. With
  `pathlib` normalisation, two identifiers containing `/` can share one path:
  "x" and "x/", or "a/b" and "a//b". Identifiers without `/` are unaffected.
- Default arguments are not modelled; every caller passes each value
  explicitly. The source's defaults are `base_branch="main"` (line 173),
  `force=False` (line 244), `target_branch="main"` (line 345) and
  `stale_threshold_minutes=60` (line 480).
- `PyStrings.Lower`: only the ASCII letters are lower-cased. Python's full Unicode
  case mapping is not modelled. No non-ASCII mapping yields the ASCII word
  "conflict" as a substring.
- The `our_version`, `their_version` and `base_version` fields of a conflict
  record are not modelled, because the code never fills them.
- The status values "stale" and "merged" never appear. The status is a string,
  and every write sets it to "active".
- Not modelled: logging, the unreachable `CalledProcessError` handler in
  `detect_conflicts` (the merge runs without `check=True`), and the demo block.
- Concurrent callers are not modelled. This includes two `create_worktree` calls
  racing between the check and the insert. Everything is sequential.
- `Worktrees.WorktreeManager.UpdateLastActive`: it promises no monotonicity,
  because the code stores whatever time it reads.
