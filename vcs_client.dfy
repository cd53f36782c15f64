/**
 * The version-control engine as the manager sees it: four primitives whose
 * outcome the manager cannot predict. Every call is appended to a ghost log,
 * so that the manager's contracts can say which calls it made, in which
 * order, with which arguments, and how each one ended.
 */
module VcsClient {

  /** One primitive call and its outcome. */
  datatype Call =
    | AddWorktreeCall(path: string, branch: string, baseBranch: string, ok: bool)
    | RemoveWorktreeCall(path: string, force: bool, ok: bool)
    | DeleteBranchCall(branch: string, ok: bool)
    | MergeTreeCall(targetBranch: string, sourceBranch: string, exitCode: int, stdout: string)

  class Vcs {
    /** Every call made so far, oldest first. */
    ghost var log: seq<Call>

    constructor ()
      ensures log == []
    {
      log := [];
    }

    /** `git worktree add <path> -b <branch> <baseBranch>`: succeeds or fails. */
    method AddWorktree(path: string, branch: string, baseBranch: string) returns (ok: bool)
      modifies this
      ensures log == old(log) + [AddWorktreeCall(path, branch, baseBranch, ok)]
    {
      ok := *;
      log := log + [AddWorktreeCall(path, branch, baseBranch, ok)];
    }

    /** `git worktree remove <path>`, with `--force` when `force` holds. */
    method RemoveWorktree(path: string, force: bool) returns (ok: bool)
      modifies this
      ensures log == old(log) + [RemoveWorktreeCall(path, force, ok)]
    {
      ok := *;
      log := log + [RemoveWorktreeCall(path, force, ok)];
    }

    /** `git branch -D <branch>`. */
    method DeleteBranch(branch: string) returns (ok: bool)
      modifies this
      ensures log == old(log) + [DeleteBranchCall(branch, ok)]
    {
      ok := *;
      log := log + [DeleteBranchCall(branch, ok)];
    }

    /** `git merge-tree <targetBranch> <sourceBranch>`: an exit status and a textual report. */
    method MergeTree(targetBranch: string, sourceBranch: string) returns (exitCode: int, stdout: string)
      modifies this
      ensures log == old(log) + [MergeTreeCall(targetBranch, sourceBranch, exitCode, stdout)]
    {
      exitCode := *;
      stdout := *;
      log := log + [MergeTreeCall(targetBranch, sourceBranch, exitCode, stdout)];
    }
  }
}
