/**
  The external commands the builder issues and the `check=True` discipline
  under which it runs them. Commands are never executed here: the exit code
  each one would return is an oracle supplied by the caller.
 */
module Commands {

  /** The working directory a command runs in: the CPython checkout or its parent. */
  datatype Dir = RepoDir | RepoParent

  /** One subprocess invocation: its argument vector and working directory. */
  datatype Command = Command(argv: seq<string>, cwd: Dir)

  const Remote: string := "git@github.com:python/cpython.git"

  const Clone: Command := Command(["git", "clone", Remote], RepoParent)
  const CheckoutMain: Command := Command(["git", "checkout", "main"], RepoDir)
  const Pull: Command := Command(["git", "pull"], RepoDir)
  const FetchTags: Command := Command(["git", "fetch", "--tags"], RepoDir)
  const ListTags: Command := Command(["git", "tag"], RepoDir)
  const Configure: Command := Command(["./configure"], RepoDir)
  const Make: Command := Command(["make"], RepoDir)

  const SudoInstall: seq<string> := ["sudo", "make", "altinstall"]
  const DirectInstall: seq<string> := ["make", "altinstall"]

  /** `git checkout <tag>`, run in the checkout. */
  function CheckoutTag(tag: string): (c: Command)
  {
    Command(["git", "checkout", tag], RepoDir)
  }

  /**
    `make altinstall`, run through `sudo` exactly when the effective user is
    not root; exactly one of the two forms is chosen.
   */
  function Install(euid: nat): (c: Command)
    ensures c.argv == SudoInstall <==> euid != 0
    ensures c.argv == DirectInstall <==> euid == 0
    ensures c.cwd == RepoDir
  {
    Command(if euid != 0 then SudoInstall else DirectInstall, RepoDir)
  }

  /** Steps `from` up to (not including) `to` all exit 0. */
  predicate ExitsZero(exitCode: nat -> int, from: nat, to: nat)
  {
    forall i :: from <= i < to ==> exitCode(i) == 0
  }

  /** How a run of checked steps ended: every step exited 0, or step `step` exited `code != 0`. */
  datatype Status = AllZero | Failed(step: nat, code: int)

  /** The commands actually issued, in order, and how the run ended. */
  datatype Trace = Trace(issued: seq<Command>, status: Status)

  /**
    Runs `steps[k..]` one after another, each with `check=True`: a non-zero
    exit raises, so the first failing step is the last one issued.
    `exitCode(i)` is the exit code step `i` returns.
   */
  function RunChecked(steps: seq<Command>, exitCode: nat -> int, k: nat): (r: Trace)
    requires k <= |steps|
    ensures r.status.AllZero? <==> ExitsZero(exitCode, k, |steps|)
    ensures r.status.AllZero? ==> r.issued == steps[k..]
    ensures r.issued <= steps[k..]
    ensures r.status.Failed? ==> exitCode(r.status.step) != 0 && r.status.code == exitCode(r.status.step)
    ensures r.status.Failed? ==> ExitsZero(exitCode, k, r.status.step)
    ensures r.status.Failed? ==> k <= r.status.step < |steps| && |r.issued| == r.status.step + 1 - k
    decreases |steps| - k
  {
    if k == |steps| then Trace([], AllZero)
    else if exitCode(k) != 0 then Trace([steps[k]], Failed(k, exitCode(k)))
    else
      var rest := RunChecked(steps, exitCode, k + 1);
      Trace([steps[k]] + rest.issued, rest.status)
  }
}
