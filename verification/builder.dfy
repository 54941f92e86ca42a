/**
  The build driver: the repository presence check, the fixed plan of
  commands for a requested tag, and the run of that plan against exit-code,
  directory-existence and tag-listing oracles.
 */
module Builder {
  import opened Results
  import opened Commands
  import opened Tags
  import opened Order
  import opened Lines

  /** `update_repo` followed by the two commands of `get_tags`. */
  const Sync: seq<Command> := [CheckoutMain, Pull, FetchTags, ListTags]

  /** The number of commands the tag must be resolved after. */
  const SyncLength: nat := |Sync|

  /** The number of commands in the whole plan. */
  const PlanLength: nat := SyncLength + 4

  /** Every command a successful build issues, in the order it issues them. */
  function Plan(tag: string, euid: nat): (p: seq<Command>)
    ensures |p| == PlanLength
    ensures p[..SyncLength] == Sync
  {
    Sync + [CheckoutTag(tag), Configure, Make, Install(euid)]
  }

  /** How a run ends. Everything except `Built` ends the process with a non-zero status. */
  datatype Outcome =
    | RepoMissing                           // FileNotFoundError from check_repo_exists
    | StepFailed(step: nat, code: int)      // CalledProcessError from a checked command
    | TagsUnparsable                        // KeyError from removing the empty segment
    | TagNotFound(suggestions: seq<string>) // tag_not_found_handler
    | Built

  /** The commands issued, in order, and how the run ended. */
  datatype Run = Run(issued: seq<Command>, outcome: Outcome)

  /** Every command of the plan exits 0. */
  predicate AllStepsZero(exitCode: nat -> int)
  {
    ExitsZero(exitCode, 0, PlanLength)
  }

  /** The listing parses and contains the requested tag. */
  predicate TagKnown(tag: string, listing: string)
  {
    ParseTags(listing).Ok? && tag in ParseTags(listing).value
  }

  /**
    `build`: sync to the default branch, list the tags, resolve the requested
    tag, then check it out, configure, make and install it. `exitCode(i)` is the
    exit code of step `i` of the plan; `listing` is what `git tag` prints.
   */
  function Build(tag: string, euid: nat, exitCode: nat -> int, listing: string): (r: Run)
    ensures r.issued <= Plan(tag, euid)
    ensures !r.outcome.RepoMissing?
    ensures r.outcome.Built? <==> AllStepsZero(exitCode) && TagKnown(tag, listing)
    ensures r.outcome.Built? ==> r.issued == Plan(tag, euid)
    ensures r.outcome.StepFailed? ==>
      exitCode(r.outcome.step) != 0 && r.outcome.code == exitCode(r.outcome.step)
    ensures r.outcome.StepFailed? ==> ExitsZero(exitCode, 0, r.outcome.step)
    ensures r.outcome.StepFailed? ==> r.outcome.step < PlanLength && |r.issued| == r.outcome.step + 1
    ensures r.outcome.TagsUnparsable? || r.outcome.TagNotFound? ==>
      ExitsZero(exitCode, 0, SyncLength)
    ensures r.outcome.TagsUnparsable? ==>
      r.issued == Sync && ParseTags(listing).Err?
    ensures r.outcome.TagNotFound? ==> r.issued == Sync
    ensures r.outcome.TagNotFound? ==>
      ParseTags(listing).Ok? && tag !in ParseTags(listing).value
    ensures r.outcome.TagNotFound? ==>
      Resolve(tag, ParseTags(listing).value) == NotFound(r.outcome.suggestions)
    ensures ExitsZero(exitCode, 0, SyncLength) && ParseTags(listing).Err? ==>
      r == Run(Sync, TagsUnparsable)
    ensures ExitsZero(exitCode, 0, SyncLength) && ParseTags(listing).Ok? && tag !in ParseTags(listing).value ==>
      r == Run(Sync, TagNotFound(SortSet(NearTags(tag, ParseTags(listing).value))))
    ensures !ExitsZero(exitCode, 0, SyncLength) ==> r.outcome.StepFailed? && r.outcome.step < SyncLength
    ensures r.outcome.StepFailed? && r.outcome.step >= SyncLength ==> TagKnown(tag, listing)
  {
    var plan := Plan(tag, euid);
    var sync := RunChecked(plan[..SyncLength], exitCode, 0);
    if sync.status.Failed? then
      Run(sync.issued, StepFailed(sync.status.step, sync.status.code))
    else
      match ParseTags(listing)
      case Err(_) => Run(sync.issued, TagsUnparsable)
      case Ok(tags) =>
        match Resolve(tag, tags)
        case NotFound(suggestions) => Run(sync.issued, TagNotFound(suggestions))
        case Found =>
          var rest := RunChecked(plan, exitCode, SyncLength);
          assert sync.issued + plan[SyncLength..] == plan;
          assert rest.status.Failed? ==>
            sync.issued + rest.issued == plan[..rest.status.step + 1];
          Run(sync.issued + rest.issued,
              if rest.status.Failed? then StepFailed(rest.status.step, rest.status.code) else Built)
  }

  /**
    A requested tag missing from a well-formed listing stops the run after the
    tag listing: the suggestions are the sorted near tags, neither the tag
    checkout nor configure, make or install is issued, and the status is 1.
   */
  lemma MissStopsBeforeCheckout(tag: string, euid: nat, exitCode: nat -> int, listing: string)
    requires ExitsZero(exitCode, 0, SyncLength)
    requires ParseTags(listing).Ok? && tag !in ParseTags(listing).value
    ensures Build(tag, euid, exitCode, listing).outcome
      == TagNotFound(SortSet(NearTags(tag, ParseTags(listing).value)))
    ensures |Build(tag, euid, exitCode, listing).issued| == SyncLength
    ensures Configure !in Build(tag, euid, exitCode, listing).issued
    ensures Make !in Build(tag, euid, exitCode, listing).issued
    ensures Install(euid) !in Build(tag, euid, exitCode, listing).issued
    ensures ExitStatus(Build(tag, euid, exitCode, listing).outcome) == 1
  {
    var tags := ParseTags(listing).value;
    var plan := Plan(tag, euid);
    assert RunChecked(plan[..SyncLength], exitCode, 0).status.AllZero?;
    assert Resolve(tag, tags) == NotFound(SortSet(NearTags(tag, tags)));
    var r := Build(tag, euid, exitCode, listing);
    assert r.issued == Sync;
  }

  /**
    A listing without an empty segment makes removing `""` raise after a
    clean sync: the run stops after the tag listing, the tag checkout is never
    issued, nothing is configured, made or installed, and the status is 1.
   */
  lemma UnparsableStopsRun(tag: string, euid: nat, exitCode: nat -> int, listing: string)
    requires ExitsZero(exitCode, 0, SyncLength)
    requires ParseTags(listing).Err?
    ensures Build(tag, euid, exitCode, listing) == Run(Sync, TagsUnparsable)
    ensures Configure !in Build(tag, euid, exitCode, listing).issued
    ensures Make !in Build(tag, euid, exitCode, listing).issued
    ensures Install(euid) !in Build(tag, euid, exitCode, listing).issued
    ensures ExitStatus(Build(tag, euid, exitCode, listing).outcome) == 1
  {
  }

  /**
    With `check=True` on every step, the first non-zero exit ends the run:
    the failing step is the last command issued and nothing after it runs.
    Steps after the tag listing are only reached when the tag is known.
   */
  lemma FirstFailureStopsRun(tag: string, euid: nat, exitCode: nat -> int, listing: string, k: nat)
    requires k < PlanLength && exitCode(k) != 0
    requires ExitsZero(exitCode, 0, k)
    requires k >= SyncLength ==> TagKnown(tag, listing)
    ensures Build(tag, euid, exitCode, listing).outcome == StepFailed(k, exitCode(k))
    ensures Build(tag, euid, exitCode, listing).issued == Plan(tag, euid)[..k + 1]
    ensures ExitStatus(Build(tag, euid, exitCode, listing).outcome) != 0
  {
  }

  /**
    A known tag with every step exiting 0 issues the whole plan, in order,
    installing through `sudo` exactly when not root, and ends with status 0.
   */
  lemma KnownTagBuildsEverything(tag: string, euid: nat, exitCode: nat -> int, listing: string)
    requires AllStepsZero(exitCode) && TagKnown(tag, listing)
    ensures Build(tag, euid, exitCode, listing).issued ==
      [CheckoutMain, Pull, FetchTags, ListTags, CheckoutTag(tag), Configure, Make, Install(euid)]
    ensures Build(tag, euid, exitCode, listing).issued[PlanLength - 1].argv ==
      (if euid != 0 then SudoInstall else DirectInstall)
    ensures ExitStatus(Build(tag, euid, exitCode, listing).outcome) == 0
  {
  }

  /**
    A concrete run: `git tag` lists three tags, the requested one among them,
    the user is not root and every command succeeds.
   */
  lemma ExampleBuild(exitCode: nat -> int)
    requires AllStepsZero(exitCode)
    ensures Build("v3.12.0", 1000, exitCode, Listing(["v3.11.0", "v3.11.1", "v3.12.0"])).issued ==
      [ CheckoutMain, Pull, FetchTags, ListTags
      , Command(["git", "checkout", "v3.12.0"], RepoDir)
      , Command(["./configure"], RepoDir)
      , Command(["make"], RepoDir)
      , Command(["sudo", "make", "altinstall"], RepoDir) ]
    ensures Build("v3.12.0", 1000, exitCode, Listing(["v3.11.0", "v3.11.1", "v3.12.0"])).outcome == Built
  {
    ListedTagKnown(["v3.11.0", "v3.11.1", "v3.12.0"], 2);
    KnownTagBuildsEverything("v3.12.0", 1000, exitCode, Listing(["v3.11.0", "v3.11.1", "v3.12.0"]));
  }

  /** Every tag printed in a well-formed listing is known. */
  lemma ListedTagKnown(tags: seq<string>, k: nat)
    requires forall i :: 0 <= i < |tags| ==> tags[i] != "" && Newline !in tags[i]
    requires k < |tags|
    ensures TagKnown(tags[k], Listing(tags))
  {
    ParseListing(tags);
  }

  /** The process exit status: 0 on success, 1 for `sys.exit(1)` and for every uncaught exception. */
  function ExitStatus(o: Outcome): (status: int)
  {
    if o.Built? then 0 else 1
  }

  /** What `check_repo_exists` found, and the clone commands it issued. */
  datatype RepoCheck = RepoCheck(issued: seq<Command>, present: bool)

  /**
    `check_repo_exists(clone)`. `present(n)` says whether the checkout exists
    after `n` clone attempts, starting from `cloned`. The exit code of the
    clone is never read: only the re-check decides.
   */
  function CheckRepoExists(clone: bool, present: nat -> bool, cloned: nat): (r: RepoCheck)
    ensures r.issued == [] || r.issued == [Clone]
    ensures r.issued == [Clone] <==> clone && !present(cloned)
    ensures r.present <==> present(cloned) || (clone && present(cloned + 1))
    decreases if clone then 1 else 0
  {
    if present(cloned) then RepoCheck([], true)
    else if clone then
      var again := CheckRepoExists(false, present, cloned + 1);
      RepoCheck([Clone] + again.issued, again.present)
    else RepoCheck([], false)
  }

  /**
    The whole program after argument parsing: the presence check, then the
    build. `present(0)` is whether the checkout exists at start, `present(1)`
    whether it exists after one clone.
   */
  function Program(tag: string, clone: bool, euid: nat, present: nat -> bool,
                   exitCode: nat -> int, listing: string): (r: Run)
    ensures r.outcome.RepoMissing? <==> !present(0) && !(clone && present(1))
    ensures r.outcome.RepoMissing? ==> r.issued == (if clone then [Clone] else [])
    ensures ExitStatus(r.outcome) == 0 <==>
      (present(0) || (clone && present(1))) && AllStepsZero(exitCode) && TagKnown(tag, listing)
    ensures !r.outcome.RepoMissing? ==>
      r.issued == (if present(0) then [] else [Clone]) + Build(tag, euid, exitCode, listing).issued
    ensures !r.outcome.RepoMissing? ==> r.outcome == Build(tag, euid, exitCode, listing).outcome
  {
    var repo := CheckRepoExists(clone, present, 0);
    if !repo.present then Run(repo.issued, RepoMissing)
    else
      var build := Build(tag, euid, exitCode, listing);
      Run(repo.issued + build.issued, build.outcome)
  }

  /**
    Without `--clone` a missing checkout fails with nothing issued; with it,
    at most one clone is attempted and a clone that leaves no checkout behind
    still fails. No build step runs in either case.
   */
  lemma MissingRepoRunsNothing(tag: string, clone: bool, euid: nat, present: nat -> bool,
                               exitCode: nat -> int, listing: string)
    requires !present(0)
    ensures !clone ==> Program(tag, clone, euid, present, exitCode, listing) == Run([], RepoMissing)
    ensures clone && !present(1) ==>
      Program(tag, clone, euid, present, exitCode, listing) == Run([Clone], RepoMissing)
    ensures clone && present(1) ==>
      Program(tag, clone, euid, present, exitCode, listing).issued ==
        [Clone] + Build(tag, euid, exitCode, listing).issued
  {
  }
}
