# py-builder, modelled in Dafny

py-builder builds a tagged CPython release from source and alt-installs it.
It makes sure a local CPython checkout exists, cloning it if `--clone` was
given. It then updates the checkout to `main`, fetches and lists the tags,
and checks the requested tag against them. If the tag is missing, it prints
the known tags that contain the request as a substring, sorted, and exits
with status 1. If the tag is found, it checks the tag out and runs
`./configure`, `make` and `make altinstall`, the last through `sudo` when
the effective user is not root. Every build command runs with `check=True`,
so the first non-zero exit ends the run.

The model keeps this decision logic as pure functions. The outside world
enters only as oracles passed in as parameters:

- `exitCode: nat -> int` gives the exit code of plan step `i`;
- `listing: string` is what `git tag` prints;
- `present: nat -> bool` says whether the checkout directory exists after `n` clone attempts;
- `euid: nat` is the effective user id.

The modules are:

- `Lines`: Python's `str.split("\n")` and its inverse.
- `Substring`: Python's `needle in hay` on strings.
- `Order`: Python's string `<` and `sorted` of a set.
- `Tags`: parsing the tag listing, `find_near_tags`, and resolving a tag to `Found` or `NotFound(suggestions)`.
- `Commands`: the command values, and the fold that runs checked commands and stops at the first failure.
- `Builder`: the build plan, `build`, `check_repo_exists`, and the program after argument parsing.
- `Results`: a value-or-error type for the `KeyError` that tag parsing can raise.

Two behaviours of the code are worth stating up front:

- Tag parsing is not total. The code builds a set of the segments and removes `""` with `set.remove`, which raises `KeyError` when no segment is empty, for example on a single unterminated line. `Tags.ParseTags` models that error, and `Tags.ParseListing` shows that output from `git tag` (each line newline-terminated) always parses.
- A failed command ends the run with status 1: the `CalledProcessError` raised by `check=True` is never caught (see "Left out").

## Model

| member | source | states |
|---|---|---|
| Lines.Split | py-builder/__main__.py:53 | the output splits into at least one segment, and no segment contains a newline |
| Lines.JoinSplit | py-builder/__main__.py:53 | splitting loses nothing: joining the segments with newlines gives back the original text |
| Lines.SplitJoin | py-builder/__main__.py:53 | splitting is the exact inverse of joining newline-free segments, so the segments come back unchanged |
| Lines.EmptySegmentIff | py-builder/__main__.py:53-54 | some segment is empty exactly when the text is empty, starts or ends with a newline, or has a blank line |
| Tags.ParseTags | py-builder/__main__.py:53-55 | parsing succeeds exactly when some segment is empty (otherwise `remove("")` raises); on success the tags never include `""`, every non-empty segment is a tag, and every tag is a segment |
| Tags.ParseTagsOkIff | py-builder/__main__.py:53-55 | parsing succeeds exactly when the output is empty, starts or ends with a newline, or has a blank line; one unterminated line fails |
| Tags.ParsedTagsAreLines | py-builder/__main__.py:53-55 | no parsed tag contains a newline |
| Tags.ParseListing | py-builder/__main__.py:50-55 | round trip: a newline-terminated listing of non-empty tags parses back to exactly the set of those tags |
| Substring.ContainsAgrees | py-builder/__main__.py:123 | the position-based substring test agrees with a recursive reference definition (prefix, or contained in the tail) |
| Substring.FirstCharAbsent | py-builder/__main__.py:123 | a request whose first character never appears in a tag does not occur in that tag |
| Substring.ContainsSelfAndEmpty | py-builder/__main__.py:123 | every string contains itself and the empty string |
| Tags.NearTags | py-builder/__main__.py:119-123 | the near tags are a subset of the known tags, and a known tag is near exactly when the request occurs in it |
| Tags.EmptyRequestNearAll | py-builder/__main__.py:119-123 | an empty request is near every known tag |
| Order.LessIrreflexive | py-builder/__main__.py:110 | no string is below itself in Python's string order |
| Order.LessAsymmetric | py-builder/__main__.py:110 | two strings are never each below the other |
| Order.LessTransitive | py-builder/__main__.py:110 | the string order is transitive |
| Order.LessTotal | py-builder/__main__.py:110 | any two different strings are ordered one way or the other |
| Order.LessAtFirstDifference | py-builder/__main__.py:110 | strings with a common prefix are ordered by the first character where they differ |
| Order.LeastExists | py-builder/__main__.py:110 | every non-empty finite set of strings has a smallest element |
| Order.Least | py-builder/__main__.py:110 | the chosen element is in the set and below every other element |
| Order.SortSet | py-builder/__main__.py:110 | `sorted(list(s))` is strictly ascending, holds exactly the elements of `s`, and has the same size as `s` |
| Order.SortedDistinct | py-builder/__main__.py:110 | a strictly ascending sequence has no duplicates |
| Order.SortedUnique | py-builder/__main__.py:110 | only one strictly ascending sequence holds a given set, so the sorted list does not depend on the set's iteration order |
| Tags.Resolve | py-builder/__main__.py:61-62 | the tag is found exactly when it is a known tag; on a miss the suggestions are strictly ascending and are exactly the known tags containing the request |
| Tags.SuggestionsAreSortedNearTags | py-builder/__main__.py:105-116 | on a miss the suggestions equal any strictly sorted listing of the near tags, and have no duplicates |
| Tags.ExampleMiss | py-builder/__main__.py:105-123 | with known tags `v3.11.0`, `v3.11.1`, `v3.12.0`, the request `v3.11` is not found, and the suggestions are `["v3.11.0", "v3.11.1"]` in that order |
| Tags.ExampleNearTags | py-builder/__main__.py:119-123 | the near tags of `v3.11` among `v3.11.0`, `v3.11.1`, `v3.12.0` are the first two |
| Tags.ExampleSorted | py-builder/__main__.py:110 | `v3.11.0` sorts before `v3.11.1` |
| Commands.Install | py-builder/__main__.py:86-91 | the install command is `sudo make altinstall` exactly when euid is not 0, and `make altinstall` exactly when it is 0 |
| Commands.RunChecked | py-builder/__main__.py:66-99 | under `check=True` the issued commands are always a prefix of the steps; the run succeeds exactly when every step exits 0, and then every step was issued; otherwise the failing step exited non-zero, every step before it exited 0, and it is the last one issued |
| Builder.Build | py-builder/__main__.py:58-102 | the commands issued are a prefix of the fixed plan; status 0 happens exactly when every step exits 0 and the tag is known; a failure at step k means step k exited non-zero, all earlier steps exited 0, and exactly steps 0..k were issued; after a clean sync, an unparsable listing ends the run with `TagsUnparsable` and a missing tag with the sorted near tags, each having issued only the four sync commands; a failing sync step stops the run inside the sync; a failure past the sync happens only for a known tag |
| Builder.MissStopsBeforeCheckout | py-builder/__main__.py:58-116 | a tag missing from a valid listing yields the sorted near tags and status 1; only the four sync commands run, and no configure, make or install command is issued |
| Builder.UnparsableStopsRun | py-builder/__main__.py:50-61 | after a clean sync, a listing without an empty segment ends the run with `TagsUnparsable` and status 1, having issued only the four sync commands and no configure, make or install |
| Builder.FirstFailureStopsRun | py-builder/__main__.py:66-99 | if step k is the first non-zero exit (and the tag is known, when k is past the listing), the run fails at k and issues exactly steps 0..k |
| Builder.KnownTagBuildsEverything | py-builder/__main__.py:58-102 | a known tag with every step exiting 0 runs checkout main, pull, fetch tags, list tags, checkout tag, configure, make and install in that order, and ends with status 0 |
| Builder.ListedTagKnown | py-builder/__main__.py:50-61 | every tag printed in a newline-terminated listing of non-empty tags passes the membership check of `build` |
| Builder.ExampleBuild | py-builder/__main__.py:58-102 | a concrete run of tag `v3.12.0` as a non-root user issues the eight commands, ending with `sudo make altinstall`, and succeeds |
| Builder.CheckRepoExists | py-builder/__main__.py:17-30 | at most one clone is issued, and only when clone is requested and the checkout is missing; the checkout counts as present exactly when it existed at first or appeared after that single clone |
| Builder.Program | py-builder/__main__.py:162-163 | the run fails with a missing repository exactly when the checkout is absent and no clone produced it; then no build command runs; status 0 needs the checkout, every exit 0 and a known tag; once the checkout is there, the outcome (failing step and code, or suggestions) is exactly the build's, and the commands are any clone followed by the build's |
| Builder.MissingRepoRunsNothing | py-builder/__main__.py:17-26 | without `--clone` a missing checkout fails and issues nothing; with it, one clone is tried, and if the checkout is still absent the run fails and issues only that clone |

## Left out

- Running subprocesses, git, `./configure`, `make` and `sudo`. Each command is a value, and its exit code comes from the `exitCode` oracle.
- The clone's exit code (py-builder/__main__.py:30). The source never checks it, so the model takes no such parameter. Only the re-check through `present(1)` decides the outcome.
- Argument parsing and the `--dryrun` and `--verbose` flags (py-builder/__main__.py:126-160). `--dryrun` only raises `NotImplementedError`, and `--verbose` only prints a notice.
- The checkout path, built from `XDG_CACHE_HOME` (py-builder/__main__.py:14), and the `exists()`/`is_dir()` test (line 18). The `present` oracle replaces both.
- Printed messages and stdout/stderr redirection. Only the content and order of the suggestions are modelled.
- `sys.exit` and uncaught exceptions become an `Outcome` value. `ExitStatus` maps `Built` to 0 and every other outcome to 1.
- Exit status on a failed command: an uncaught `CalledProcessError` ends CPython with status 1, so `ExitStatus` gives 1. The failing command's own code is kept in `StepFailed`.
- Two runs racing on the same working tree. The model is sequential and has no shared state.
