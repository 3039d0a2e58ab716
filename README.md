# version-query in Dafny

A model of the core of version-query, a Python library that reads, compares,
increments and predicts software version numbers of the form
`major[.minor[.patch]][pre-release][+local]` and that derives them from the
version tags of a git repository.

The model follows the library's three core files:

- `version_query/version.py`: the `Version` class and `VersionComponent`.
  - Parsing (`from_str`) and rendering (`to_str`).
  - The validating setters of `release`, `pre_release` and `local`.
  - `increment`, `devel_increment` and `from_version`.
  - The sort tuples (`to_tuple(sort=True)`) and the comparison operators built on `__lt__`.
- `version_query/git_query.py`:
  - Turning tags into versions.
  - The walk over the commit history that finds the latest version tag, through merges.
  - `query_git_repo` and `predict_git_repo`.
- `version_query/increment.py`: incrementing a version kept as the 6-tuple
  `(major, minor, release, suffix, patch, commit_sha)`.

Files and modules:

| file | module | what it holds |
|---|---|---|
| `Wrappers.dfy` | `Wrappers` | `Option` stands for Python's `None`; `Result` stands for a value or a raised exception (`ValueError`, `TypeError`, `AssertionError`, `NotImplementedError`, …) |
| `Decimal.dfy` | `Decimal` | the number pattern `0|[1-9][0-9]*`, `int()` and `str()` on it |
| `Versions.dfy` | `Versions` | `VersionComponent` with its flag values; a version as a value; the rules the setters enforce |
| `VersionParse.dfy` | `VersionParse` | `from_str`: the full-match regular expression, written as a deterministic scan |
| `VersionRender.dfy` | `VersionRender` | `to_str` and its parts; both round trips between parsing and rendering, and the inputs where they fail |
| `VersionOrder.dfy` | `VersionOrder` | the sort tuples; `__lt__` including its `NotImplementedError` cases; `==`, `!=`, `>`, `>=`, `<=` derived from it; order laws |
| `VersionIncrement.dfy` | `VersionIncrement` | `increment` and `devel_increment` as functions on version values; their errors and what they advance |
| `VersionObjects.dfy` | `VersionObjects` | the `Version` class with fields updated in place; setters, `increment`, `devel_increment`, `from_version` |
| `GitQuery.dfy` | `GitQuery` | tag preprocessing; the tag-to-version map; the history walk; `query_git_repo`; `predict_git_repo` |
| `IncrementTuple.dfy` | `IncrementTuple` | `increment_nonlocal_version_component` and `increment_local_version_component` |

The git repository is modelled as data:

- `Repo.head` is the checked-out commit, if any.
- `Repo.history` maps a commit to what `iter_commits(rev=commit)` yields, in order.
- `Repo.parents` maps a commit to its parents.
- `Repo.tags` lists the tags, each with its name and commit.

A tag is identified by its position in `Repo.tags`. Whether the tree is dirty,
as the caller's `is_dirty` call reports it, and the current time (the `dirty…`
stamp) are parameters.

A version `v` has the sort key `SortKey(v)`, which consists of three parts:

- the release triple, with a missing number read as 0;
- one key per pre-release segment, or `(1, '', 0)` when there is none;
- one key per local part, where a separator is `0` and a part is lower-cased.

`__lt__` compares the release triples first, then the pre-release keys after
`zip_longest` padding with `(1, '', 0)`, then the local keys. It raises
`NotImplementedError` when the pre-release keys differ but are equal after
padding. Where a local separator meets a local part it compares `0` with a
string, which raises `TypeError`. The model keeps that case, and proves that it
cannot happen between valid versions.
The model proves the order laws of `<` where it does not raise, and that `==`
holds exactly when the sort keys are equal. That makes `__hash__` consistent
with `__eq__`.

## Model

| member | source | states |
|---|---|---|
| Decimal.NatToStrCanonical | version_query/version.py:42 | `str(n)` of a natural number matches the number pattern: digits only, and a leading `0` only for 0 itself |
| Decimal.ValueOfNatToStr | version_query/version.py:55-65 | `int(str(n)) == n` |
| Decimal.NatToStrOfValue | version_query/version.py:42 | `str(int(s)) == s` for every string matching the number pattern |
| Decimal.ParseNumber | version_query/version.py:42 | reading a number succeeds exactly when the input starts with a digit, and it consumes at least one character |
| Decimal.ParseNumberOfNatToStr | version_query/version.py:42 | reading a number from `str(n) + rest`, where `rest` does not start with a digit, gives back `n` and `rest` |
| Decimal.ParseNumberSplits | version_query/version.py:42 | a number read from `s` is its `str` followed by the rest of `s` |
| Versions.LowerStr | version_query/version.py:537 | `.lower()` keeps the length and lowers each character on its own |
| VersionParse.ParsePreReleaseStr | version_query/version.py:77-91 | the loop over the `findall` parts builds exactly the segment list the scan reads |
| VersionParse.ParseItemValid | version_query/version.py:67-91 | each pre-release segment that is read satisfies the segment rules of the `pre_release` setter |
| VersionParse.PreItemsValid | version_query/version.py:77-91 | every segment of a parsed pre-release passes the `pre_release` setter |
| VersionParse.LocalTokensValid | version_query/version.py:93-101 | a parsed local part is an odd-length alternation of alphanumeric parts and `.`/`-` separators, as the `local` setter demands |
| VersionParse.LocalGroupsValid | version_query/version.py:99-101 | the groups the local regex keeps still form a valid local part |
| VersionParse.ParseFullValid | version_query/version.py:103-142 | every version the full match reads passes all three setters |
| VersionParse.ParseValid | version_query/version.py:112-142 | `from_str` never builds a version that its own setters would refuse |
| VersionRender.SegmentsToStrOk | version_query/version.py:504-518 | rendering a valid pre-release succeeds exactly when every segment has a separator |
| VersionRender.ToStrOkIff | version_query/version.py:493-527 | `to_str` of a valid version succeeds exactly when every pre-release segment has a separator |
| VersionRender.SegmentsToStrError | version_query/version.py:504-512 | a segment that cannot be rendered raises `ValueError` |
| VersionRender.ParseFullThenRender | version_query/version.py:103-142 | rendering the full-match reading of `s` gives `s` back when every segment has a separator |
| VersionRender.LocalGroupsKeepsShort | version_query/version.py:99-101 | a local part of at most three tokens is kept whole |
| VersionRender.ParseThenRender | version_query/version.py:112-142 | `to_str(from_str(s)) == s` when every pre-release segment has a separator and the local part has at most three tokens |
| VersionRender.LocalGroupsLoses | version_query/version.py:99-101 | a local part of more than three tokens comes back shorter: `to_str(from_str(s))` succeeds and differs from `s` |
| VersionRender.NoSeparatorFails | version_query/version.py:504-512 | a version parsed with a separator-less segment cannot be rendered: `to_str` raises `ValueError` |
| VersionRender.NoSeparatorExample | version_query/version.py:112-142 | `1.0.0rc3` parses to a segment without a separator, and `to_str` then raises `ValueError` |
| VersionRender.ParseReleaseOfRendered | version_query/version.py:493-502 | the release regex reads back the numbers `release_to_str` wrote |
| VersionRender.PreItemsOfRendered | version_query/version.py:514-518 | the pre-release scan reads back the segments `pre_release_to_str` wrote |
| VersionRender.LocalTokensOfJoin | version_query/version.py:520-523 | the local regex reads back the tokens `local_to_str` joined |
| VersionRender.ParseFullOfRendered | version_query/version.py:525-527 | for a version in canonical form, the full match reads `to_str(v)` back as `v` |
| VersionRender.RenderThenParse | version_query/version.py:525-527 | `from_str(to_str(v)) == v` for every version in canonical form |
| VersionOrder.PreKeys | version_query/version.py:540-546 | no pre-release gives the single key `(1, '', 0)`; otherwise there is one key per segment, in order |
| VersionOrder.LocalKeys | version_query/version.py:548-552 | one key per local token: separators become `0`, parts are lower-cased |
| VersionOrder.PreCompareErr | version_query/version.py:598-605 | the padded comparison raises exactly when the keys are equal after padding, and the error is `NotImplementedError` |
| VersionOrder.PreCompareAsymmetric | version_query/version.py:598-605 | if `xs < ys` then not `ys < xs` |
| VersionOrder.PreCompareConnex | version_query/version.py:598-605 | if not `xs < ys` and no raise, then `ys < xs` |
| VersionOrder.PreCompareTransitive | version_query/version.py:598-605 | the padded pre-release comparison is transitive |
| VersionOrder.LocalCompareAsymmetric | version_query/version.py:607-615 | the local comparison is asymmetric |
| VersionOrder.LocalCompareConnex | version_query/version.py:607-615 | the local comparison is connex where it does not raise |
| VersionOrder.LocalCompareTransitive | version_query/version.py:607-615 | the local comparison is transitive |
| VersionOrder.LocalComparePrefix | version_query/version.py:610-614 | a local key list is less than any proper extension of it |
| VersionOrder.LessAsymmetric | version_query/version.py:589-617 | `a < a` is `False`, and `a < b` excludes `b < a` |
| VersionOrder.LessTransitive | version_query/version.py:589-617 | `<` is transitive |
| VersionOrder.LessConnex | version_query/version.py:589-617 | if `a < b` is `False`, then either the sort keys are equal or `b < a` |
| VersionOrder.EqIffSameKeys | version_query/version.py:574-578 | `a == b` holds exactly when the sort tuples are equal, so equal versions hash alike |
| VersionOrder.LessErr | version_query/version.py:589-617 | on valid versions `<` raises exactly when the releases are equal and the pre-release keys differ but are equal after padding, and then it raises `NotImplementedError` |
| VersionOrder.PaddedEqualRaises | version_query/version.py:598-605 | `1.0.0 < 1.0.0.0.0` raises `NotImplementedError` |
| VersionOrder.MissingReleaseIsZero | version_query/version.py:529-532 | a missing minor or patch number compares equal to 0 |
| VersionOrder.FinalBeatsLabelled | version_query/version.py:540-546 | with equal releases, a version without a pre-release is greater than one whose first segment has a label |
| VersionOrder.ShorterLocalIsLess | version_query/version.py:607-614 | with release and pre-release equal, extending the local part makes the version greater |
| VersionOrder.CaseInsensitive | version_query/version.py:537 | a version compares equal to its copy with labels and local parts lower-cased |
| VersionIncrement.IncrementErrors | version_query/version.py:416-477 | `increment` on a valid version raises exactly in three cases: `ValueError` for an amount below 1 or for `Release`/`Local`, and `AssertionError` for `PrePatch` on a blank first segment |
| VersionIncrement.IncrementValid | version_query/version.py:416-477 | a successful `increment` leaves a version that passes all setters |
| VersionIncrement.IncrementReleaseGreater | version_query/version.py:426-451 | `Major`/`Minor`/`Patch` set the release triple as the code does, drop pre-release and local, and give a greater version |
| VersionIncrement.PrePatchGreater | version_query/version.py:453-460 | `PrePatch` keeps the release and the local part and gives a greater version; the pre-release becomes the single segment `-N`, except that a first segment without a label keeps its separator and gets its counter raised by N |
| VersionIncrement.DevPatchCountsUp | version_query/version.py:462-473 | with a trailing `dev` segment, `DevPatch` raises that segment's counter by N (a missing counter counts as 0), keeps every other segment, the release and the local part, and gives a greater version |
| VersionIncrement.DevPatchAppendsLess | version_query/version.py:462-466 | without a trailing `dev` segment, `DevPatch` appends `.devN` and keeps release and local part, which makes the version smaller |
| VersionIncrement.DevelIncrementGreater | version_query/version.py:479-491 | `devel_increment(n)` with n ≥ 1 gives a valid greater version; without a trailing `dev`, the result is `major.minor.(patch+1).devN`; with one, only its counter rises by n |
| VersionIncrement.DevelSteps | version_query/version.py:479-491 | for n ≥ 1 and no empty pre-release list, `devel_increment(n)` raises nothing and gives the patch raised by one with `.devN`, or the trailing `dev` counter raised by n |
| VersionIncrement.DevelIncrementCumulative | version_query/version.py:479-491 | `devel_increment` counts cumulatively: a commits and then b more give the same version, and the same error, as a + b at once |
| VersionIncrement.DevelIncrementPartial | version_query/version.py:479-491 | with n < 1, `devel_increment` raises `ValueError` after any patch increment it has already done |
| VersionObjects.Version.Init | version_query/version.py:213-217 | a new object has major 0 and the rest unset |
| VersionObjects.Version.SetRelease | version_query/version.py:283-316 | the release setter succeeds exactly for a valid triple, and then sets it; otherwise it raises `ValueError` and changes nothing; pre-release and local are untouched |
| VersionObjects.Version.SetPreRelease | version_query/version.py:326-375 | the pre-release setter checks every segment in a loop, stores the given list object itself, and on an invalid list raises `ValueError` and changes nothing |
| VersionObjects.Version.SetLocal | version_query/version.py:386-410 | the local setter checks odd length and the part/separator alternation in a loop; on failure it raises `ValueError` and changes nothing |
| VersionObjects.Version.New | version_query/version.py:208-276 | construction with keyword arguments succeeds exactly for a valid version, whose value is the one given |
| VersionObjects.Version.FromStr | version_query/version.py:112-142 | `from_str` succeeds exactly when the string parses, and raises `ValueError` otherwise |
| VersionObjects.Version.FromVersion | version_query/version.py:205-206 | `from_version` gives a new object equal in value that shares the pre-release list of the original |
| VersionObjects.Version.FromVersionCopy | version_query/version.py:205-206 | corrected `from_version`: an equal object whose pre-release list is its own |
| VersionObjects.Version.Increment | version_query/version.py:416-477 | the object's new value is `IncrementValue` of the old one, or the error with nothing changed; `DevPatch` edits the pre-release list in place |
| VersionObjects.Version.DevelIncrement | version_query/version.py:479-491 | the new value and error are `DevelIncrement` of the old value |
| VersionObjects.CopyThenDevIncrement | version_query/version.py:205-206 | as written: a `DevPatch` increment of a `from_version` copy changes the original |
| VersionObjects.CopyThenDevIncrementFixed | version_query/version.py:205-206 | with the corrected copy the original keeps its value and the copy is incremented |
| GitQuery.PreprocessTagSpec | version_query/git_query.py:15-23 | a tag is accepted exactly when it starts with `v` or a digit, and raises `ValueError` otherwise; the prefix `ver` is removed before `v` is tried |
| GitQuery.PreprocessTagOfPrefixed | version_query/git_query.py:15-23 | `ver1…`, `v1…` and `1…` all give `1…` |
| GitQuery.KeepSomeSpec | version_query/git_query.py:28-39 | the dictionary the loop fills holds exactly the positions where the conversion succeeds, each mapped to its result |
| GitQuery.VersionTagsSpec | version_query/git_query.py:26-40 | a tag is in the map exactly when its name preprocesses and parses, and it maps to that version; the other tags are skipped, not raised |
| GitQuery.GitVersionTags | version_query/git_query.py:26-40 | the loop over the tags builds exactly that map |
| GitQuery.VersionTagsValid | version_query/git_query.py:26-40 | every version in the map is valid |
| GitQuery.TagsFrom | version_query/git_query.py:52-57 | every tag listed for a commit is a version tag at that commit, with its version |
| GitQuery.TagsFromComplete | version_query/git_query.py:67-70 | every version tag at the commit is listed |
| GitQuery.BestIsGreatestBy | version_query/git_query.py:104 | under a strict weak order, `sorted(...)[-1]` picks an element no other element exceeds, and it is the last of those |
| GitQuery.BestIsGreatest | version_query/git_query.py:104 | among mutually comparable versions the one picked is not below any, and every later one is below it |
| GitQuery.AssumedParses | version_query/git_query.py:101 | the assumed version is `from_str('0.1.0.dev0')` and is valid |
| GitQuery.Final | version_query/git_query.py:99-106 | the end of the walk returns a valid version with the distance it was given, or raises `ValueError` and nothing else |
| GitQuery.Walk | version_query/git_query.py:46-106 | the visited set only grows, every found version is valid with a distance in [-1, 999], and the only error raised is `ValueError` |
| GitQuery.WalkLoop | version_query/git_query.py:62-98 | the loop over `iter_commits` keeps the same three properties |
| GitQuery.WalkBranches | version_query/git_query.py:77-98 | the loop over the parents of a merge keeps the same three properties, so no parent walk ends it early |
| GitQuery.LatestTag | version_query/git_query.py:46-106 | `_latest_git_version_tag(repo, assume_if_none)` returns a valid version with a distance between -1 and 999, or an error |
| GitQuery.LatestGitVersionTag | version_query/git_query.py:46-106 | the imperative walk with its mutable visited set returns what `Walk` defines |
| GitQuery.LatestOfBranches | version_query/git_query.py:77-98 | the imperative loop over the parents returns what `WalkBranches` defines |
| GitQuery.PlainSteps | version_query/git_query.py:62-76 | on a linear stretch of history without tags, each commit only adds one to the distance |
| GitQuery.WalkFromHead | version_query/git_query.py:62-76 | from the head, such a stretch of k commits brings the walk to commit k at distance k |
| GitQuery.FirstTaggedCommitDecides | version_query/git_query.py:67-72 | the first commit with version tags on linear history decides: its greatest version tag is returned, at distance k |
| GitQuery.TooFarRaises | version_query/git_query.py:73-75 | a history with no version tag in its first 1000 linear commits raises `ValueError` |
| GitQuery.NoVersionTags | version_query/git_query.py:99-103 | a short history without version tags gives `0.1.0.dev0` at the last commit when assumed, and raises `ValueError` otherwise |
| GitQuery.ParentHitsAreFound | version_query/git_query.py:77-91 | the candidates collected at a merge are exactly the versions the parent walks found, each walked with the visited set the earlier parents left |
| GitQuery.BranchOn | version_query/git_query.py:77-91 | after a parent walk that returns or raises `ValueError`, the merge loop goes on with the next parent in the threaded visited set |
| GitQuery.BranchesSurvive | version_query/git_query.py:77-98 | the merge returns an outcome or `ValueError`, and the best of the parents' versions when any was found |
| GitQuery.MergePicksGreatest | version_query/git_query.py:77-98 | at a merge entered with no results, when the versions the parents found compare, the walk returns one of them and none of them is greater |
| GitQuery.QueryGitRepo | version_query/git_query.py:116-121 | `query_git_repo` returns a valid version when it returns one |
| GitQuery.DecidedBeforeLocal | version_query/version.py:593-606 | a comparison decided by the release or the pre-release does not depend on the local part |
| GitQuery.DirtyStampAlnum | version_query/git_query.py:132 | `dirty` followed by a digit stamp is a valid local part |
| GitQuery.AfterDistanceGreater | version_query/git_query.py:128-130 | after new commits, the result is `devel_increment(distance)` with the short sha as its only local part, a greater valid version |
| GitQuery.MarkDirtyGreater | version_query/git_query.py:131-136 | marking a dirty tree appends `dirty<stamp>` to the local part and gives a greater valid version |
| GitQuery.PredictAdvances | version_query/git_query.py:124-137 | the prediction equals the tagged version on a clean tree at distance ≤ 0 and is greater otherwise; after new commits it is `devel_increment(distance)` with local part the sha, followed by `.`, `dirty<stamp>` on a dirty tree; at the tag a dirty tree only appends `dirty<stamp>` to the local part |
| GitQuery.PredictFromRepo | version_query/git_query.py:124-137 | `predict_git_repo` on a repository applies that prediction to what the walk found |
| GitQuery.PredictWithoutTags | version_query/git_query.py:124-137 | a clean repository with n commits and no version tags is predicted as `0.1.0.devN+<sha>` |
| GitQuery.AssumedPrediction | version_query/git_query.py:128-130 | the assumed `0.1.0.dev0` at distance n becomes `0.1.0.devN+<sha>` |
| GitQuery.PredictGitRepo | version_query/git_query.py:124-137 | the imperative prediction builds a new `Version` object whose value is `PredictValue`, or raises the same error |
| IncrementTuple.NonlocalErrors | version_query/increment.py:18-59 | the assertions fail exactly for a component above `Patch`, for `Major` without a major and for `Minor` without a minor |
| IncrementTuple.NonlocalResult | version_query/increment.py:25-59 | `Major`/`Minor` raise their number, reset what follows and clear suffix, patch and sha; `Patch` gives the `dev` suffix with counter 1 and no sha |
| IncrementTuple.PatchIncrementIdempotent | version_query/increment.py:47-57 | as written, a second `Patch` increment changes nothing |
| IncrementTuple.PatchCounterDiscarded | version_query/increment.py:47-57 | as written, `(1, 0, 0, 'dev', 4, None)` incremented at `Patch` gets counter 1 |
| IncrementTuple.FixedIncrementAdvances | version_query/increment.py:27-57 | corrected: every accepted increment moves the tuple forward; `Patch` keeps the numbers and raises the counter by one |
| IncrementTuple.FixedPatchCountsTwice | version_query/increment.py:51-57 | corrected: two `Patch` increments raise the counter by two |
| IncrementTuple.CountBeforeSpec | version_query/increment.py:74-78 | the commit loop stops at the first occurrence of the tag commit, or at the end of the history |
| IncrementTuple.IncrementLocalVersionComponent | version_query/increment.py:62-84 | the imperative loop returns what `IncrementLocal` defines |
| IncrementTuple.LocalCountsCommits | version_query/increment.py:62-84 | the counter rises by the number of commits since the tag commit; the sha is the head's first eight characters, plus `.dirty<stamp>` on a dirty tree and nothing more on a clean one; the other fields stay |
| IncrementTuple.LocalErrors | version_query/increment.py:62-84 | `ValueError` without HEAD; otherwise `TypeError` exactly when away from a clean tag commit the history does not start at the tag commit and the counter is missing |

## Left out

- `pkg_resources.parse_version` and `semver.parse` inside `from_str`: their results are only logged, and a `semver` failure is caught. They are not part of this model.
- `from_py_version`, `from_sem_version`, `to_py_version` and `to_sem_version`: they convert to and from other libraries' types.
- The positional-argument forms of `Version.__init__` (version_query/version.py:221-276) and `from_tuple`: only the keyword-argument construction is modelled (`Version.New`).
- `__repr__`, `to_dict` and `from_dict`: reflection over `vars(self)`. Their effect inside `from_version` is modelled, including the shared pre-release list.
- The flat tuples of `to_tuple(sort=False)`: only the sorted form is modelled (`SortKey`, `PreKeys`, `LocalKeys`). `__str__` is `to_str` (`ToStr`).
- The `TypeError` checks on Python's dynamic types (`isinstance`): the Dafny types rule those inputs out. The `TypeError` raised when a local separator meets a local part is modelled.
- The propagation of a parent walk's error other than `ValueError` at a merge (version_query/git_query.py:85-87): in the model no walk raises anything else (the `Survives` clause of `Walk`'s contract), because `BestIndex` never raises, so that branch of `WalkBranches` is unreachable.
- `GitQuery.BestIndex`: `sorted()` would propagate a `NotImplementedError` or `TypeError` from `<` while picking the greatest version. The model counts a raising comparison as "not less", and `BestIsGreatest` requires the candidates to be mutually comparable.
- GitPython and the file system: the repository is given as data (`Repo`), and the order of `iter_commits` is taken as given.
- `repo.is_dirty()`, `datetime.now()` and `strftime`: they are parameters (`dirty`, `stamp`).
- The two `is_dirty` settings: `predict_git_repo` asks with untracked files ignored (version_query/git_query.py:109,112), while `increment_local_version_component` counts untracked files and asks twice (version_query/increment.py:69,80). The model has a single `dirty` flag per call, so it does not capture a tree that is dirty only through untracked files, nor one that changes between the two questions.
- `_upcoming_git_version_tag`: its two values are folded into `PredictValue` with the `dirty` parameter.
- `_latest_git_version_tag` recomputes the tag map on every recursive call. The model computes it once and passes it down. The result is the same.
- The `_LOG` calls: logging only.
- version_query/query.py, caller.py, determine.py, `increment_version_of_git_repo` and the command line are not part of this model.

## Findings

| source | as written | input that shows it | evidently intended | confidence | as-written member | corrected member |
|---|---|---|---|---|---|---|
| version_query/version.py:205-206 | `from_version` rebuilds from `to_dict()`, which hands over the original's pre-release list object, so the copy shares it; an in-place `DevPatch` increment of the copy then changes the original | `v = Version.from_str('1.0.dev1'); Version.from_version(v).increment(DevPatch)` leaves `v` as `1.0.dev2` | an independent copy: incrementing the copy leaves the original as it was | high, not executed | VersionObjects.CopyThenDevIncrement | VersionObjects.CopyThenDevIncrementFixed |
| version_query/increment.py:23-57 | every component that passes the assertion `<= Patch` is also `<= Release` (flag 14), so suffix, patch and sha are cleared before the `Patch` step; `patch += 1` never runs and the `Release` branch is unreachable | `(1, 0, 0, 'dev', 4, None)` incremented at `Patch` gives `(1, 0, 0, 'dev', 1, None)` | the components ranked as the tuple orders its fields: `Patch` raises the counter by one, and `Release` raises the third number | medium, not executed | IncrementTuple.PatchCounterDiscarded | IncrementTuple.FixedPatchCountsTwice |
