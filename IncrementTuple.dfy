/**
 * `version_query/increment.py`: incrementing a version kept as the 6-tuple
 * `(major, minor, release, suffix, patch, commit_sha)`, where `release` is
 * the third number and `patch` the counter after the suffix. The repository
 * is given as the data of `GitQuery.Repo`; the clock and the working-tree
 * state are parameters.
 */
module IncrementTuple {
  import opened Wrappers
  import opened Versions
  import opened VersionOrder
  import opened GitQuery

  datatype VersionTuple = VersionTuple(
    major: Option<int>,
    minor: Option<int>,
    release: Option<int>,
    suffix: Option<string>,
    patch: Option<int>,
    commitSha: Option<string>)

  /** The three numbers, with a missing one read as 0. */
  function NumberKey(t: VersionTuple): (int, int, int) {
    (t.major.GetOr(0), t.minor.GetOr(0), t.release.GetOr(0))
  }

  // ----- `increment_nonlocal_version_component` -----

  /** The `Patch` step on the suffix: `dev` when there is none. */
  function StartSuffix(suffix: Option<string>): Option<string> {
    if suffix.None? then Some("dev") else suffix
  }

  /** The `Patch` step on the counter: 1 when there is none, one more otherwise. */
  function BumpCounter(patch: Option<int>): (r: Option<int>)
    ensures r.Some? && r.value == patch.GetOr(0) + 1
  {
    if patch.None? then Some(1) else Some(patch.value + 1)
  }

  /**
   * `increment_nonlocal_version_component(version_tuple, component)` as
   * written. Components above `Patch` fail the opening assertion, which also
   * leaves the `Release` branch unreachable; every component that passes it
   * is at most `Release`, so suffix, patch and commit are cleared before the
   * `Patch` step, whose `patch += 1` therefore never runs.
   */
  function IncrementNonlocal(t: VersionTuple, c: Component): Result<VersionTuple> {
    if c.Flag() > Patch.Flag() then Err(AssertionError)
    else if c == Major && t.major.None? then Err(AssertionError)
    else if c == Minor && t.minor.None? then Err(AssertionError)
    else
      var bumped :=
        if c == Major then t.(major := Some(t.major.value + 1), minor := if t.minor.Some? then Some(0) else None)
        else if c == Minor then t.(minor := Some(t.minor.value + 1))
        else t;
      var reset := if c == Major || c == Minor then bumped.(release := if bumped.release.Some? then Some(0) else None) else bumped;
      var cleared := reset.(suffix := None, patch := None, commitSha := None);
      if c == Patch then Ok(cleared.(suffix := StartSuffix(cleared.suffix), patch := BumpCounter(cleared.patch)))
      else Ok(cleared)
  }

  /**
   * Only `Major`, `Minor` and `Patch` are accepted, `Major` needs a major and
   * `Minor` a minor number; everything else fails an assertion.
   */
  lemma NonlocalErrors(t: VersionTuple, c: Component)
    ensures IncrementNonlocal(t, c).Err? <==>
      || (c != Major && c != Minor && c != Patch)
      || (c == Major && t.major.None?)
      || (c == Minor && t.minor.None?)
    ensures IncrementNonlocal(t, c).Err? ==> IncrementNonlocal(t, c).error == AssertionError
  {
  }

  /**
   * `Major` and `Minor` raise the numbers, reset the lower ones that are
   * present to 0 and clear suffix, patch and commit; `Patch` keeps the
   * numbers and always yields suffix `dev`, patch 1 and no commit.
   */
  lemma NonlocalResult(t: VersionTuple, c: Component)
    requires IncrementNonlocal(t, c).Ok?
    ensures var r := IncrementNonlocal(t, c).value;
      && (c == Major ==> NumberKey(r) == (t.major.value + 1, 0, 0) && r.minor.Some? == t.minor.Some?)
      && (c == Minor ==> NumberKey(r) == (t.major.GetOr(0), t.minor.value + 1, 0) && r.major == t.major)
      && (c != Patch ==> TripleLess(NumberKey(t), NumberKey(r)) && r.release.Some? == t.release.Some?)
      && (c != Patch ==> r.suffix.None? && r.patch.None? && r.commitSha.None?)
      && (c == Patch ==> r == t.(suffix := Some("dev"), patch := Some(1), commitSha := None))
  {
    NonlocalErrors(t, c);
  }

  /** As written, incrementing `Patch` twice gives what incrementing it once gives. */
  lemma {:induction false} PatchIncrementIdempotent(t: VersionTuple)
    ensures IncrementNonlocal(t, Patch).Ok?
    ensures IncrementNonlocal(IncrementNonlocal(t, Patch).value, Patch) == IncrementNonlocal(t, Patch)
  {
    var r := IncrementNonlocal(t, Patch).value;
    assert r == t.(suffix := Some("dev"), patch := Some(1), commitSha := None);
    assert r.(suffix := Some("dev"), patch := Some(1), commitSha := None) == r;
  }

  /** A development counter of 4 comes back as 1. */
  lemma PatchCounterDiscarded()
    ensures IncrementNonlocal(VersionTuple(Some(1), Some(0), Some(0), Some("dev"), Some(4), None), Patch)
         == Ok(VersionTuple(Some(1), Some(0), Some(0), Some("dev"), Some(1), None))
  {
    PatchIncrementIdempotent(VersionTuple(Some(1), Some(0), Some(0), Some("dev"), Some(4), None));
  }

  /** The position of a component in the tuple's own order: major, minor, release, then the counter. */
  function TupleRank(c: Component): int {
    match c
    case Major => 1
    case Minor => 2
    case Release => 3
    case Patch => 4
    case _ => 5
  }

  /**
   * The increment with the components ranked in the tuple's own order:
   * `Release` raises the third number and clears what follows it, and
   * `Patch` raises the counter after the suffix, starting a `dev` series if
   * there is none.
   */
  function IncrementNonlocalFixed(t: VersionTuple, c: Component): Result<VersionTuple> {
    if TupleRank(c) > TupleRank(Patch) then Err(AssertionError)
    else if c == Major && t.major.None? then Err(AssertionError)
    else if c == Minor && t.minor.None? then Err(AssertionError)
    else if c == Release && t.release.None? then Err(AssertionError)
    else if c == Patch then Ok(t.(suffix := StartSuffix(t.suffix), patch := BumpCounter(t.patch)))
    else
      var bumped :=
        if c == Major then t.(major := Some(t.major.value + 1), minor := if t.minor.Some? then Some(0) else None)
        else if c == Minor then t.(minor := Some(t.minor.value + 1))
        else t.(release := Some(t.release.value + 1));
      var reset := if c == Major || c == Minor then bumped.(release := if bumped.release.Some? then Some(0) else None) else bumped;
      Ok(reset.(suffix := None, patch := None, commitSha := None))
  }

  /**
   * With the fix every accepted increment moves the tuple forward: the
   * numbers rise for `Major`, `Minor` and `Release`, and for `Patch` the
   * numbers stay and the counter rises by one.
   */
  lemma FixedIncrementAdvances(t: VersionTuple, c: Component)
    requires IncrementNonlocalFixed(t, c).Ok?
    ensures c == Major || c == Minor || c == Release || c == Patch
    ensures var r := IncrementNonlocalFixed(t, c).value;
      && (c != Patch ==> TripleLess(NumberKey(t), NumberKey(r)) && r.suffix.None? && r.patch.None?)
      && (c == Release ==> NumberKey(r) == (t.major.GetOr(0), t.minor.GetOr(0), t.release.value + 1))
      && (c == Patch ==> NumberKey(r) == NumberKey(t) && r.suffix.Some? && r.commitSha == t.commitSha
                         && r.patch == Some(t.patch.GetOr(0) + 1))
  {
  }

  /** With the fix, two `Patch` increments count the counter up by two. */
  lemma {:induction false} FixedPatchCountsTwice(t: VersionTuple)
    ensures IncrementNonlocalFixed(t, Patch).Ok?
    ensures var once := IncrementNonlocalFixed(t, Patch).value;
      && IncrementNonlocalFixed(once, Patch).Ok?
      && IncrementNonlocalFixed(once, Patch).value.patch == Some(t.patch.GetOr(0) + 2)
  {
    var once := IncrementNonlocalFixed(t, Patch).value;
    assert once.patch == Some(t.patch.GetOr(0) + 1);
    assert IncrementNonlocalFixed(once, Patch).value.patch == Some(once.patch.value + 1);
  }

  // ----- `increment_local_version_component` -----

  /** How many commits `iter_commits` yields before the tag commit (all of them if it is not among them). */
  function CountBefore(cs: seq<Commit>, tag: Commit): nat {
    if |cs| == 0 || cs[0] == tag then 0 else 1 + CountBefore(cs[1..], tag)
  }

  /** The count stops at the first occurrence of the tag commit, or at the end. */
  lemma {:induction false} CountBeforeSpec(cs: seq<Commit>, tag: Commit)
    ensures CountBefore(cs, tag) <= |cs|
    ensures tag !in cs[..CountBefore(cs, tag)]
    ensures CountBefore(cs, tag) < |cs| ==> cs[CountBefore(cs, tag)] == tag
  {
    if |cs| > 0 && cs[0] != tag {
      CountBeforeSpec(cs[1..], tag);
      var n := CountBefore(cs[1..], tag);
      assert cs[..n + 1] == [cs[0]] + cs[1..][..n];
    }
  }

  lemma {:induction false} CountBeforeSplits(cs: seq<Commit>, tag: Commit, i: nat)
    requires i < |cs| && tag !in cs[..i + 1]
    ensures CountBefore(cs[i..], tag) == 1 + CountBefore(cs[i + 1..], tag)
  {
    assert cs[i..][0] == cs[i];
    assert cs[i..][1..] == cs[i + 1..];
  }

  /**
   * `increment_local_version_component(version_tuple, repo,
   * latest_version_commit)`: unchanged on a clean tree at the tag commit;
   * otherwise the counter grows by the number of commits since the tag and
   * the commit becomes the abbreviated HEAD commit, with `.dirty` and the
   * time stamp after it on a dirty tree. A missing counter cannot grow.
   */
  function IncrementLocal(t: VersionTuple, repo: Repo, tag: Commit, dirty: bool, stamp: string): Result<VersionTuple> {
    if repo.head.None? then Err(ValueError)
    else
      var head := repo.head.value;
      if head == tag && !dirty then Ok(t)
      else
        var n := CountBefore(History(repo, head), tag);
        if n > 0 && t.patch.None? then Err(TypeError)
        else
          Ok(t.(patch := if n == 0 then t.patch else Some(t.patch.value + n),
                commitSha := Some(Sha8(head) + if dirty then ".dirty" + stamp else "")))
  }

  /** The loop of `increment_local_version_component`, counting up `patch` commit by commit. */
  method IncrementLocalVersionComponent(t: VersionTuple, repo: Repo, tag: Commit, dirty: bool, stamp: string)
    returns (r: Result<VersionTuple>)
    ensures r == IncrementLocal(t, repo, tag, dirty, stamp)
  {
    if repo.head.None? {
      return Err(ValueError);
    }
    var head := repo.head.value;
    if head == tag && !dirty {
      return Ok(t);
    }
    var sha := Sha8(head);
    var cs := History(repo, head);
    var patch := t.patch;
    var i := 0;
    while i < |cs| && cs[i] != tag
      invariant 0 <= i <= |cs| && tag !in cs[..i]
      invariant CountBefore(cs, tag) == i + CountBefore(cs[i..], tag)
      invariant i > 0 ==> t.patch.Some?
      invariant patch == if i == 0 then t.patch else Some(t.patch.value + i)
      decreases |cs| - i
    {
      assert cs[..i + 1] == cs[..i] + [cs[i]];
      CountBeforeSplits(cs, tag, i);
      if patch.None? {
        return Err(TypeError);
      }
      patch := Some(patch.value + 1);
      i := i + 1;
    }
    assert CountBefore(cs[i..], tag) == 0;
    if dirty {
      sha := sha + ".dirty" + stamp;
    }
    assert sha == Sha8(head) + if dirty then ".dirty" + stamp else "";
    assert patch == if i == 0 then t.patch else Some(t.patch.value + i);
    r := Ok(t.(patch := patch, commitSha := Some(sha)));
  }

  /**
   * Away from a clean tag commit, the counter grows by exactly the number of
   * commits `iter_commits` yields before the tag commit, the other numbers
   * and the suffix stay, and the commit starts with the abbreviated HEAD
   * commit and ends with the dirty mark on a dirty tree.
   */
  lemma LocalCountsCommits(t: VersionTuple, repo: Repo, tag: Commit, dirty: bool, stamp: string)
    requires repo.head.Some? && !(repo.head.value == tag && !dirty) && t.patch.Some?
    ensures IncrementLocal(t, repo, tag, dirty, stamp).Ok?
    ensures var r := IncrementLocal(t, repo, tag, dirty, stamp).value;
      var cs := History(repo, repo.head.value);
      var n := r.patch.value - t.patch.value;
      && r.major == t.major && r.minor == t.minor && r.release == t.release && r.suffix == t.suffix
      && 0 <= n <= |cs| && tag !in cs[..n] && (n < |cs| ==> cs[n] == tag)
      && r.commitSha.Some? && r.commitSha.value[..|Sha8(repo.head.value)|] == Sha8(repo.head.value)
      && (dirty ==> r.commitSha.value == Sha8(repo.head.value) + ".dirty" + stamp)
      && (!dirty ==> r.commitSha.value == Sha8(repo.head.value))
  {
    var cs := History(repo, repo.head.value);
    CountBeforeSpec(cs, tag);
    var sha := Sha8(repo.head.value);
    var full := sha + if dirty then ".dirty" + stamp else "";
    assert full[..|sha|] == sha;
  }

  /**
   * `increment_local_version_component` raises `ValueError` in a repository
   * without HEAD, and `TypeError` exactly when it has to count commits into
   * a missing counter: away from a clean tag commit, with HEAD not the tag
   * commit itself.
   */
  lemma {:induction false} LocalErrors(t: VersionTuple, repo: Repo, tag: Commit, dirty: bool, stamp: string)
    ensures var r := IncrementLocal(t, repo, tag, dirty, stamp);
      && (repo.head.None? ==> r == Err(ValueError))
      && (repo.head.Some? ==>
            var cs := History(repo, repo.head.value);
            && (r.Err? <==> !(repo.head.value == tag && !dirty) && |cs| > 0 && cs[0] != tag && t.patch.None?)
            && (r.Err? ==> r.error == TypeError))
  {
    if repo.head.Some? {
      var cs := History(repo, repo.head.value);
      CountBeforeSpec(cs, tag);
      if |cs| > 0 && cs[0] == tag {
        assert tag in cs[..1];
      }
    }
  }
}
