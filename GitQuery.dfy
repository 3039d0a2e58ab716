/**
 * `version_query/git_query.py` over repository facts given as data: the
 * tags, the commits `iter_commits` yields from each commit, the parents of
 * each commit and the HEAD commit. Reading the repository, the clock and
 * the working-tree state are left to the caller, who passes their results.
 */
module GitQuery {
  import opened Wrappers
  import opened Decimal
  import opened Versions
  import opened VersionParse
  import opened VersionRender
  import opened VersionOrder
  import opened VersionIncrement
  import opened VersionObjects

  // ----- tags -----

  /** `preprocess_git_version_tag`: strip `ver`, else strip `v`, else keep a tag that starts with a digit. */
  function PreprocessTag(tag: string): Result<string> {
    if |tag| >= 3 && tag[..3] == "ver" then Ok(tag[3..])
    else if |tag| >= 1 && tag[0] == 'v' then Ok(tag[1..])
    else if |tag| > 0 && IsDigit(tag[0]) then Ok(tag)
    else Err(ValueError)
  }

  /**
   * A tag is accepted exactly when it starts with `v` or a digit; what is
   * returned is the tag without its `ver`, `v` or empty prefix, with `ver`
   * tried before `v`.
   */
  lemma PreprocessTagSpec(tag: string)
    ensures PreprocessTag(tag).Ok? <==> |tag| > 0 && (tag[0] == 'v' || IsDigit(tag[0]))
    ensures PreprocessTag(tag).Err? ==> PreprocessTag(tag).error == ValueError
    ensures PreprocessTag(tag).Ok? ==>
      var rest := PreprocessTag(tag).value;
      || (tag == "ver" + rest)
      || (tag == "v" + rest && !(|rest| >= 2 && rest[..2] == "er"))
      || (tag == rest && IsDigit(tag[0]))
  {
    if |tag| >= 3 {
      assert tag[..3] == [tag[0]] + tag[1..][..2];
    }
    if |tag| >= 3 && tag[..3] == "ver" {
      assert tag == tag[..3] + tag[3..];
    } else if |tag| >= 1 && tag[0] == 'v' {
      assert tag == [tag[0]] + tag[1..];
    }
  }

  /** Putting a prefix back: `ver1.2`, `v1.2` and `1.2` all give `1.2`. */
  lemma PreprocessTagOfPrefixed(rest: string)
    requires |rest| > 0 && IsDigit(rest[0])
    ensures PreprocessTag("ver" + rest) == Ok(rest)
    ensures PreprocessTag("v" + rest) == Ok(rest)
    ensures PreprocessTag(rest) == Ok(rest)
  {
    assert ("ver" + rest)[..3] == "ver" && ("ver" + rest)[3..] == rest;
    assert ("v" + rest)[1..] == rest;
    assert !(|"v" + rest| >= 3 && ("v" + rest)[..3] == "ver") by {
      if |"v" + rest| >= 3 {
        assert ("v" + rest)[1] == rest[0];
      }
    }
  }

  type Commit = string

  datatype Tag = Tag(name: string, commit: Commit)

  /**
   * The repository as data: the HEAD commit (none in an empty repository),
   * the commits `iter_commits` yields from each commit, the parents of each
   * commit, and the tags in the order `repo.tags` lists them. A commit that
   * is missing from a map has no history or no parents.
   */
  datatype Repo = Repo(
    head: Option<Commit>,
    history: map<Commit, seq<Commit>>,
    parents: map<Commit, seq<Commit>>,
    tags: seq<Tag>)

  function History(repo: Repo, c: Commit): seq<Commit> {
    if c in repo.history then repo.history[c] else []
  }

  function Parents(repo: Repo, c: Commit): seq<Commit> {
    if c in repo.parents then repo.parents[c] else []
  }

  /** The version a tag stands for, if its name is a version tag that parses. */
  function TagVersion(t: Tag): Option<VersionValue> {
    match PreprocessTag(t.name)
    case Err(_) => None
    case Ok(s) => if Parse(s).Ok? then Some(Parse(s).value) else None
  }

  /**
   * The entries `i := f(xs[i]).value` for the first `n` positions where `f`
   * gives a value: the dictionary `_git_version_tags` fills, with each tag
   * identified by its position.
   */
  function KeepSome<T, V>(xs: seq<T>, f: T -> Option<V>, n: nat): map<nat, V>
    requires n <= |xs|
  {
    if n == 0 then map[]
    else
      var m := KeepSome(xs, f, n - 1);
      if f(xs[n - 1]).Some? then m[n - 1 := f(xs[n - 1]).value] else m
  }

  function VersionTags(repo: Repo): map<nat, VersionValue> {
    KeepSome(repo.tags, TagVersion, |repo.tags|)
  }

  /** One more position: kept with its value when `f` gives one, skipped otherwise. */
  lemma KeepSomeStep<T, V>(xs: seq<T>, f: T -> Option<V>, n: nat)
    requires n < |xs|
    ensures KeepSome(xs, f, n + 1)
      == if f(xs[n]).Some? then KeepSome(xs, f, n)[n := f(xs[n]).value] else KeepSome(xs, f, n)
  {
  }

  /** A position is kept exactly when `f` gives a value there, and it maps to that value. */
  lemma {:induction false} KeepSomeSpec<T, V>(xs: seq<T>, f: T -> Option<V>, n: nat)
    requires n <= |xs|
    ensures forall i: nat :: i in KeepSome(xs, f, n) <==> i < n && f(xs[i]).Some?
    ensures forall i :: i in KeepSome(xs, f, n) ==> KeepSome(xs, f, n)[i] == f(xs[i]).value
  {
    if n > 0 {
      KeepSomeSpec(xs, f, n - 1);
    }
  }

  /**
   * A tag is in the map exactly when it is a version tag whose version
   * parses, and it maps to that version: the other tags are left out rather
   * than raising.
   */
  lemma VersionTagsSpec(repo: Repo)
    ensures forall i: nat :: i in VersionTags(repo) <==>
      i < |repo.tags| && PreprocessTag(repo.tags[i].name).Ok? && Parse(PreprocessTag(repo.tags[i].name).value).Ok?
    ensures forall i :: i in VersionTags(repo) ==>
      VersionTags(repo)[i] == Parse(PreprocessTag(repo.tags[i].name).value).value
  {
    KeepSomeSpec(repo.tags, TagVersion, |repo.tags|);
  }

  /** `_git_version_tags`: one pass over `repo.tags`. */
  method GitVersionTags(repo: Repo) returns (versions: map<nat, VersionValue>)
    ensures versions == VersionTags(repo)
  {
    versions := map[];
    var i := 0;
    while i < |repo.tags|
      invariant 0 <= i <= |repo.tags|
      invariant versions == KeepSome(repo.tags, TagVersion, i)
    {
      KeepSomeStep(repo.tags, TagVersion, i);
      var pre := PreprocessTag(repo.tags[i].name);
      if pre.Ok? {
        var parsed := Parse(pre.value);
        if parsed.Ok? {
          assert TagVersion(repo.tags[i]) == Some(parsed.value);
          versions := versions[i := parsed.value];
        } else {
          assert TagVersion(repo.tags[i]) == None;
        }
      } else {
        assert TagVersion(repo.tags[i]) == None;
      }
      i := i + 1;
    }
  }

  /** Every version the tags yield is one the `Version` setters accept. */
  predicate AllValid(vs: map<nat, VersionValue>) {
    forall k :: k in vs ==> ValidValue(vs[k])
  }

  lemma VersionTagsValid(repo: Repo)
    ensures AllValid(VersionTags(repo))
  {
    VersionTagsSpec(repo);
    forall k | k in VersionTags(repo)
      ensures ValidValue(VersionTags(repo)[k])
    {
      ParseValid(PreprocessTag(repo.tags[k].name).value);
    }
  }

  /** The tags at commit `c` that carry a version, from position `i` on, in tag order. */
  function TagsFrom(repo: Repo, vs: map<nat, VersionValue>, c: Commit, i: nat): (r: seq<(nat, VersionValue)>)
    ensures forall k :: 0 <= k < |r| ==> r[k].0 in vs && vs[r[k].0] == r[k].1 && i <= r[k].0 < |repo.tags|
    ensures forall k :: 0 <= k < |r| ==> repo.tags[r[k].0].commit == c
    decreases |repo.tags| - i
  {
    if i >= |repo.tags| then []
    else
      var rest := TagsFrom(repo, vs, c, i + 1);
      if i in vs && repo.tags[i].commit == c then [(i, vs[i])] + rest else rest
  }

  /** Every version tag at commit `c` from position `i` on is listed. */
  lemma {:induction false} TagsFromComplete(repo: Repo, vs: map<nat, VersionValue>, c: Commit, i: nat, t: nat)
    requires i <= t < |repo.tags| && t in vs && repo.tags[t].commit == c
    ensures (t, vs[t]) in TagsFrom(repo, vs, c, i)
    decreases |repo.tags| - i
  {
    if t > i {
      TagsFromComplete(repo, vs, c, i + 1, t);
    }
  }

  /** `current_version_tags` for commit `c`. */
  function TagsAt(repo: Repo, vs: map<nat, VersionValue>, c: Commit): seq<(nat, VersionValue)> {
    TagsFrom(repo, vs, c, 0)
  }

  // ----- the maximum of a list of versions -----

  /**
   * `sorted(xs, key=...)[-1]` under the order `less`: a stable sort puts the
   * last of the greatest elements at the end.
   */
  function BestIndexBy<T>(xs: seq<T>, less: (T, T) -> bool): (b: nat)
    requires |xs| > 0
    ensures b < |xs|
  {
    if |xs| == 1 then 0
    else
      var b := BestIndexBy(xs[..|xs| - 1], less);
      if less(xs[|xs| - 1], xs[b]) then b else |xs| - 1
  }

  /** `less` is asymmetric and its complement is transitive on the elements of `xs`. */
  predicate StrictWeakOn<T>(xs: seq<T>, less: (T, T) -> bool) {
    && (forall i, j :: 0 <= i < |xs| && 0 <= j < |xs| && less(xs[i], xs[j]) ==> !less(xs[j], xs[i]))
    && (forall i, j, k :: 0 <= i < |xs| && 0 <= j < |xs| && 0 <= k < |xs| && less(xs[i], xs[k]) ==>
          less(xs[i], xs[j]) || less(xs[j], xs[k]))
  }

  lemma StrictWeakOnPrefix<T>(xs: seq<T>, less: (T, T) -> bool, n: nat)
    requires StrictWeakOn(xs, less) && n <= |xs|
    ensures StrictWeakOn(xs[..n], less)
  {
    assert forall i :: 0 <= i < n ==> xs[..n][i] == xs[i];
  }

  /**
   * The chosen element is a greatest one, and every element after it is
   * strictly smaller.
   */
  lemma {:induction false} BestIsGreatestBy<T>(xs: seq<T>, less: (T, T) -> bool)
    requires |xs| > 0 && StrictWeakOn(xs, less)
    ensures forall j :: 0 <= j < |xs| ==> !less(xs[BestIndexBy(xs, less)], xs[j])
    ensures forall j :: BestIndexBy(xs, less) < j < |xs| ==> less(xs[j], xs[BestIndexBy(xs, less)])
  {
    if |xs| > 1 {
      var n := |xs| - 1;
      var init := xs[..n];
      StrictWeakOnPrefix(xs, less, n);
      BestIsGreatestBy(init, less);
      assert forall j :: 0 <= j < n ==> init[j] == xs[j];
      var b := BestIndexBy(init, less);
      if !less(xs[n], xs[b]) {
        forall j | 0 <= j < |xs|
          ensures !less(xs[n], xs[j])
        {
          if j < n {
            assert !less(xs[b], xs[j]);
          }
        }
      }
    }
  }

  /** `a < b` holds (and does not raise). */
  predicate Below(a: VersionValue, b: VersionValue) {
    LessThan(a, b) == Ok(true)
  }

  /** `sorted(..., key=version)[-1]` over versions. */
  function BestIndex(xs: seq<VersionValue>): (b: nat)
    requires |xs| > 0
    ensures b < |xs|
  {
    BestIndexBy(xs, Below)
  }

  /** Any two of the versions compare without raising. */
  predicate Comparable(xs: seq<VersionValue>) {
    forall i, j :: 0 <= i < |xs| && 0 <= j < |xs| ==> LessThan(xs[i], xs[j]).Ok?
  }

  /** `<` depends only on the sort tuples. */
  lemma LessThanByKeys(a: VersionValue, a2: VersionValue, b: VersionValue)
    requires SortKey(a) == SortKey(a2)
    ensures LessThan(a, b) == LessThan(a2, b) && LessThan(b, a) == LessThan(b, a2)
  {
  }

  lemma LessTransitiveWhen(a: VersionValue, b: VersionValue, c: VersionValue)
    ensures LessThan(a, b) == Ok(true) && LessThan(b, c) == Ok(true) ==> LessThan(a, c) == Ok(true)
  {
    if LessThan(a, b) == Ok(true) && LessThan(b, c) == Ok(true) {
      LessTransitive(a, b, c);
    }
  }

  /** If `x < z` then `x < y` or `y < z`, for versions that compare without raising. */
  lemma BelowSplits(x: VersionValue, y: VersionValue, z: VersionValue)
    requires LessThan(x, y).Ok? && Below(x, z)
    ensures Below(x, y) || Below(y, z)
  {
    var r := LessThan(x, y);
    if r != Ok(true) {
      assert r == Ok(r.value) && r.value == false;
      LessConnex(x, y);
      if SortKey(x) == SortKey(y) {
        LessThanByKeys(x, y, z);
      } else {
        LessTransitiveWhen(y, x, z);
      }
    }
  }

  lemma ComparableStrictWeak(xs: seq<VersionValue>)
    requires Comparable(xs)
    ensures StrictWeakOn(xs, Below)
  {
    forall i, j | 0 <= i < |xs| && 0 <= j < |xs| && Below(xs[i], xs[j])
      ensures !Below(xs[j], xs[i])
    {
      LessAsymmetric(xs[i], xs[j]);
    }
    forall i, j, k | 0 <= i < |xs| && 0 <= j < |xs| && 0 <= k < |xs| && Below(xs[i], xs[k])
      ensures Below(xs[i], xs[j]) || Below(xs[j], xs[k])
    {
      BelowSplits(xs[i], xs[j], xs[k]);
    }
  }

  /**
   * When the versions compare without raising, the chosen version is a
   * greatest one and every version after it in the list is strictly smaller.
   */
  lemma BestIsGreatest(xs: seq<VersionValue>)
    requires |xs| > 0 && Comparable(xs)
    ensures forall j :: 0 <= j < |xs| ==> LessThan(xs[BestIndex(xs)], xs[j]) == Ok(false)
    ensures forall j :: BestIndex(xs) < j < |xs| ==> LessThan(xs[j], xs[BestIndex(xs)]) == Ok(true)
  {
    ComparableStrictWeak(xs);
    BestIsGreatestBy(xs, Below);
    var b := BestIndex(xs);
    forall j | 0 <= j < |xs|
      ensures LessThan(xs[b], xs[j]) == Ok(false)
    {
      assert !Below(xs[b], xs[j]);
      var r := LessThan(xs[b], xs[j]);
      assert r.Ok? && r != Ok(true);
      assert r == Ok(r.value) && r.value == false;
    }
  }

  // ----- `_latest_git_version_tag` -----

  const MaxCommitDistance := 999

  /** `Version.from_str('0.1.0.dev0')`, assumed when no version tag is found. */
  const Assumed := VersionValue(0, Some(1), Some(0), Some([Segment(Some('.'), Some("dev"), Some(0))]), None)

  lemma AssumedParses()
    ensures Parse("0.1.0.dev0") == Ok(Assumed) && ValidValue(Assumed)
  {
    assert Letters("dev");
    assert CanonicalForm(Assumed);
    assert DigitChar(0) == '0' && DigitChar(1) == '1';
    assert IntToStr(0) == "0" && IntToStr(1) == "1";
    assert ReleaseToStr(0, Some(1), Some(0)) == Ok("0" + "." + "1" + "." + "0");
    assert "0" + "." + "1" + "." + "0" == "0.1.0";
    var d := Segment(Some('.'), Some("dev"), Some(0));
    assert SegmentToStr(d) == Ok(['.'] + "dev" + "0");
    assert ['.'] + "dev" + "0" == ".dev0";
    assert SegmentsToStr([d][1..]) == Ok("");
    assert SegmentsToStr([d]) == Ok(".dev0" + "");
    assert ".dev0" + "" == ".dev0";
    assert Assumed.preRelease == Some([d]);
    assert PreReleaseToStr(Some([d])) == Ok(".dev0");
    assert LocalToStr(None) == "";
    assert ToStr(Assumed) == Ok("0.1.0" + ".dev0" + "");
    assert "0.1.0" + ".dev0" + "" == "0.1.0.dev0";
    RenderThenParse(Assumed);
  }

  /** The first four items of the tuple `_latest_git_version_tag` returns, when it carries a version. */
  datatype Found = Found(commit: Option<Commit>, tag: Option<nat>, version: VersionValue, distance: Option<int>)

  /** `Skipped` is the tuple `(None, None, None, -1)` for a commit already visited. */
  datatype Outcome = Skipped | Hit(found: Found)

  function DistanceOf(o: Outcome): Option<int> {
    if o.Skipped? then Some(-1) else o.found.distance
  }

  predicate GoodFound(f: Found) {
    ValidValue(f.version) && (f.distance.Some? ==> -1 <= f.distance.value <= MaxCommitDistance)
  }

  /** A result that carries a version carries a valid one, at a distance from -1 to 999 if any. */
  predicate Good(r: Result<Outcome>) {
    r.Ok? && r.value.Hit? ==> GoodFound(r.value.found)
  }

  /** Every commit some history lists. */
  function AllCommits(repo: Repo): set<Commit> {
    set k, i | k in repo.history && 0 <= i < |repo.history[k]| :: repo.history[k][i]
  }

  lemma InAllCommits(repo: Repo, base: Commit, i: nat)
    requires i < |History(repo, base)|
    ensures History(repo, base)[i] in AllCommits(repo)
  {
    assert repo.history[base][i] == History(repo, base)[i];
  }

  lemma FewerUnvisited(all: set<Commit>, skip: set<Commit>, c: Commit)
    requires c in all && c !in skip
    ensures |all - (skip + {c})| < |all - skip|
  {
    assert all - (skip + {c}) == (all - skip) - {c};
  }

  lemma NoMoreUnvisited(all: set<Commit>, skip: set<Commit>, skip2: set<Commit>)
    requires skip <= skip2
    ensures |all - skip2| <= |all - skip|
  {
    var a, b := all - skip2, all - skip;
    assert b == a + (b - a);
    assert a * (b - a) == {};
  }

  function VersionsOf(tagged: seq<(nat, VersionValue)>): (r: seq<VersionValue>)
    ensures |r| == |tagged| && forall k :: 0 <= k < |r| ==> r[k] == tagged[k].1
  {
    seq(|tagged|, k requires 0 <= k < |tagged| => tagged[k].1)
  }

  function FoundVersions(results: seq<Found>): (r: seq<VersionValue>)
    ensures |r| == |results| && forall k :: 0 <= k < |r| ==> r[k] == results[k].version
  {
    seq(|results|, k requires 0 <= k < |results| => results[k].version)
  }

  /**
   * The end of `_latest_git_version_tag` (lines 99-106): with no version tag
   * at hand, `0.1.0.dev0` is assumed or `ValueError` raised; otherwise the
   * greatest of the tags wins.
   */
  function Final(assumeIfNone: bool, commit: Option<Commit>, tagged: seq<(nat, VersionValue)>, dist: Option<int>): (r: Result<Outcome>)
    ensures ((forall k :: 0 <= k < |tagged| ==> ValidValue(tagged[k].1))
             && (dist.Some? ==> -1 <= dist.value <= MaxCommitDistance)) ==> Good(r)
    ensures Survives(r)
  {
    AssumedParses();
    if |tagged| == 0 then
      if assumeIfNone then Ok(Hit(Found(commit, None, Assumed, dist))) else Err(ValueError)
    else
      var b := BestIndex(VersionsOf(tagged));
      Ok(Hit(Found(commit, Some(tagged[b].0), tagged[b].1, dist)))
  }

  /**
   * `_latest_git_version_tag(repo, assume_if_none, base, commit_distance,
   * skip_commits)`: the result and the visited set as it is afterwards,
   * which the caller shares.
   */
  function Walk(repo: Repo, vs: map<nat, VersionValue>, assumeIfNone: bool, base: Commit, dist: int, skip: set<Commit>)
    : (r: (Result<Outcome>, set<Commit>))
    ensures skip <= r.1
    ensures AllValid(vs) && 0 <= dist <= MaxCommitDistance ==> Good(r.0)
    ensures Survives(r.0)
    decreases |AllCommits(repo) - skip|, 1, 0
  {
    WalkLoop(repo, vs, assumeIfNone, base, 0, None, dist, skip)
  }

  /** The `for commit in repo.iter_commits(rev=base)` loop from its `i`-th commit on. */
  function WalkLoop(repo: Repo, vs: map<nat, VersionValue>, assumeIfNone: bool, base: Commit, i: nat,
                    last: Option<Commit>, dist: int, skip: set<Commit>)
    : (r: (Result<Outcome>, set<Commit>))
    ensures skip <= r.1
    ensures AllValid(vs) && 0 <= dist <= MaxCommitDistance ==> Good(r.0)
    ensures Survives(r.0)
    decreases |AllCommits(repo) - skip|, 0, |History(repo, base)| - i
  {
    var cs := History(repo, base);
    if i >= |cs| then (Final(assumeIfNone, last, [], Some(dist)), skip)
    else
      var c := cs[i];
      if c in skip then (Ok(Skipped), skip)
      else
        var skip1 := skip + {c};
        var tagged := TagsAt(repo, vs, c);
        InAllCommits(repo, base, i);
        FewerUnvisited(AllCommits(repo), skip, c);
        if |tagged| > 0 then (Final(assumeIfNone, Some(c), tagged, Some(dist)), skip1)
        else if dist >= MaxCommitDistance then (Err(ValueError), skip1)
        else if |Parents(repo, c)| <= 1 then WalkLoop(repo, vs, assumeIfNone, base, i + 1, Some(c), dist + 1, skip1)
        else WalkBranches(repo, vs, assumeIfNone, c, 0, dist + 1, skip1, [], None)
  }

  /**
   * The loop over the parents of a merge commit from the `j`-th parent on:
   * each parent is walked with the shared visited set, a `ValueError` from
   * it is ignored, and the greatest version found wins.
   */
  function WalkBranches(repo: Repo, vs: map<nat, VersionValue>, assumeIfNone: bool, c: Commit, j: nat, dist: int,
                        skip: set<Commit>, results: seq<Found>, main: Option<int>)
    : (r: (Result<Outcome>, set<Commit>))
    ensures skip <= r.1
    ensures (AllValid(vs) && 1 <= dist <= MaxCommitDistance && (main.Some? ==> -1 <= main.value <= MaxCommitDistance)
             && (forall k :: 0 <= k < |results| ==> GoodFound(results[k]))) ==> Good(r.0)
    ensures Survives(r.0)
    decreases |AllCommits(repo) - skip|, 2, |Parents(repo, c)| - j
  {
    var ps := Parents(repo, c);
    if j >= |ps| then
      if |results| == 0 then (Final(assumeIfNone, Some(c), [], main), skip)
      else (Ok(Hit(results[BestIndex(FoundVersions(results))])), skip)
    else
      var (r, skip2) := Walk(repo, vs, assumeIfNone, ps[j], dist, skip);
      NoMoreUnvisited(AllCommits(repo), skip, skip2);
      if r.Err? then
        if r.error == ValueError then WalkBranches(repo, vs, assumeIfNone, c, j + 1, dist, skip2, results, main)
        else (r, skip2)
      else
        var main2 := if main.None? then DistanceOf(r.value) else main;
        var results2 := if r.value.Hit? then results + [r.value.found] else results;
        assert r.value.Hit? ==> forall k :: 0 <= k < |results| ==> results2[k] == results[k];
        WalkBranches(repo, vs, assumeIfNone, c, j + 1, dist, skip2, results2, main2)
  }

  /** `_latest_git_version_tag(repo, assume_if_none)` from HEAD; an empty repository has no HEAD to walk from. */
  function LatestTag(repo: Repo, assumeIfNone: bool): (r: Result<Outcome>)
    ensures Good(r)
  {
    if repo.head.None? then Err(ValueError)
    else
      VersionTagsValid(repo);
      Walk(repo, VersionTags(repo), assumeIfNone, repo.head.value, 0, {}).0
  }

  /** One new commit of the history: its tags, the distance limit and its parents decide how the walk goes on. */
  lemma LoopStep(repo: Repo, vs: map<nat, VersionValue>, assumeIfNone: bool, base: Commit, i: nat,
                 last: Option<Commit>, dist: int, skip: set<Commit>)
    requires i < |History(repo, base)| && History(repo, base)[i] !in skip
    ensures var c := History(repo, base)[i];
      var tagged := TagsAt(repo, vs, c);
      WalkLoop(repo, vs, assumeIfNone, base, i, last, dist, skip)
      == if |tagged| > 0 then (Final(assumeIfNone, Some(c), tagged, Some(dist)), skip + {c})
         else if dist >= MaxCommitDistance then (Err(ValueError), skip + {c})
         else if |Parents(repo, c)| <= 1 then WalkLoop(repo, vs, assumeIfNone, base, i + 1, Some(c), dist + 1, skip + {c})
         else WalkBranches(repo, vs, assumeIfNone, c, 0, dist + 1, skip + {c}, [], None)
  {
  }

  /**
   * `_latest_git_version_tag` as the loop it is: commits are taken in
   * `iter_commits` order, the visited set is updated in place and shared
   * with the recursive calls at merge commits.
   */
  method LatestGitVersionTag(repo: Repo, vs: map<nat, VersionValue>, assumeIfNone: bool, base: Commit, dist0: int,
                             skip0: set<Commit>)
    returns (r: Result<Outcome>, skip: set<Commit>)
    ensures (r, skip) == Walk(repo, vs, assumeIfNone, base, dist0, skip0)
    decreases |AllCommits(repo) - skip0|, 1
  {
    ghost var goal := Walk(repo, vs, assumeIfNone, base, dist0, skip0);
    var cs := History(repo, base);
    var i := 0;
    var last: Option<Commit> := None;
    var dist := dist0;
    skip := skip0;
    while i < |cs|
      invariant 0 <= i <= |cs|
      invariant |AllCommits(repo) - skip| <= |AllCommits(repo) - skip0|
      invariant WalkLoop(repo, vs, assumeIfNone, base, i, last, dist, skip) == goal
      decreases |cs| - i
    {
      var c := cs[i];
      if c in skip {
        return Ok(Skipped), skip;
      }
      InAllCommits(repo, base, i);
      FewerUnvisited(AllCommits(repo), skip, c);
      LoopStep(repo, vs, assumeIfNone, base, i, last, dist, skip);
      skip := skip + {c};
      var tagged := TagsAt(repo, vs, c);
      if |tagged| > 0 {
        return Final(assumeIfNone, Some(c), tagged, Some(dist)), skip;
      }
      if dist >= MaxCommitDistance {
        return Err(ValueError), skip;
      }
      dist := dist + 1;
      if |Parents(repo, c)| <= 1 {
        last := Some(c);
        i := i + 1;
      } else {
        r, skip := LatestOfBranches(repo, vs, assumeIfNone, c, dist, skip);
        return;
      }
    }
    r := Final(assumeIfNone, last, [], Some(dist));
  }

  /** One parent of a merge: the recursive walk decides whether the loop goes on and with what. */
  lemma BranchStep(repo: Repo, vs: map<nat, VersionValue>, assumeIfNone: bool, c: Commit, j: nat, dist: int,
                   skip: set<Commit>, results: seq<Found>, main: Option<int>)
    requires j < |Parents(repo, c)|
    ensures var (r, skip2) := Walk(repo, vs, assumeIfNone, Parents(repo, c)[j], dist, skip);
      WalkBranches(repo, vs, assumeIfNone, c, j, dist, skip, results, main)
      == if r.Err? && r.error != ValueError then (r, skip2)
         else if r.Err? then WalkBranches(repo, vs, assumeIfNone, c, j + 1, dist, skip2, results, main)
         else WalkBranches(repo, vs, assumeIfNone, c, j + 1, dist, skip2,
                           if r.value.Hit? then results + [r.value.found] else results,
                           if main.None? then DistanceOf(r.value) else main)
  {
  }

  /** The loop over the parents of the merge commit `c`, each walked by a recursive call. */
  method LatestOfBranches(repo: Repo, vs: map<nat, VersionValue>, assumeIfNone: bool, c: Commit, dist: int,
                          skip0: set<Commit>)
    returns (r: Result<Outcome>, skip: set<Commit>)
    ensures (r, skip) == WalkBranches(repo, vs, assumeIfNone, c, 0, dist, skip0, [], None)
    decreases |AllCommits(repo) - skip0|, 2
  {
    var ps := Parents(repo, c);
    var results: seq<Found> := [];
    var main: Option<int> := None;
    var j := 0;
    skip := skip0;
    while j < |ps|
      invariant 0 <= j <= |ps|
      invariant |AllCommits(repo) - skip| <= |AllCommits(repo) - skip0|
      invariant WalkBranches(repo, vs, assumeIfNone, c, j, dist, skip, results, main)
             == WalkBranches(repo, vs, assumeIfNone, c, 0, dist, skip0, [], None)
      decreases |ps| - j
    {
      var rj, skip2 := LatestGitVersionTag(repo, vs, assumeIfNone, ps[j], dist, skip);
      BranchStep(repo, vs, assumeIfNone, c, j, dist, skip, results, main);
      NoMoreUnvisited(AllCommits(repo), skip, skip2);
      if rj.Err? && rj.error != ValueError {
        return rj, skip2;
      }
      main := if rj.Ok? && main.None? then DistanceOf(rj.value) else main;
      results := if rj.Ok? && rj.value.Hit? then results + [rj.value.found] else results;
      skip := skip2;
      j := j + 1;
    }
    if |results| == 0 {
      return Final(assumeIfNone, Some(c), [], main), skip;
    }
    r := Ok(Hit(results[BestIndex(FoundVersions(results))]));
  }

  // ----- a straight run of untagged commits -----

  /** The commits before position `i` of a history. */
  function Visited(cs: seq<Commit>, i: nat): set<Commit>
    requires i <= |cs|
  {
    set a | 0 <= a < i :: cs[a]
  }

  function LastBefore(cs: seq<Commit>, i: nat): Option<Commit>
    requires i <= |cs|
  {
    if i == 0 then None else Some(cs[i - 1])
  }

  /** The first `k` commits are distinct, carry no version tag and are not merge commits. */
  predicate PlainPrefix(repo: Repo, vs: map<nat, VersionValue>, cs: seq<Commit>, k: nat)
    requires k <= |cs|
  {
    && (forall a, b :: 0 <= a < b < k ==> cs[a] != cs[b])
    && (forall a :: 0 <= a < k ==> |TagsAt(repo, vs, cs[a])| == 0 && |Parents(repo, cs[a])| <= 1)
  }

  /** Walking a plain prefix of at most 999 commits counts one per commit and remembers each. */
  lemma {:induction false} PlainSteps(repo: Repo, vs: map<nat, VersionValue>, assumeIfNone: bool, base: Commit, i: nat, k: nat)
    requires i <= k <= |History(repo, base)| && k <= MaxCommitDistance
    requires PlainPrefix(repo, vs, History(repo, base), k)
    ensures var cs := History(repo, base);
      WalkLoop(repo, vs, assumeIfNone, base, i, LastBefore(cs, i), i, Visited(cs, i))
      == WalkLoop(repo, vs, assumeIfNone, base, k, LastBefore(cs, k), k, Visited(cs, k))
    decreases k - i
  {
    var cs := History(repo, base);
    if i < k {
      assert cs[i] !in Visited(cs, i);
      assert Visited(cs, i) + {cs[i]} == Visited(cs, i + 1);
      PlainSteps(repo, vs, assumeIfNone, base, i + 1, k);
    }
  }

  lemma NotVisited(cs: seq<Commit>, k: nat)
    requires k < |cs| && cs[k] !in cs[..k]
    ensures cs[k] !in Visited(cs, k)
  {
    forall a | 0 <= a < k
      ensures cs[a] != cs[k]
    {
      assert cs[..k][a] == cs[a];
    }
  }

  /** From HEAD, a plain run of `k` commits leads to the state the walk is in at the `k`-th commit. */
  lemma WalkFromHead(repo: Repo, assumeIfNone: bool, k: nat)
    requires repo.head.Some? && k <= |History(repo, repo.head.value)| && k <= MaxCommitDistance
    requires PlainPrefix(repo, VersionTags(repo), History(repo, repo.head.value), k)
    ensures var cs := History(repo, repo.head.value);
      LatestTag(repo, assumeIfNone)
      == WalkLoop(repo, VersionTags(repo), assumeIfNone, repo.head.value, k, LastBefore(cs, k), k, Visited(cs, k)).0
  {
    var cs := History(repo, repo.head.value);
    assert Visited(cs, 0) == {};
    PlainSteps(repo, VersionTags(repo), assumeIfNone, repo.head.value, 0, k);
  }

  /**
   * The first commit that carries a version tag decides: it is returned with
   * the number of commits walked before it as the distance (0 for a tag on
   * HEAD), whatever older commits carry, and the tag chosen is one of its
   * version tags whose version is not below any other at that commit.
   */
  lemma FirstTaggedCommitDecides(repo: Repo, assumeIfNone: bool, k: nat)
    requires repo.head.Some? && k < |History(repo, repo.head.value)| && k <= MaxCommitDistance
    requires var cs := History(repo, repo.head.value);
      && PlainPrefix(repo, VersionTags(repo), cs, k)
      && cs[k] !in cs[..k]
      && |TagsAt(repo, VersionTags(repo), cs[k])| > 0
      && Comparable(VersionsOf(TagsAt(repo, VersionTags(repo), cs[k])))
    ensures var cs := History(repo, repo.head.value);
      var r := LatestTag(repo, assumeIfNone);
      && r.Ok? && r.value.Hit?
      && r.value.found.commit == Some(cs[k])
      && r.value.found.distance == Some(k)
      && r.value.found.tag.Some?
      && var t := r.value.found.tag.value;
      && t < |repo.tags| && repo.tags[t].commit == cs[k]
      && t in VersionTags(repo) && r.value.found.version == VersionTags(repo)[t]
      && forall u :: u in VersionTags(repo) && u < |repo.tags| && repo.tags[u].commit == cs[k] ==>
           LessThan(r.value.found.version, VersionTags(repo)[u]) == Ok(false)
  {
    var cs := History(repo, repo.head.value);
    var vs := VersionTags(repo);
    WalkFromHead(repo, assumeIfNone, k);
    NotVisited(cs, k);
    var tagged := TagsAt(repo, vs, cs[k]);
    var xs := VersionsOf(tagged);
    BestIsGreatest(xs);
    forall u | u in vs && u < |repo.tags| && repo.tags[u].commit == cs[k]
      ensures LessThan(xs[BestIndex(xs)], vs[u]) == Ok(false)
    {
      VersionTagsSpec(repo);
      TagsFromComplete(repo, vs, cs[k], 0, u);
      var m :| 0 <= m < |tagged| && tagged[m] == (u, vs[u]);
      assert xs[m] == vs[u];
    }
  }

  /** 999 untagged commits in a row without a merge make the walk give up with `ValueError`. */
  lemma TooFarRaises(repo: Repo, assumeIfNone: bool)
    requires repo.head.Some? && MaxCommitDistance < |History(repo, repo.head.value)|
    requires var cs := History(repo, repo.head.value);
      && PlainPrefix(repo, VersionTags(repo), cs, MaxCommitDistance)
      && cs[MaxCommitDistance] !in cs[..MaxCommitDistance]
      && |TagsAt(repo, VersionTags(repo), cs[MaxCommitDistance])| == 0
    ensures LatestTag(repo, assumeIfNone) == Err(ValueError)
  {
    var cs := History(repo, repo.head.value);
    WalkFromHead(repo, assumeIfNone, MaxCommitDistance);
    NotVisited(cs, MaxCommitDistance);
  }

  /**
   * A history of at most 999 commits with no version tag and no merge gives
   * `0.1.0.dev0` at the distance of the whole history when assuming, and
   * `ValueError` otherwise.
   */
  lemma NoVersionTags(repo: Repo)
    requires repo.head.Some? && |History(repo, repo.head.value)| <= MaxCommitDistance
    requires var cs := History(repo, repo.head.value);
      PlainPrefix(repo, VersionTags(repo), cs, |cs|)
    ensures var cs := History(repo, repo.head.value);
      LatestTag(repo, true) == Ok(Hit(Found(LastBefore(cs, |cs|), None, Assumed, Some(|cs|))))
    ensures LatestTag(repo, false) == Err(ValueError)
    ensures Parse("0.1.0.dev0") == Ok(Assumed)
  {
    var cs := History(repo, repo.head.value);
    WalkFromHead(repo, true, |cs|);
    WalkFromHead(repo, false, |cs|);
    AssumedParses();
  }

  /**
   * The visited set the merge at `c` walks parent `j` with: the one the walks
   * of parents `0` to `j - 1` left behind, starting from `skip0`.
   */
  function SkipBefore(repo: Repo, vs: map<nat, VersionValue>, assumeIfNone: bool, c: Commit, dist: int, skip0: set<Commit>, j: nat): set<Commit>
    requires j <= |Parents(repo, c)|
    decreases j
  {
    if j == 0 then skip0
    else Walk(repo, vs, assumeIfNone, Parents(repo, c)[j - 1], dist, SkipBefore(repo, vs, assumeIfNone, c, dist, skip0, j - 1)).1
  }

  /** What the walk from parent `j` of `c` returns, in the visited set threaded through the merge. */
  function ParentWalk(repo: Repo, vs: map<nat, VersionValue>, assumeIfNone: bool, c: Commit, dist: int, skip0: set<Commit>, j: nat): Result<Outcome>
    requires j < |Parents(repo, c)|
  {
    Walk(repo, vs, assumeIfNone, Parents(repo, c)[j], dist, SkipBefore(repo, vs, assumeIfNone, c, dist, skip0, j)).0
  }

  /** A parent walk the merge goes on after: it returned an outcome or raised `ValueError`. */
  predicate Survives(r: Result<Outcome>) {
    r.Ok? || r.error == ValueError
  }

  /** The versions the walks from parents `0` to `j - 1` found, in parent order. */
  function ParentHits(repo: Repo, vs: map<nat, VersionValue>, assumeIfNone: bool, c: Commit, dist: int, skip0: set<Commit>, j: nat): seq<Found>
    requires j <= |Parents(repo, c)|
    decreases j
  {
    if j == 0 then []
    else
      var r := ParentWalk(repo, vs, assumeIfNone, c, dist, skip0, j - 1);
      ParentHits(repo, vs, assumeIfNone, c, dist, skip0, j - 1) + (if r.Ok? && r.value.Hit? then [r.value.found] else [])
  }

  /** The candidates are exactly the versions the parent walks found. */
  lemma {:induction false} ParentHitsAreFound(repo: Repo, vs: map<nat, VersionValue>, assumeIfNone: bool, c: Commit, dist: int, skip0: set<Commit>, j: nat)
    requires j <= |Parents(repo, c)|
    ensures forall k :: 0 <= k < j && ParentWalk(repo, vs, assumeIfNone, c, dist, skip0, k).Ok? && ParentWalk(repo, vs, assumeIfNone, c, dist, skip0, k).value.Hit? ==>
      ParentWalk(repo, vs, assumeIfNone, c, dist, skip0, k).value.found in ParentHits(repo, vs, assumeIfNone, c, dist, skip0, j)
    ensures forall f :: f in ParentHits(repo, vs, assumeIfNone, c, dist, skip0, j) ==>
      exists k :: 0 <= k < j && ParentWalk(repo, vs, assumeIfNone, c, dist, skip0, k) == Ok(Hit(f))
    decreases j
  {
    if j > 0 {
      ParentHitsAreFound(repo, vs, assumeIfNone, c, dist, skip0, j - 1);
    }
  }

  /**
   * The merge loop from parent `j` on, entered in the state the earlier
   * parents left: it ends with `ValueError` or an outcome, and that outcome
   * is the best of all the parents' versions when there is one.
   */
  lemma {:induction false} BranchesSurvive(repo: Repo, vs: map<nat, VersionValue>, assumeIfNone: bool, c: Commit, dist: int, skip0: set<Commit>, j: nat, main: Option<int>)
    requires j <= |Parents(repo, c)|
    ensures var r := WalkBranches(repo, vs, assumeIfNone, c, j, dist, SkipBefore(repo, vs, assumeIfNone, c, dist, skip0, j), ParentHits(repo, vs, assumeIfNone, c, dist, skip0, j), main).0;
      var hits := ParentHits(repo, vs, assumeIfNone, c, dist, skip0, |Parents(repo, c)|);
      && (r.Ok? || r == Err(ValueError))
      && (|hits| > 0 ==> r == Ok(Hit(hits[BestIndex(FoundVersions(hits))])))
    decreases |Parents(repo, c)| - j
  {
    if j < |Parents(repo, c)| {
      var main2 := BranchOn(repo, vs, assumeIfNone, c, dist, skip0, j, main);
      BranchesSurvive(repo, vs, assumeIfNone, c, dist, skip0, j + 1, main2);
    }
  }

  /** After a surviving parent walk the merge loop goes on with the threaded state of the next parent. */
  lemma BranchOn(repo: Repo, vs: map<nat, VersionValue>, assumeIfNone: bool, c: Commit, dist: int, skip0: set<Commit>, j: nat, main: Option<int>) returns (main2: Option<int>)
    requires j < |Parents(repo, c)| && Survives(ParentWalk(repo, vs, assumeIfNone, c, dist, skip0, j))
    ensures WalkBranches(repo, vs, assumeIfNone, c, j, dist, SkipBefore(repo, vs, assumeIfNone, c, dist, skip0, j), ParentHits(repo, vs, assumeIfNone, c, dist, skip0, j), main)
      == WalkBranches(repo, vs, assumeIfNone, c, j + 1, dist, SkipBefore(repo, vs, assumeIfNone, c, dist, skip0, j + 1), ParentHits(repo, vs, assumeIfNone, c, dist, skip0, j + 1), main2)
  {
    var skip := SkipBefore(repo, vs, assumeIfNone, c, dist, skip0, j);
    var hits := ParentHits(repo, vs, assumeIfNone, c, dist, skip0, j);
    BranchStep(repo, vs, assumeIfNone, c, j, dist, skip, hits, main);
    var r := ParentWalk(repo, vs, assumeIfNone, c, dist, skip0, j);
    main2 := if r.Err? || main.Some? then main else DistanceOf(r.value);
    if r.Ok? && r.value.Hit? {
      assert ParentHits(repo, vs, assumeIfNone, c, dist, skip0, j + 1) == hits + [r.value.found];
    } else {
      assert ParentHits(repo, vs, assumeIfNone, c, dist, skip0, j + 1) == hits + [] == hits;
    }
  }

  /**
   * At a merge commit whose parent walks found versions that compare, the
   * walk returns one of those versions, and none of them is greater.
   */
  lemma MergePicksGreatest(repo: Repo, vs: map<nat, VersionValue>, assumeIfNone: bool, c: Commit, dist: int, skip0: set<Commit>)
    requires var hits := ParentHits(repo, vs, assumeIfNone, c, dist, skip0, |Parents(repo, c)|);
      |hits| > 0 && Comparable(FoundVersions(hits))
    ensures var r := WalkBranches(repo, vs, assumeIfNone, c, 0, dist, skip0, [], None).0;
      var hits := ParentHits(repo, vs, assumeIfNone, c, dist, skip0, |Parents(repo, c)|);
      && r.Ok? && r.value.Hit? && r.value.found in hits
      && forall k :: 0 <= k < |hits| ==> LessThan(r.value.found.version, hits[k].version) == Ok(false)
  {
    BranchesSurvive(repo, vs, assumeIfNone, c, dist, skip0, 0, None);
    BestIsGreatest(FoundVersions(ParentHits(repo, vs, assumeIfNone, c, dist, skip0, |Parents(repo, c)|)));
  }

  /**
   * With no version tag in a plain history of 1 to 999 commits, the
   * prediction on a clean tree is `0.1.0.devN` with N the number of commits,
   * and the abbreviated HEAD commit as local part.
   */
  lemma PredictWithoutTags(repo: Repo, stamp: string)
    requires repo.head.Some? && 0 < |History(repo, repo.head.value)| <= MaxCommitDistance
    requires PlainPrefix(repo, VersionTags(repo), History(repo, repo.head.value), |History(repo, repo.head.value)|)
    requires Alnum(Sha8(repo.head.value))
    ensures var n := |History(repo, repo.head.value)|;
      PredictValue(repo, false, stamp)
      == Ok(Some(VersionValue(0, Some(1), Some(0), Some([Segment(Some('.'), Some("dev"), Some(n))]), Some([Sha8(repo.head.value)]))))
  {
    NoVersionTags(repo);
    var cs := History(repo, repo.head.value);
    AssumedPrediction(LastBefore(cs, |cs|), |cs|, Sha8(repo.head.value), stamp);
  }

  /** The prediction from the assumed `0.1.0.dev0` at distance `n`. */
  lemma AssumedPrediction(last: Option<Commit>, n: int, sha: string, stamp: string)
    requires n > 0 && Alnum(sha)
    ensures PredictFrom(Hit(Found(last, None, Assumed, Some(n))), sha, false, stamp)
      == Ok(Some(VersionValue(0, Some(1), Some(0), Some([Segment(Some('.'), Some("dev"), Some(n))]), Some([sha]))))
  {
    var d := Segment(Some('.'), Some("dev"), Some(0));
    assert LowerStr("dev") == "dev";
    assert LabelKey(d) == "dev";
    assert TrailingDev(Assumed.preRelease);
    var pre := [d];
    assert pre[..0] + [d.(prePatch := Some(0 + n))] == [Segment(Some('.'), Some("dev"), Some(n))];
    var w := VersionValue(0, Some(1), Some(0), Some([Segment(Some('.'), Some("dev"), Some(n))]), None);
    assert IncrementValue(Assumed, DevPatch, n) == Ok(w);
    assert DevelIncrement(Assumed, n) == (w, None);
    assert ValidLocal(Some([sha]));
    assert AfterDistance(Some(Assumed), n, sha) == Ok(Some(w.(local := Some([sha]))));
  }

  /** `query_git_repo`: the version of the latest version tag, with no version assumed. */
  function QueryGitRepo(repo: Repo): (r: Result<Option<VersionValue>>)
    ensures r.Ok? && r.value.Some? ==> ValidValue(r.value.value)
  {
    var o :- LatestTag(repo, false);
    Ok(if o.Skipped? then None else Some(o.found.version))
  }

  // ----- `predict_git_repo` -----

  /** `hexsha[:8]`. */
  function Sha8(sha: string): string {
    if |sha| <= 8 then sha else sha[..8]
  }

  /** The first step of `predict_git_repo`: away from the tag, a development release with the HEAD commit as local part. */
  function AfterDistance(version: Option<VersionValue>, dist: int, sha: string): Result<Option<VersionValue>> {
    if dist <= 0 then Ok(version)
    else if version.None? then Err(AttributeError)
    else
      var (w, err) := DevelIncrement(version.value, dist);
      if err.Some? then Err(err.value)
      else if !ValidLocal(Some([sha])) then Err(ValueError)
      else Ok(Some(w.(local := Some([sha]))))
  }

  /** The second step: a dirty tree appends `dirty` and the time stamp to the local part. */
  function MarkDirty(version: Option<VersionValue>, dirty: bool, stamp: string): Result<Option<VersionValue>> {
    if !dirty then Ok(version)
    else if version.None? then Err(AttributeError)
    else
      var v := version.value;
      var local := Some(if v.local.Some? then v.local.value + [".", "dirty" + stamp] else ["dirty" + stamp]);
      if !ValidLocal(local) then Err(ValueError) else Ok(Some(v.(local := local)))
  }

  /** `predict_git_repo` from the tuple the walk returned. */
  function PredictFrom(o: Outcome, sha: string, dirty: bool, stamp: string): Result<Option<VersionValue>> {
    var dist := DistanceOf(o);
    if dist.None? then Err(TypeError)
    else
      var version := if o.Skipped? then None else Some(o.found.version);
      var v :- AfterDistance(version, dist.value, sha);
      MarkDirty(v, dirty, stamp)
  }

  /**
   * `predict_git_repo`: after the latest version tag, a distance above zero
   * gives a development release with the abbreviated HEAD commit as the
   * local part, and a dirty working tree appends `dirty` and the time stamp.
   * The time stamp and the working-tree state are parameters.
   */
  function PredictValue(repo: Repo, dirty: bool, stamp: string): Result<Option<VersionValue>> {
    var o :- LatestTag(repo, true);
    PredictFrom(o, Sha8(repo.head.GetOr("")), dirty, stamp)
  }

  /** A comparison decided by the release or the pre-release does not look at the local part. */
  lemma DecidedBeforeLocal(a: VersionValue, b: VersionValue, local: Option<seq<string>>)
    requires LessThan(a, b) == Ok(true) && (a.local == b.local || ReleaseKey(a) != ReleaseKey(b))
    ensures ReleaseKey(a) != ReleaseKey(b) || PreKeys(a.preRelease) != PreKeys(b.preRelease)
    ensures LessThan(a, b.(local := local)) == Ok(true)
  {
    if ReleaseKey(a) == ReleaseKey(b) && PreKeys(a.preRelease) == PreKeys(b.preRelease) {
      LessAsymmetric(a, a);
      LessThanByKeys(a, b, a);
    }
  }

  lemma DirtyStampAlnum(stamp: string)
    requires AllDigits(stamp)
    ensures Alnum("dirty" + stamp)
  {
    forall i | 0 <= i < |"dirty" + stamp|
      ensures IsAlnum(("dirty" + stamp)[i])
    {
      if i >= 5 {
        assert ("dirty" + stamp)[i] == stamp[i - 5];
      }
    }
  }

  /** One alphanumeric part on its own is a valid local part. */
  lemma SingleLocal(part: string)
    requires Alnum(part)
    ensures ValidLocal(Some([part]))
  {
    assert forall i :: 0 <= i < |[part]| ==> [part][i] == part;
  }

  /** Away from the tag the development release is greater, whatever local part it then gets. */
  lemma AfterDistanceGreater(v: VersionValue, d: int, sha: string, local: Option<seq<string>>)
    requires ValidValue(v) && d > 0 && Alnum(sha)
    ensures AfterDistance(Some(v), d, sha).Ok? && AfterDistance(Some(v), d, sha).value.Some?
    ensures var u := AfterDistance(Some(v), d, sha).value.value;
      && u == DevelIncrement(v, d).0.(local := Some([sha]))
      && ValidValue(u) && u.local == Some([sha])
      && LessThan(v, u.(local := local)) == Ok(true)
  {
    SingleLocal(sha);
    DevelIncrementGreater(v, d);
    var w := DevelIncrement(v, d).0;
    assert AfterDistance(Some(v), d, sha) == Ok(Some(w.(local := Some([sha]))));
    if TrailingDev(v.preRelease) {
      DevPatchCountsUp(v, d);
      assert w == IncrementValue(v, DevPatch, d).value;
    } else {
      assert ReleaseKey(w) != ReleaseKey(v);
    }
    DecidedBeforeLocal(v, w, local);
    assert w.(local := Some([sha])).(local := local) == w.(local := local);
  }

  /** A dirty tree appends to the local part, which makes the version greater. */
  lemma MarkDirtyGreater(v: VersionValue, stamp: string)
    requires ValidValue(v) && AllDigits(stamp)
    ensures MarkDirty(Some(v), true, stamp).Ok? && MarkDirty(Some(v), true, stamp).value.Some?
    ensures var u := MarkDirty(Some(v), true, stamp).value.value;
      && ValidValue(u) && u == v.(local := u.local)
      && u.local.value == v.local.GetOr([]) + (if v.local.Some? then ["."] else []) + ["dirty" + stamp]
      && LessThan(v, u) == Ok(true)
  {
    DirtyStampAlnum(stamp);
    var dt := "dirty" + stamp;
    var more := if v.local.Some? then [".", dt] else [dt];
    var local := if v.local.Some? then v.local.value + [".", dt] else [dt];
    assert local == v.local.GetOr([]) + more;
    assert ValidLocal(Some(local)) by {
      if v.local.Some? {
        var l := v.local.value;
        assert forall i :: 0 <= i < |l| ==> local[i] == l[i];
        assert local[|l|] == "." && local[|l| + 1] == dt;
      }
    }
    ShorterLocalIsLess(v, v.(local := Some(local)), more);
  }

  /**
   * The prediction from a tagged version succeeds; it is that version exactly
   * when the tree is clean and the distance is not above zero, and a greater
   * version otherwise. Away from the tag the local part starts with the
   * abbreviated HEAD commit, and a dirty tree makes `dirty` and the time
   * stamp its last part.
   */
  lemma PredictAdvances(f: Found, sha: string, dirty: bool, stamp: string)
    requires ValidValue(f.version) && f.distance.Some?
    requires Alnum(sha) && AllDigits(stamp)
    ensures var r := PredictFrom(Hit(f), sha, dirty, stamp);
      var d := f.distance.value;
      && r.Ok? && r.value.Some?
      && (d <= 0 && !dirty ==> r.value.value == f.version)
      && (d > 0 || dirty ==> LessThan(f.version, r.value.value) == Ok(true))
      && (d > 0 ==> r.value.value.local.Some? && r.value.value.local.value[0] == sha)
      && (dirty ==> r.value.value.local.Some? && Last(r.value.value.local.value) == "dirty" + stamp)
    ensures var r := PredictFrom(Hit(f), sha, dirty, stamp).value.value;
      var d := f.distance.value;
      var mark := if dirty then [".", "dirty" + stamp] else [];
      && (d > 0 ==> r.(local := None) == DevelIncrement(f.version, d).0.(local := None)
                    && r.local == Some([sha] + mark))
      && (d <= 0 && dirty ==>
            r == f.version.(local := Some(f.version.local.GetOr([]) + (if f.version.local.Some? then ["."] else [])
                                          + ["dirty" + stamp])))
  {
    var v := f.version;
    var d := f.distance.value;
    if d > 0 {
      AfterDistanceGreater(v, d, sha, Some([sha]));
      var u := AfterDistance(Some(v), d, sha).value.value;
      assert PredictFrom(Hit(f), sha, dirty, stamp) == MarkDirty(Some(u), dirty, stamp);
      if dirty {
        MarkDirtyGreater(u, stamp);
        var t := MarkDirty(Some(u), true, stamp).value.value;
        AfterDistanceGreater(v, d, sha, t.local);
        assert t == u.(local := t.local);
      } else {
        assert u == u.(local := Some([sha]));
        assert [sha] + [] == [sha];
      }
    } else {
      assert PredictFrom(Hit(f), sha, dirty, stamp) == MarkDirty(Some(v), dirty, stamp);
      if dirty {
        MarkDirtyGreater(v, stamp);
      }
    }
  }

  function Last(xs: seq<string>): string
    requires |xs| > 0
  {
    xs[|xs| - 1]
  }

  /** The prediction after the latest tag, in terms of the repository. */
  lemma PredictFromRepo(repo: Repo, dirty: bool, stamp: string)
    requires LatestTag(repo, true).Ok? && LatestTag(repo, true).value.Hit?
    requires LatestTag(repo, true).value.found.distance.Some?
    requires Alnum(Sha8(repo.head.GetOr(""))) && AllDigits(stamp)
    ensures var f := LatestTag(repo, true).value.found;
      && PredictValue(repo, dirty, stamp) == PredictFrom(Hit(f), Sha8(repo.head.GetOr("")), dirty, stamp)
      && PredictValue(repo, dirty, stamp).Ok? && PredictValue(repo, dirty, stamp).value.Some?
      && (f.distance.value <= 0 && !dirty ==> PredictValue(repo, dirty, stamp).value.value == f.version)
      && (f.distance.value > 0 || dirty ==> LessThan(f.version, PredictValue(repo, dirty, stamp).value.value) == Ok(true))
  {
    var f := LatestTag(repo, true).value.found;
    PredictAdvances(f, Sha8(repo.head.GetOr("")), dirty, stamp);
  }

  /**
   * `predict_git_repo` on `Version` objects: the walk, then
   * `devel_increment` and the `local` setter on the version found.
   */
  method PredictGitRepo(repo: Repo, dirty: bool, stamp: string) returns (r: Result<Option<Version>>)
    ensures r.Ok? <==> PredictValue(repo, dirty, stamp).Ok?
    ensures r.Err? ==> r.error == PredictValue(repo, dirty, stamp).error
    ensures r.Ok? ==> (r.value.Some? <==> PredictValue(repo, dirty, stamp).value.Some?)
    ensures r.Ok? && r.value.Some? ==>
      fresh(r.value.value) && r.value.value.Value() == PredictValue(repo, dirty, stamp).value.value
  {
    if repo.head.None? {
      return Err(ValueError);
    }
    var vs := GitVersionTags(repo);
    VersionTagsValid(repo);
    var res, _ := LatestGitVersionTag(repo, vs, true, repo.head.value, 0, {});
    if res.Err? {
      return Err(res.error);
    }
    var o := res.value;
    var dist := DistanceOf(o);
    if dist.None? {
      return Err(TypeError);
    }
    var version: Option<Version> := None;
    if o.Hit? {
      var f := o.found.version;
      var pre: Option<SegmentList> := None;
      if f.preRelease.Some? {
        var list := new SegmentList(f.preRelease.value);
        pre := Some(list);
      }
      var made := Version.New(f.major, f.minor, f.patch, pre, f.local);
      version := Some(made.value);
    }
    if dist.value > 0 {
      if version.None? {
        return Err(AttributeError);
      }
      var e := version.value.DevelIncrement(dist.value);
      if e.Some? {
        return Err(e.value);
      }
      e := version.value.SetLocal(Some([Sha8(repo.head.value)]));
      if e.Some? {
        return Err(e.value);
      }
    }
    if dirty {
      if version.None? {
        return Err(AttributeError);
      }
      var dt := "dirty" + stamp;
      var e: Option<Error>;
      if version.value.local.Some? {
        e := version.value.SetLocal(Some(version.value.local.value + [".", dt]));
      } else {
        e := version.value.SetLocal(Some([dt]));
      }
      if e.Some? {
        return Err(e.value);
      }
    }
    r := Ok(version);
  }
}
