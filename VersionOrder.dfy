/**
 * The ordering of `Version` objects: the sort tuples `release_to_tuple(True)`,
 * `pre_release_to_tuple(True)` and `local_to_tuple(True)`, `__lt__` built on
 * them, and `__eq__`, `__ne__`, `__gt__`, `__ge__`, `__le__` derived from it.
 */
module VersionOrder {
  import opened Wrappers
  import opened Versions

  // ----- Python's `<` on strings: code point by code point, a prefix is less -----

  function StrLess(a: string, b: string): bool
  {
    if |b| == 0 then false
    else if |a| == 0 then true
    else if a[0] != b[0] then a[0] < b[0]
    else StrLess(a[1..], b[1..])
  }

  lemma {:induction false} StrLessIrreflexive(a: string)
    ensures !StrLess(a, a)
  {
    if |a| > 0 {
      StrLessIrreflexive(a[1..]);
    }
  }

  lemma {:induction false} StrLessAsymmetric(a: string, b: string)
    requires StrLess(a, b)
    ensures !StrLess(b, a)
  {
    if |a| > 0 && a[0] == b[0] {
      StrLessAsymmetric(a[1..], b[1..]);
    }
  }

  lemma {:induction false} StrLessTransitive(a: string, b: string, c: string)
    requires StrLess(a, b) && StrLess(b, c)
    ensures StrLess(a, c)
  {
    if |a| > 0 && a[0] == b[0] && b[0] == c[0] {
      StrLessTransitive(a[1..], b[1..], c[1..]);
    }
  }

  lemma {:induction false} StrLessTotal(a: string, b: string)
    ensures a == b || StrLess(a, b) || StrLess(b, a)
  {
    if |a| > 0 && |b| > 0 && a[0] == b[0] {
      StrLessTotal(a[1..], b[1..]);
      if a[1..] == b[1..] {
        assert a == [a[0]] + a[1..] && b == [b[0]] + b[1..];
      }
    }
  }

  // ----- the release sort tuple -----

  /** `release_to_tuple(True)`: an absent minor or patch counts as 0. */
  function ReleaseKey(v: VersionValue): (int, int, int) {
    (v.major, v.minor.GetOr(0), v.patch.GetOr(0))
  }

  predicate TripleLess(x: (int, int, int), y: (int, int, int)) {
    x.0 < y.0 || (x.0 == y.0 && (x.1 < y.1 || (x.1 == y.1 && x.2 < y.2)))
  }

  // ----- the pre-release sort tuple -----

  /** `pre_release_segment_to_tuple(i, True)`: (1 if unlabelled else 0, lower-cased label, counter or 0). */
  datatype SegKey = SegKey(kind: int, name: string, counter: int)

  /** The fill value of `zip_longest`, and the whole key of a version without pre-release. */
  const Pad := SegKey(1, "", 0)

  function SegmentKey(s: Segment): SegKey {
    SegKey(if s.preType.None? then 1 else 0,
           if s.preType.None? then "" else LowerStr(s.preType.value),
           s.prePatch.GetOr(0))
  }

  /** `pre_release_to_tuple(True)`. */
  function PreKeys(pre: Option<seq<Segment>>): (r: seq<SegKey>)
    ensures pre.None? ==> r == [Pad]
    ensures pre.Some? ==> |r| == |pre.value| && forall i :: 0 <= i < |r| ==> r[i] == SegmentKey(pre.value[i])
  {
    if pre.None? then [Pad] else seq(|pre.value|, i requires 0 <= i < |pre.value| => SegmentKey(pre.value[i]))
  }

  /** Python's `<` on two `(int, str, int)` tuples. */
  predicate SegLess(x: SegKey, y: SegKey) {
    x.kind < y.kind || (x.kind == y.kind && (StrLess(x.name, y.name) || (x.name == y.name && x.counter < y.counter)))
  }

  lemma SegLessIrreflexive(x: SegKey)
    ensures !SegLess(x, x)
  {
    StrLessIrreflexive(x.name);
  }

  lemma SegLessAsymmetric(x: SegKey, y: SegKey)
    requires SegLess(x, y)
    ensures !SegLess(y, x)
  {
    if StrLess(x.name, y.name) {
      StrLessAsymmetric(x.name, y.name);
    }
    StrLessIrreflexive(x.name);
  }

  lemma SegLessTransitive(x: SegKey, y: SegKey, z: SegKey)
    requires SegLess(x, y) && SegLess(y, z)
    ensures SegLess(x, z)
  {
    if x.kind == y.kind == z.kind && StrLess(x.name, y.name) && StrLess(y.name, z.name) {
      StrLessTransitive(x.name, y.name, z.name);
    }
  }

  lemma SegLessTotal(x: SegKey, y: SegKey)
    ensures x == y || SegLess(x, y) || SegLess(y, x)
  {
    StrLessTotal(x.name, y.name);
  }

  function Head(xs: seq<SegKey>): SegKey { if |xs| > 0 then xs[0] else Pad }
  function Tail(xs: seq<SegKey>): seq<SegKey> { if |xs| > 0 then xs[1..] else [] }

  /**
   * The `zip_longest` loop of `__lt__` over two pre-release keys that differ:
   * the first pair that differs decides, and `NotImplementedError` is raised
   * when none does.
   */
  function PreCompare(xs: seq<SegKey>, ys: seq<SegKey>): Result<bool>
    decreases |xs| + |ys|
  {
    if |xs| == 0 && |ys| == 0 then Err(NotImplementedError)
    else if Head(xs) != Head(ys) then Ok(SegLess(Head(xs), Head(ys)))
    else PreCompare(Tail(xs), Tail(ys))
  }

  /** The `i`-th pair `zip_longest` yields. */
  function Padded(xs: seq<SegKey>, i: nat): SegKey { if i < |xs| then xs[i] else Pad }

  /** The two keys agree once the shorter is filled up with `(1, '', 0)`. */
  predicate PadEqual(xs: seq<SegKey>, ys: seq<SegKey>) {
    forall i: nat :: i < |xs| + |ys| ==> Padded(xs, i) == Padded(ys, i)
  }

  lemma {:induction false} PreCompareErr(xs: seq<SegKey>, ys: seq<SegKey>)
    ensures PreCompare(xs, ys).Err? <==> PadEqual(xs, ys)
    ensures PreCompare(xs, ys).Err? ==> PreCompare(xs, ys).error == NotImplementedError
    decreases |xs| + |ys|
  {
    if |xs| == 0 && |ys| == 0 {
    } else if Head(xs) != Head(ys) {
      assert Padded(xs, 0) == Head(xs) && Padded(ys, 0) == Head(ys);
    } else {
      var xt, yt := Tail(xs), Tail(ys);
      PreCompareErr(xt, yt);
      assert forall i: nat :: Padded(xt, i) == Padded(xs, i + 1);
      assert forall i: nat :: Padded(yt, i) == Padded(ys, i + 1);
      if PadEqual(xt, yt) {
        forall i: nat | i < |xs| + |ys|
          ensures Padded(xs, i) == Padded(ys, i)
        {
          if i > 0 {
            assert Padded(xt, i - 1) == Padded(xs, i);
            if i - 1 >= |xt| + |yt| {
              assert Padded(xs, i) == Pad == Padded(ys, i);
            }
          }
        }
      }
      if PadEqual(xs, ys) {
        forall i: nat | i < |xt| + |yt|
          ensures Padded(xt, i) == Padded(yt, i)
        {
          assert Padded(xs, i + 1) == Padded(ys, i + 1);
        }
      }
    }
  }

  lemma {:induction false} PreCompareAsymmetric(xs: seq<SegKey>, ys: seq<SegKey>)
    requires PreCompare(xs, ys) == Ok(true)
    ensures PreCompare(ys, xs) == Ok(false)
    decreases |xs| + |ys|
  {
    if Head(xs) != Head(ys) {
      SegLessAsymmetric(Head(xs), Head(ys));
    } else {
      PreCompareAsymmetric(Tail(xs), Tail(ys));
    }
  }

  lemma {:induction false} PreCompareConnex(xs: seq<SegKey>, ys: seq<SegKey>)
    requires PreCompare(xs, ys) == Ok(false)
    ensures PreCompare(ys, xs) == Ok(true)
    decreases |xs| + |ys|
  {
    if Head(xs) != Head(ys) {
      SegLessTotal(Head(xs), Head(ys));
    } else {
      PreCompareConnex(Tail(xs), Tail(ys));
    }
  }

  lemma {:induction false} PreCompareTransitive(xs: seq<SegKey>, ys: seq<SegKey>, zs: seq<SegKey>)
    requires PreCompare(xs, ys) == Ok(true) && PreCompare(ys, zs) == Ok(true)
    ensures PreCompare(xs, zs) == Ok(true)
    decreases |xs| + |ys| + |zs|
  {
    var x, y, z := Head(xs), Head(ys), Head(zs);
    if x != y && y != z {
      SegLessTransitive(x, y, z);
      SegLessIrreflexive(x);
    } else if x == y && y == z {
      PreCompareTransitive(Tail(xs), Tail(ys), Tail(zs));
    }
  }

  // ----- the local sort tuple -----

  /** An element of `local_to_tuple(True)`: `0` for a separator, the lower-cased part otherwise. */
  datatype LocalKey = SepKey | PartKey(part: string)

  /** `local_to_tuple(True)`. */
  function LocalKeys(local: Option<seq<string>>): (r: seq<LocalKey>)
    ensures local.None? ==> r == []
    ensures local.Some? ==> |r| == |local.value| && forall i :: 0 <= i < |r| ==>
      r[i] == (if local.value[i] == "." || local.value[i] == "-" then SepKey else PartKey(LowerStr(local.value[i])))
  {
    if local.None? then []
    else
      seq(|local.value|, i requires 0 <= i < |local.value| =>
        if local.value[i] == "." || local.value[i] == "-" then SepKey else PartKey(LowerStr(local.value[i])))
  }

  /** `<` on two different elements: `0 < 'x'` raises `TypeError`. */
  function LocalKeyLess(x: LocalKey, y: LocalKey): Result<bool> {
    match (x, y)
    case (PartKey(a), PartKey(b)) => Ok(StrLess(a, b))
    case (SepKey, SepKey) => Ok(false)
    case _ => Err(TypeError)
  }

  /**
   * The `zip` loop of `__lt__` over two local keys that differ: the first
   * pair that differs decides, then the shorter key is less.
   */
  function LocalCompare(xs: seq<LocalKey>, ys: seq<LocalKey>): Result<bool>
    decreases |xs|
  {
    if |xs| == 0 || |ys| == 0 then
      if |xs| != |ys| then Ok(|xs| < |ys|) else Err(NotImplementedError)
    else if xs[0] != ys[0] then LocalKeyLess(xs[0], ys[0])
    else LocalCompare(xs[1..], ys[1..])
  }

  lemma {:induction false} LocalCompareAsymmetric(xs: seq<LocalKey>, ys: seq<LocalKey>)
    requires LocalCompare(xs, ys) == Ok(true)
    ensures LocalCompare(ys, xs) == Ok(false)
    decreases |xs|
  {
    if |xs| > 0 && |ys| > 0 {
      if xs[0] != ys[0] {
        StrLessAsymmetric(xs[0].part, ys[0].part);
      } else {
        LocalCompareAsymmetric(xs[1..], ys[1..]);
      }
    }
  }

  lemma {:induction false} LocalCompareConnex(xs: seq<LocalKey>, ys: seq<LocalKey>)
    requires LocalCompare(xs, ys) == Ok(false)
    ensures LocalCompare(ys, xs) == Ok(true)
    decreases |xs|
  {
    if |xs| > 0 && |ys| > 0 {
      if xs[0] != ys[0] {
        StrLessTotal(xs[0].part, ys[0].part);
      } else {
        LocalCompareConnex(xs[1..], ys[1..]);
      }
    }
  }

  lemma {:induction false} LocalCompareTransitive(xs: seq<LocalKey>, ys: seq<LocalKey>, zs: seq<LocalKey>)
    requires LocalCompare(xs, ys) == Ok(true) && LocalCompare(ys, zs) == Ok(true)
    ensures LocalCompare(xs, zs) == Ok(true)
    decreases |xs|
  {
    if |xs| > 0 && |ys| > 0 && |zs| > 0 {
      if xs[0] != ys[0] && ys[0] != zs[0] {
        StrLessTransitive(xs[0].part, ys[0].part, zs[0].part);
        StrLessIrreflexive(xs[0].part);
      } else if xs[0] == ys[0] && ys[0] == zs[0] {
        LocalCompareTransitive(xs[1..], ys[1..], zs[1..]);
      }
    }
  }

  /** A key is less than any longer key it is a prefix of. */
  lemma {:induction false} LocalComparePrefix(xs: seq<LocalKey>, more: seq<LocalKey>)
    requires |more| > 0
    ensures LocalCompare(xs, xs + more) == Ok(true)
    decreases |xs|
  {
    if |xs| > 0 {
      assert (xs + more)[0] == xs[0] && (xs + more)[1..] == xs[1..] + more;
      LocalComparePrefix(xs[1..], more);
    }
  }

  // ----- `__lt__` and the comparisons derived from it -----

  /** Everything `__lt__` looks at. */
  function SortKey(v: VersionValue): ((int, int, int), seq<SegKey>, seq<LocalKey>) {
    (ReleaseKey(v), PreKeys(v.preRelease), LocalKeys(v.local))
  }

  /** `a < b`: release first, then pre-release, then local. */
  function LessThan(a: VersionValue, b: VersionValue): Result<bool> {
    var ra, rb := ReleaseKey(a), ReleaseKey(b);
    if ra != rb then Ok(TripleLess(ra, rb))
    else
      var pa, pb := PreKeys(a.preRelease), PreKeys(b.preRelease);
      if pa != pb then PreCompare(pa, pb)
      else
        var la, lb := LocalKeys(a.local), LocalKeys(b.local);
        if la != lb then LocalCompare(la, lb) else Ok(false)
  }

  /** `a == b` is `not a < b and not b < a`, short-circuiting. */
  function Eq(a: VersionValue, b: VersionValue): Result<bool> {
    var ab :- LessThan(a, b);
    if ab then Ok(false)
    else
      var ba :- LessThan(b, a);
      Ok(!ba)
  }

  /** `a != b` is `a < b or b < a`, short-circuiting. */
  function Ne(a: VersionValue, b: VersionValue): Result<bool> {
    var ab :- LessThan(a, b);
    if ab then Ok(true) else LessThan(b, a)
  }

  function Gt(a: VersionValue, b: VersionValue): Result<bool> { LessThan(b, a) }

  function Ge(a: VersionValue, b: VersionValue): Result<bool> {
    var ab :- LessThan(a, b);
    Ok(!ab)
  }

  function Le(a: VersionValue, b: VersionValue): Result<bool> {
    var ba :- LessThan(b, a);
    Ok(!ba)
  }

  /** `<` is irreflexive and asymmetric. */
  lemma LessAsymmetric(a: VersionValue, b: VersionValue)
    ensures LessThan(a, a) == Ok(false)
    ensures LessThan(a, b) == Ok(true) ==> LessThan(b, a) == Ok(false)
  {
    if LessThan(a, b) == Ok(true) && ReleaseKey(a) == ReleaseKey(b) {
      var pa, pb := PreKeys(a.preRelease), PreKeys(b.preRelease);
      if pa != pb {
        PreCompareAsymmetric(pa, pb);
      } else {
        LocalCompareAsymmetric(LocalKeys(a.local), LocalKeys(b.local));
      }
    }
  }

  /** `<` is transitive. */
  lemma LessTransitive(a: VersionValue, b: VersionValue, c: VersionValue)
    requires LessThan(a, b) == Ok(true) && LessThan(b, c) == Ok(true)
    ensures LessThan(a, c) == Ok(true)
  {
    var ra, rb, rc := ReleaseKey(a), ReleaseKey(b), ReleaseKey(c);
    if ra == rb && rb == rc {
      var pa, pb, pc := PreKeys(a.preRelease), PreKeys(b.preRelease), PreKeys(c.preRelease);
      if pa != pb && pb != pc {
        PreCompareTransitive(pa, pb, pc);
        if pa == pc {
          PreCompareAsymmetric(pb, pc);
        }
      } else if pa == pb && pb == pc {
        var la, lb, lc := LocalKeys(a.local), LocalKeys(b.local), LocalKeys(c.local);
        LocalCompareTransitive(la, lb, lc);
        if la == lc {
          LocalCompareAsymmetric(lb, lc);
        }
      }
    }
  }

  /** When `a < b` is false without raising, either the sort tuples agree or `b < a`. */
  lemma LessConnex(a: VersionValue, b: VersionValue)
    requires LessThan(a, b) == Ok(false)
    ensures SortKey(a) == SortKey(b) || LessThan(b, a) == Ok(true)
  {
    if ReleaseKey(a) == ReleaseKey(b) {
      var pa, pb := PreKeys(a.preRelease), PreKeys(b.preRelease);
      if pa != pb {
        PreCompareConnex(pa, pb);
      } else if LocalKeys(a.local) != LocalKeys(b.local) {
        LocalCompareConnex(LocalKeys(a.local), LocalKeys(b.local));
      }
    }
  }

  /** `==` holds exactly when the sort tuples agree. */
  lemma EqIffSameKeys(a: VersionValue, b: VersionValue)
    ensures Eq(a, b) == Ok(true) <==> SortKey(a) == SortKey(b)
  {
    if Eq(a, b) == Ok(true) {
      LessConnex(a, b);
    }
  }

  /** The local keys of valid versions line up kind by kind, so comparing them never raises `TypeError`. */
  lemma {:induction false} LocalCompareAligned(xs: seq<LocalKey>, ys: seq<LocalKey>, off: nat)
    requires forall i :: 0 <= i < |xs| ==> (xs[i].SepKey? <==> (i + off) % 2 == 1)
    requires forall i :: 0 <= i < |ys| ==> (ys[i].SepKey? <==> (i + off) % 2 == 1)
    ensures LocalCompare(xs, ys).Err? <==> xs == ys
    decreases |xs|
  {
    if |xs| > 0 && |ys| > 0 {
      if xs[0] == ys[0] {
        LocalCompareAligned(xs[1..], ys[1..], off + 1);
        if xs[1..] == ys[1..] {
          assert xs == [xs[0]] + xs[1..] && ys == [ys[0]] + ys[1..];
        }
      }
    }
  }

  lemma LocalKeysAligned(local: Option<seq<string>>)
    requires ValidLocal(local)
    ensures var r := LocalKeys(local); forall i :: 0 <= i < |r| ==> (r[i].SepKey? <==> (i + 0) % 2 == 1)
  {
    var r := LocalKeys(local);
    forall i | 0 <= i < |r|
      ensures r[i].SepKey? <==> (i + 0) % 2 == 1
    {
      if i % 2 == 0 {
        assert Alnum(local.value[i]);
        assert local.value[i][0] != '.' && local.value[i][0] != '-';
      }
    }
  }

  /**
   * On valid versions `<` raises only `NotImplementedError`, and exactly when
   * the releases agree and the pre-release keys differ but agree once padded
   * with `(1, '', 0)`, as for `1.0.0` against `1.0.0.0.0`.
   */
  lemma LessErr(a: VersionValue, b: VersionValue)
    requires ValidValue(a) && ValidValue(b)
    ensures LessThan(a, b).Err? <==>
      ReleaseKey(a) == ReleaseKey(b) && PreKeys(a.preRelease) != PreKeys(b.preRelease)
      && PadEqual(PreKeys(a.preRelease), PreKeys(b.preRelease))
    ensures LessThan(a, b).Err? ==> LessThan(a, b).error == NotImplementedError
  {
    var pa, pb := PreKeys(a.preRelease), PreKeys(b.preRelease);
    PreCompareErr(pa, pb);
    LocalKeysAligned(a.local);
    LocalKeysAligned(b.local);
    LocalCompareAligned(LocalKeys(a.local), LocalKeys(b.local), 0);
  }

  /** `1.0.0` against `1.0.0.0.0`: `<` raises. */
  lemma PaddedEqualRaises()
    ensures var a := VersionValue(1, Some(0), Some(0), None, None);
      var b := VersionValue(1, Some(0), Some(0), Some([Segment(Some('.'), None, Some(0)), Segment(Some('.'), None, Some(0))]), None);
      LessThan(a, b) == Err(NotImplementedError)
  {
    var b := VersionValue(1, Some(0), Some(0), Some([Segment(Some('.'), None, Some(0)), Segment(Some('.'), None, Some(0))]), None);
    assert PreKeys(b.preRelease) == [Pad, Pad];
    assert PreCompare([Pad], [Pad, Pad]) == PreCompare([], [Pad]);
  }

  /** A missing minor or patch counts as 0: `1` equals `1.0.0`. */
  lemma MissingReleaseIsZero(v: VersionValue)
    ensures Eq(v, v.(minor := Some(v.minor.GetOr(0)), patch := Some(v.patch.GetOr(0)))) == Ok(true)
  {
    EqIffSameKeys(v, v.(minor := Some(v.minor.GetOr(0)), patch := Some(v.patch.GetOr(0))));
  }

  /** A final release is greater than any pre-release of it whose first segment carries a label, such as `.dev3`. */
  lemma FinalBeatsLabelled(a: VersionValue, b: VersionValue)
    requires ReleaseKey(a) == ReleaseKey(b)
    requires a.preRelease.None? && b.preRelease.Some? && |b.preRelease.value| > 0
    requires b.preRelease.value[0].preType.Some?
    ensures LessThan(b, a) == Ok(true) && LessThan(a, b) == Ok(false)
  {
    var pb := PreKeys(b.preRelease);
    assert Head(pb).kind == 0 && Head([Pad]) == Pad;
    LessAsymmetric(b, a);
  }

  /** Versions that agree up to a longer local part: the shorter (or absent) local part is less. */
  lemma ShorterLocalIsLess(a: VersionValue, b: VersionValue, more: seq<string>)
    requires ReleaseKey(a) == ReleaseKey(b) && a.preRelease == b.preRelease
    requires |more| > 0
    requires b.local == Some(a.local.GetOr([]) + more)
    ensures LessThan(a, b) == Ok(true)
  {
    var la := LocalKeys(a.local);
    var lb := LocalKeys(b.local);
    var lm := LocalKeys(Some(more));
    assert lb == la + lm;
    LocalComparePrefix(la, lm);
  }

  // ----- letter case does not matter -----

  lemma LowerIdempotent(s: string)
    ensures LowerStr(LowerStr(s)) == LowerStr(s)
  {
  }

  lemma LowerKeepsSeparators(p: string)
    ensures (LowerStr(p) == "." || LowerStr(p) == "-") <==> (p == "." || p == "-")
  {
    if |p| == 1 {
      assert LowerStr(p) == [Lower(p[0])];
      assert p == [p[0]];
    }
  }

  function FoldSegment(s: Segment): Segment {
    s.(preType := if s.preType.None? then None else Some(LowerStr(s.preType.value)))
  }

  /** The same version with every label and local part lower-cased. */
  function Folded(v: VersionValue): VersionValue {
    v.(preRelease := if v.preRelease.None? then None else Some(seq(|v.preRelease.value|, i requires 0 <= i < |v.preRelease.value| => FoldSegment(v.preRelease.value[i]))),
       local := if v.local.None? then None else Some(seq(|v.local.value|, i requires 0 <= i < |v.local.value| => LowerStr(v.local.value[i]))))
  }

  /** Labels and local parts compare case-insensitively: a version equals its lower-cased form. */
  lemma CaseInsensitive(v: VersionValue)
    ensures Eq(v, Folded(v)) == Ok(true)
  {
    var w := Folded(v);
    if v.preRelease.Some? {
      forall i | 0 <= i < |v.preRelease.value|
        ensures SegmentKey(w.preRelease.value[i]) == SegmentKey(v.preRelease.value[i])
      {
        if v.preRelease.value[i].preType.Some? {
          LowerIdempotent(v.preRelease.value[i].preType.value);
        }
      }
    }
    if v.local.Some? {
      forall i | 0 <= i < |v.local.value|
        ensures LocalKeys(w.local)[i] == LocalKeys(v.local)[i]
      {
        var p := v.local.value[i];
        LowerIdempotent(p);
        LowerKeepsSeparators(p);
      }
    }
    EqIffSameKeys(v, w);
  }
}
