/**
 * What `Version.increment` and `Version.devel_increment` do to the fields of
 * a version, as functions from the old field values to the new ones. The
 * methods of the `Version` class are proved to follow them.
 */
module VersionIncrement {
  import opened Wrappers
  import opened Versions
  import opened VersionOrder

  /** The lower-cased label of a segment, `''` when it has none: element `[1]` of its sort tuple. */
  function LabelKey(s: Segment): string { SegmentKey(s).name }

  /** `increment(component, amount)`: the new fields, or the exception, in which case nothing changed. */
  function IncrementValue(v: VersionValue, c: Component, n: int): Result<VersionValue> {
    if n < 1 then Err(ValueError)
    else
      match c
      case Major =>
        Ok(v.(major := v.major + n,
              minor := if v.minor.Some? then Some(0) else None,
              patch := if v.patch.Some? then Some(0) else None,
              preRelease := None, local := None))
      case Minor =>
        Ok(v.(minor := if v.minor.None? then Some(n) else Some(v.minor.value + n),
              patch := if v.patch.Some? then Some(0) else None,
              preRelease := None, local := None))
      case Patch =>
        Ok(v.(minor := if v.minor.None? then Some(0) else v.minor,
              patch := if v.patch.None? then Some(n) else Some(v.patch.value + n),
              preRelease := None, local := None))
      case PrePatch =>
        if v.preRelease.None? then Ok(v.(preRelease := Some([Segment(Some('-'), None, Some(n))])))
        else if |v.preRelease.value| == 0 then Err(IndexError)
        else if LabelKey(v.preRelease.value[0]) != "" then Ok(v.(preRelease := Some([Segment(Some('-'), None, Some(n))])))
        else
          var s := v.preRelease.value[0];
          if s.prePatch.None? then Err(AssertionError)
          else
            var np := [Segment(s.sep, s.preType, Some(s.prePatch.value + n))];
            if ValidPreRelease(Some(np)) then Ok(v.(preRelease := Some(np))) else Err(ValueError)
      case DevPatch =>
        var pre := v.preRelease.GetOr([]);
        if |pre| == 0 || LabelKey(pre[|pre| - 1]) != "dev" then
          Ok(v.(preRelease := Some(pre + [Segment(Some('.'), Some("dev"), Some(n))])))
        else
          var s := pre[|pre| - 1];
          var count := if s.prePatch.None? then n else s.prePatch.value + n;
          Ok(v.(preRelease := Some(pre[..|pre| - 1] + [s.(prePatch := Some(count))])))
      case _ => Err(ValueError)
  }

  /** The last pre-release segment is a `dev` segment, ignoring case. */
  predicate TrailingDev(pre: Option<seq<Segment>>) {
    pre.Some? && |pre.value| > 0 && LabelKey(pre.value[|pre.value| - 1]) == "dev"
  }

  /**
   * `devel_increment(new_commits)`: the final fields and the exception raised,
   * if any. Without a trailing `dev` segment the patch is raised by one first,
   * and that change stays even when the second step raises.
   */
  function DevelIncrement(v: VersionValue, n: int): (VersionValue, Option<Error>) {
    if v.preRelease.Some? && |v.preRelease.value| == 0 then (v, Some(IndexError))
    else
      var w := if TrailingDev(v.preRelease) then v else IncrementValue(v, Patch, 1).value;
      match IncrementValue(w, DevPatch, n)
      case Ok(x) => (x, None)
      case Err(e) => (w, Some(e))
  }

  // ----- errors -----

  /** The first segment is `(None, None, None)`, which the setter lets through. */
  predicate BlankFirst(pre: Option<seq<Segment>>) {
    pre.Some? && |pre.value| > 0 && pre.value[0] == Segment(None, None, None)
  }

  /**
   * On a valid version `increment` raises `ValueError` exactly for an amount
   * below 1 and for the components `Release` and `Local`, and raises
   * `AssertionError` for `PrePatch` when the first segment is blank.
   */
  lemma IncrementErrors(v: VersionValue, c: Component, n: int)
    requires ValidValue(v)
    ensures IncrementValue(v, c, n).Err? <==>
      n < 1 || c == Release || c == Local || (c == PrePatch && BlankFirst(v.preRelease))
    ensures IncrementValue(v, c, n).Err? ==>
      IncrementValue(v, c, n).error == (if n >= 1 && c == PrePatch then AssertionError else ValueError)
  {
    if n >= 1 && c == PrePatch && v.preRelease.Some? {
      var s := v.preRelease.value[0];
      assert ValidSegment(s);
      if LabelKey(s) == "" {
        assert s.preType.None? by {
          if s.preType.Some? {
            assert |LowerStr(s.preType.value)| > 0;
          }
        }
        if s.prePatch.Some? {
          var np := [Segment(s.sep, s.preType, Some(s.prePatch.value + n))];
          assert ValidSegment(np[0]);
        }
      }
    }
  }

  // ----- validity -----

  /** `increment` keeps every field within what the setters accept. */
  lemma IncrementValid(v: VersionValue, c: Component, n: int)
    requires ValidValue(v) && IncrementValue(v, c, n).Ok?
    ensures ValidValue(IncrementValue(v, c, n).value)
  {
    var r := IncrementValue(v, c, n).value;
    if c == DevPatch {
      var pre := v.preRelease.GetOr([]);
      assert forall i :: 0 <= i < |pre| ==> ValidSegment(pre[i]);
      var segs := r.preRelease.value;
      if |pre| == 0 || LabelKey(pre[|pre| - 1]) != "dev" {
        assert Letters("dev");
        assert forall i :: 0 <= i < |segs| ==> ValidSegment(segs[i]) by {
          forall i | 0 <= i < |segs| ensures ValidSegment(segs[i]) {
            if i < |pre| { assert segs[i] == pre[i]; }
          }
        }
      } else {
        assert forall i :: 0 <= i < |segs| ==> ValidSegment(segs[i]) by {
          forall i | 0 <= i < |segs| ensures ValidSegment(segs[i]) {
            if i < |pre| - 1 { assert segs[i] == pre[i]; }
          }
        }
      }
    }
  }

  // ----- ordering -----

  /**
   * `increment(Major|Minor|Patch, n)` raises the chosen release number by
   * `n` (an absent one counting as 0), zeroes the lower numbers that are
   * present, drops pre-release and local, and so yields a greater version.
   */
  lemma IncrementReleaseGreater(v: VersionValue, c: Component, n: int)
    requires c == Major || c == Minor || c == Patch
    requires n >= 1
    ensures IncrementValue(v, c, n).Ok?
    ensures var r := IncrementValue(v, c, n).value;
      && ReleaseKey(r) == (match c
           case Major => (v.major + n, 0, 0)
           case Minor => (v.major, v.minor.GetOr(0) + n, 0)
           case _ => (v.major, v.minor.GetOr(0), v.patch.GetOr(0) + n))
      && r.minor.Some? == (v.minor.Some? || c != Major)
      && r.patch.Some? == (v.patch.Some? || c == Patch)
      && r.preRelease.None? && r.local.None?
      && LessThan(v, r) == Ok(true)
  {
  }

  /** Comparing two keys that share a prefix comes down to their first elements after it. */
  lemma {:induction false} PreCompareCommonPrefix(p: seq<SegKey>, x: SegKey, y: SegKey)
    requires x != y
    ensures PreCompare(p + [x], p + [y]) == Ok(SegLess(x, y))
    decreases |p|
  {
    if |p| > 0 {
      assert Tail(p + [x]) == p[1..] + [x];
      assert Tail(p + [y]) == p[1..] + [y];
      PreCompareCommonPrefix(p[1..], x, y);
    } else {
      assert p + [x] == [x] && p + [y] == [y];
    }
  }

  /** A key compared with itself extended by one more element: that element decides against `(1, '', 0)`. */
  lemma {:induction false} PreCompareExtended(p: seq<SegKey>, x: SegKey)
    requires x != Pad
    ensures PreCompare(p + [x], p) == Ok(SegLess(x, Pad))
    decreases |p|
  {
    if |p| > 0 {
      assert Tail(p + [x]) == p[1..] + [x];
      PreCompareExtended(p[1..], x);
    } else {
      assert p + [x] == [x];
    }
  }

  lemma PreKeysAppend(segs: seq<Segment>, s: Segment)
    ensures PreKeys(Some(segs + [s])) == PreKeys(Some(segs)) + [SegmentKey(s)]
  {
  }

  /**
   * `increment(PrePatch, n)` leaves release and local alone and yields a
   * greater version: a first segment without a label keeps its separator and
   * adds `n` to its counter, anything else becomes `-N`; in both cases only
   * that one segment is left.
   */
  lemma PrePatchGreater(v: VersionValue, n: int)
    requires ValidValue(v) && n >= 1 && !BlankFirst(v.preRelease)
    ensures IncrementValue(v, PrePatch, n).Ok?
    ensures var r := IncrementValue(v, PrePatch, n).value;
      && r == v.(preRelease := r.preRelease)
      && ReleaseKey(r) == ReleaseKey(v) && r.local == v.local && LessThan(v, r) == Ok(true)
    ensures var r := IncrementValue(v, PrePatch, n).value;
      && (v.preRelease.None? || LabelKey(v.preRelease.value[0]) != "" ==>
            r.preRelease == Some([Segment(Some('-'), None, Some(n))]))
      && (v.preRelease.Some? && LabelKey(v.preRelease.value[0]) == "" ==>
            var s := v.preRelease.value[0];
            s.prePatch.Some? && r.preRelease == Some([s.(prePatch := Some(s.prePatch.value + n))]))
  {
    IncrementErrors(v, PrePatch, n);
    var r := IncrementValue(v, PrePatch, n).value;
    var pv, pr := PreKeys(v.preRelease), PreKeys(r.preRelease);
    assert Head(pv) != Head(pr) && SegLess(Head(pv), Head(pr)) by {
      if v.preRelease.Some? && LabelKey(v.preRelease.value[0]) == "" {
        assert Head(pv).counter < Head(pr).counter;
      }
    }
    assert pv != pr;
  }

  /**
   * `increment(DevPatch, n)` on a version whose last segment is `dev` adds
   * `n` to that counter (a missing counter counts as 0), keeps every other
   * field and segment, and yields a greater version.
   */
  lemma DevPatchCountsUp(v: VersionValue, n: int)
    requires TrailingDev(v.preRelease) && n >= 1
    ensures IncrementValue(v, DevPatch, n).Ok?
    ensures var pre := v.preRelease.value; var s := pre[|pre| - 1];
      IncrementValue(v, DevPatch, n).value
        == v.(preRelease := Some(pre[..|pre| - 1] + [s.(prePatch := Some(s.prePatch.GetOr(0) + n))]))
    ensures var r := IncrementValue(v, DevPatch, n).value;
      ReleaseKey(r) == ReleaseKey(v) && r.local == v.local && LessThan(v, r) == Ok(true)
  {
    var pre := v.preRelease.value;
    var init, s := pre[..|pre| - 1], pre[|pre| - 1];
    var u := v.(preRelease := Some(init + [s.(prePatch := Some(s.prePatch.GetOr(0) + n))]));
    assert IncrementValue(v, DevPatch, n) == Ok(u) by {
      assert v.preRelease.GetOr([]) == pre;
    }
    assert pre == init + [s];
    DevCounterGreater(v, init, s, n);
  }

  /** Raising the counter of the last pre-release segment makes a version greater. */
  lemma DevCounterGreater(v: VersionValue, init: seq<Segment>, s: Segment, n: int)
    requires v.preRelease == Some(init + [s]) && n >= 1
    ensures LessThan(v, v.(preRelease := Some(init + [s.(prePatch := Some(s.prePatch.GetOr(0) + n))]))) == Ok(true)
  {
    var t := s.(prePatch := Some(s.prePatch.GetOr(0) + n));
    var r := v.(preRelease := Some(init + [t]));
    var x, y := SegmentKey(s), SegmentKey(t);
    assert x != y && SegLess(x, y) by {
      assert x.kind == y.kind && x.name == y.name && x.counter < y.counter;
    }
    PreKeysAppend(init, s);
    PreKeysAppend(init, t);
    LastKeyDecides(v, r, PreKeys(Some(init)), x, y);
  }

  /** Versions with equal releases whose pre-release keys differ only in the last key compare by that key. */
  lemma LastKeyDecides(v: VersionValue, r: VersionValue, ki: seq<SegKey>, x: SegKey, y: SegKey)
    requires ReleaseKey(r) == ReleaseKey(v) && x != y
    requires PreKeys(v.preRelease) == ki + [x] && PreKeys(r.preRelease) == ki + [y]
    ensures LessThan(v, r) == Ok(SegLess(x, y))
  {
    PreCompareCommonPrefix(ki, x, y);
    assert (ki + [x])[|ki|] != (ki + [y])[|ki|];
  }

  /**
   * `increment(DevPatch, n)` without a trailing `dev` segment appends
   * `.devN` and keeps release and local part, which sorts below the version
   * it came from: `1.0.0.dev1 < 1.0.0`.
   */
  lemma DevPatchAppendsLess(v: VersionValue, n: int)
    requires !TrailingDev(v.preRelease) && n >= 1
    ensures IncrementValue(v, DevPatch, n).Ok?
    ensures var r := IncrementValue(v, DevPatch, n).value;
      && r == v.(preRelease := r.preRelease)
      && r.preRelease == Some(v.preRelease.GetOr([]) + [Segment(Some('.'), Some("dev"), Some(n))])
      && LessThan(r, v) == Ok(true)
  {
    var pre := v.preRelease.GetOr([]);
    var r := IncrementValue(v, DevPatch, n).value;
    var d := Segment(Some('.'), Some("dev"), Some(n));
    assert SegmentKey(d).kind == 0;
    PreKeysAppend(pre, d);
    if v.preRelease.None? {
      assert pre + [d] == [d];
      assert PreKeys(r.preRelease) == [SegmentKey(d)];
    } else {
      PreCompareExtended(PreKeys(v.preRelease), SegmentKey(d));
      assert |PreKeys(r.preRelease)| != |PreKeys(v.preRelease)|;
    }
  }

  /**
   * `devel_increment(n)` with `n >= 1` never raises on a valid version and
   * yields a valid, strictly greater version: without a trailing `dev`
   * segment it is the patch raised by one followed by `.devN`, otherwise the
   * `dev` counter raised by `n`.
   */
  lemma DevelIncrementGreater(v: VersionValue, n: int)
    requires ValidValue(v) && n >= 1
    ensures DevelIncrement(v, n).1.None?
    ensures ValidValue(DevelIncrement(v, n).0)
    ensures LessThan(v, DevelIncrement(v, n).0) == Ok(true)
    ensures !TrailingDev(v.preRelease) ==>
      var r := DevelIncrement(v, n).0;
      && ReleaseKey(r) == (v.major, v.minor.GetOr(0), v.patch.GetOr(0) + 1)
      && r.preRelease == Some([Segment(Some('.'), Some("dev"), Some(n))])
      && r.local.None?
    ensures TrailingDev(v.preRelease) ==>
      var pre := v.preRelease.value; var s := pre[|pre| - 1];
      DevelIncrement(v, n).0 == v.(preRelease := Some(pre[..|pre| - 1] + [s.(prePatch := Some(s.prePatch.GetOr(0) + n))]))
  {
    var r := DevelIncrement(v, n).0;
    if TrailingDev(v.preRelease) {
      DevPatchCountsUp(v, n);
      IncrementValid(v, DevPatch, n);
    } else {
      IncrementReleaseGreater(v, Patch, 1);
      var w := IncrementValue(v, Patch, 1).value;
      IncrementValid(v, Patch, 1);
      DevPatchAppendsLess(w, n);
      IncrementValid(w, DevPatch, n);
      assert [] + [Segment(Some('.'), Some("dev"), Some(n))] == [Segment(Some('.'), Some("dev"), Some(n))];
    }
  }

  /**
   * `devel_increment` counts cumulatively: `a` new commits and then `b` more
   * give the same version as `a + b` at once. An empty pre-release list
   * raises `IndexError` both ways.
   */
  lemma {:induction false} DevelIncrementCumulative(v: VersionValue, a: int, b: int)
    requires a >= 1 && b >= 1
    ensures DevelIncrement(DevelIncrement(v, a).0, b) == DevelIncrement(v, a + b)
  {
    if v.preRelease == Some([]) {
      return;
    }
    DevelSteps(v, a);
    DevelSteps(v, a + b);
    DevelSteps(DevelIncrement(v, a).0, b);
  }

  /** The two cases of `devel_increment(n)` for `n >= 1`, without the ordering. */
  lemma DevelSteps(v: VersionValue, n: int)
    requires n >= 1 && (v.preRelease.Some? ==> |v.preRelease.value| > 0)
    ensures DevelIncrement(v, n).1.None?
    ensures TrailingDev(v.preRelease) ==>
      var pre := v.preRelease.value; var s := pre[|pre| - 1];
      DevelIncrement(v, n).0 == v.(preRelease := Some(pre[..|pre| - 1] + [s.(prePatch := Some(s.prePatch.GetOr(0) + n))]))
    ensures !TrailingDev(v.preRelease) ==>
      DevelIncrement(v, n).0 == IncrementValue(v, Patch, 1).value.(preRelease := Some([Segment(Some('.'), Some("dev"), Some(n))]))
  {
    if !TrailingDev(v.preRelease) {
      assert [] + [Segment(Some('.'), Some("dev"), Some(n))] == [Segment(Some('.'), Some("dev"), Some(n))];
    }
  }

  /**
   * `devel_increment(n)` with `n < 1` raises `ValueError`, but only after
   * raising the patch when there was no trailing `dev` segment.
   */
  lemma DevelIncrementPartial(v: VersionValue, n: int)
    requires ValidValue(v) && n < 1
    ensures DevelIncrement(v, n).1 == Some(ValueError)
    ensures TrailingDev(v.preRelease) ==> DevelIncrement(v, n).0 == v
    ensures !TrailingDev(v.preRelease) ==>
      DevelIncrement(v, n).0 == IncrementValue(v, Patch, 1).value && LessThan(v, DevelIncrement(v, n).0) == Ok(true)
  {
    if !TrailingDev(v.preRelease) {
      IncrementReleaseGreater(v, Patch, 1);
    }
  }
}
