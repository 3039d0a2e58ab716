/**
 * The `Version` class of `version_query/version.py` as an object whose
 * methods update its fields in place: the three property setters,
 * `__init__` with named fields, `from_str`, `from_version`, `increment` and
 * `devel_increment`.
 *
 * The `_pre_release` field holds a list object that Python shares by
 * reference: the setter stores the caller's list, `from_version` hands the
 * same list to the copy, and `increment(DevPatch)` appends to it or replaces
 * its last element in place.
 */
module VersionObjects {
  import opened Wrappers
  import opened Versions
  import opened VersionParse
  import opened VersionOrder
  import opened VersionIncrement

  /** A Python list of pre-release segments. */
  class SegmentList {
    var items: seq<Segment>

    constructor (items: seq<Segment>)
      ensures this.items == items
    {
      this.items := items;
    }
  }

  /** The segments a list reference holds, if any. */
  function ListValue(pre: Option<SegmentList>): Option<seq<Segment>>
    reads if pre.Some? then {pre.value} else {}
  {
    if pre.Some? then Some(pre.value.items) else None
  }

  class Version {
    var major: int
    var minor: Option<int>
    var patch: Option<int>
    var preRelease: Option<SegmentList>
    var local: Option<seq<string>>

    function Repr(): set<object>
      reads this
    {
      if preRelease.Some? then {this, preRelease.value} else {this}
    }

    /** The fields as a value. */
    function Value(): VersionValue
      reads Repr()
    {
      VersionValue(major, minor, patch, ListValue(preRelease), local)
    }

    /** What the setters guarantee. */
    predicate Valid()
      reads Repr()
    {
      ValidValue(Value())
    }

    /** The blank object `__init__` starts from, before its setters run. */
    constructor Init()
      ensures major == 0 && minor.None? && patch.None? && preRelease.None? && local.None?
    {
      major := 0;
      minor := None;
      patch := None;
      preRelease := None;
      local := None;
    }

    /** The `release` setter. */
    method SetRelease(major: int, minor: Option<int>, patch: Option<int>) returns (err: Option<Error>)
      modifies this
      ensures err.None? <==> ValidRelease(major, minor, patch)
      ensures err.Some? ==> err == Some(ValueError) && unchanged(this)
      ensures err.None? ==> this.major == major && this.minor == minor && this.patch == patch
      ensures preRelease == old(preRelease) && local == old(local)
    {
      if major < 0 || (minor.Some? && minor.value < 0) || (patch.Some? && patch.value < 0) {
        return Some(ValueError);
      }
      if minor.None? && patch.Some? {
        return Some(ValueError);
      }
      this.major := major;
      this.minor := minor;
      this.patch := patch;
      err := None;
    }

    /** The `pre_release` setter: checks every segment, then keeps the given list object itself. */
    method SetPreRelease(pre: Option<SegmentList>) returns (err: Option<Error>)
      modifies this
      ensures err.None? <==> ValidPreRelease(ListValue(pre))
      ensures err.Some? ==> err == Some(ValueError) && unchanged(this)
      ensures err.None? ==> preRelease == pre
      ensures major == old(major) && minor == old(minor) && patch == old(patch) && local == old(local)
    {
      if pre.None? {
        preRelease := None;
        return None;
      }
      var segs := pre.value.items;
      if |segs| == 0 {
        return Some(ValueError);
      }
      var i := 0;
      while i < |segs|
        invariant 0 <= i <= |segs|
        invariant forall k :: 0 <= k < i ==> ValidSegment(segs[k])
      {
        var s := segs[i];
        if s.sep.Some? && !IsSep(s.sep.value) {
          return Some(ValueError);
        }
        if s.preType.Some? && !Letters(s.preType.value) {
          return Some(ValueError);
        }
        if s.prePatch.Some? && s.prePatch.value < 0 {
          return Some(ValueError);
        }
        if s.sep.None? && s.preType.None? && s.prePatch.Some? {
          return Some(ValueError);
        }
        if s.sep.Some? && s.preType.None? && s.prePatch.None? {
          return Some(ValueError);
        }
        i := i + 1;
      }
      preRelease := pre;
      err := None;
    }

    /** The `local` setter: an odd number of items, alphanumeric parts between `.`/`-` separators. */
    method SetLocal(local: Option<seq<string>>) returns (err: Option<Error>)
      modifies this
      ensures err.None? <==> ValidLocal(local)
      ensures err.Some? ==> err == Some(ValueError) && unchanged(this)
      ensures err.None? ==> this.local == local
      ensures major == old(major) && minor == old(minor) && patch == old(patch) && preRelease == old(preRelease)
    {
      if local.None? {
        this.local := None;
        return None;
      }
      var parts := local.value;
      if |parts| % 2 != 1 {
        return Some(ValueError);
      }
      var i := 0;
      while i < |parts|
        invariant 0 <= i <= |parts|
        invariant forall k :: 0 <= k < i ==>
          if k % 2 == 0 then Alnum(parts[k]) else parts[k] == "." || parts[k] == "-"
      {
        if i % 2 == 0 && !Alnum(parts[i]) {
          return Some(ValueError);
        }
        if i % 2 == 1 && parts[i] != "-" && parts[i] != "." {
          return Some(ValueError);
        }
        i := i + 1;
      }
      this.local := local;
      err := None;
    }

    /**
     * `Version(major, minor, patch, pre_release=..., local=...)`: the setters
     * run in that order and the first failing one raises.
     */
    static method New(major: int, minor: Option<int>, patch: Option<int>, pre: Option<SegmentList>, local: Option<seq<string>>)
      returns (r: Result<Version>)
      ensures r.Ok? <==> ValidValue(VersionValue(major, minor, patch, ListValue(pre), local))
      ensures r.Err? ==> r.error == ValueError
      ensures r.Ok? ==> fresh(r.value) && r.value.preRelease == pre && r.value.Valid()
      ensures r.Ok? ==> r.value.Value() == VersionValue(major, minor, patch, ListValue(pre), local)
    {
      var v := new Version.Init();
      var e := v.SetRelease(major, minor, patch);
      if e.Some? {
        return Err(e.value);
      }
      e := v.SetPreRelease(pre);
      if e.Some? {
        return Err(e.value);
      }
      e := v.SetLocal(local);
      if e.Some? {
        return Err(e.value);
      }
      r := Ok(v);
    }

    /** `from_str`: parse, collect the segments into a new list, construct. */
    static method FromStr(s: string) returns (r: Result<Version>)
      ensures r.Ok? <==> Parse(s).Ok?
      ensures r.Err? ==> r.error == ValueError
      ensures r.Ok? ==> fresh(r.value) && r.value.Valid() && r.value.Value() == Parse(s).value
    {
      var p := Parse(s);
      if p.Err? {
        return Err(ValueError);
      }
      var w := p.value;
      ParseValid(s);
      var pre: Option<SegmentList> := None;
      if w.preRelease.Some? {
        var tuples := ParsePreReleaseStr(ParseRelease(s).value.3);
        var list := new SegmentList(tuples);
        pre := Some(list);
      }
      r := New(w.major, w.minor, w.patch, pre, w.local);
    }

    /**
     * `from_version`, that is `from_dict(version.to_dict())`: a new object
     * whose `_pre_release` is the very list object of the original.
     */
    static method FromVersion(v: Version) returns (c: Version)
      requires v.Valid()
      ensures fresh(c) && c.Value() == v.Value() && c.preRelease == v.preRelease && c.Valid()
    {
      var r := New(v.major, v.minor, v.patch, v.preRelease, v.local);
      c := r.value;
    }

    /** `from_version` as evidently intended: the copy gets a list of its own. */
    static method FromVersionCopy(v: Version) returns (c: Version)
      requires v.Valid()
      ensures fresh(c) && c.Value() == v.Value() && c.Valid()
      ensures c.preRelease.Some? ==> fresh(c.preRelease.value)
    {
      var pre: Option<SegmentList> := None;
      if v.preRelease.Some? {
        var list := new SegmentList(v.preRelease.value.items);
        pre := Some(list);
      }
      var r := New(v.major, v.minor, v.patch, pre, v.local);
      c := r.value;
    }

    /**
     * `increment(component, amount)`: the fields become `IncrementValue` of
     * the old ones, or stay as they were when it raises. `DevPatch` changes
     * the existing list object in place.
     */
    method Increment(c: Component, n: int) returns (err: Option<Error>)
      modifies Repr()
      ensures var r := IncrementValue(old(Value()), c, n);
        && (r.Ok? ==> err.None? && Value() == r.value)
        && (r.Err? ==> err == Some(r.error) && Value() == old(Value()))
      ensures c == DevPatch && n >= 1 && old(preRelease).Some? ==> preRelease == old(preRelease)
      ensures preRelease.Some? ==> preRelease == old(preRelease) || fresh(preRelease.value)
      ensures old(Valid()) ==> Valid()
    {
      ghost var v0 := Value();
      if ValidValue(v0) && IncrementValue(v0, c, n).Ok? {
        IncrementValid(v0, c, n);
      }
      if n < 1 {
        return Some(ValueError);
      }
      if c == Major || c == Minor || c == Patch {
        if c == Major || c == Minor {
          if c == Major {
            major := major + n;
            if minor.Some? {
              minor := Some(0);
            }
          } else {
            if minor.None? {
              minor := Some(n);
            } else {
              minor := Some(minor.value + n);
            }
          }
          if patch.Some? {
            patch := Some(0);
          }
        } else {
          if minor.None? {
            minor := Some(0);
          }
          if patch.None? {
            patch := Some(n);
          } else {
            patch := Some(patch.value + n);
          }
        }
        preRelease := None;
        local := None;
      } else if c == PrePatch {
        if preRelease.Some? && |preRelease.value.items| == 0 {
          return Some(IndexError);
        }
        if preRelease.None? || LabelKey(preRelease.value.items[0]) != "" {
          var list := new SegmentList([Segment(Some('-'), None, Some(n))]);
          preRelease := Some(list);
        } else {
          var s := preRelease.value.items[0];
          if s.prePatch.None? {
            return Some(AssertionError);
          }
          var list := new SegmentList([Segment(s.sep, s.preType, Some(s.prePatch.value + n))]);
          err := SetPreRelease(Some(list));
          return;
        }
      } else if c == DevPatch {
        if preRelease.None? {
          var empty := new SegmentList([]);
          preRelease := Some(empty);
        }
        var list := preRelease.value;
        var items := list.items;
        if |items| == 0 || LabelKey(items[|items| - 1]) != "dev" {
          list.items := items + [Segment(Some('.'), Some("dev"), Some(n))];
        } else {
          var s := items[|items| - 1];
          var count := if s.prePatch.None? then n else s.prePatch.value + n;
          list.items := items[..|items| - 1] + [s.(prePatch := Some(count))];
        }
      } else {
        return Some(ValueError);
      }
      err := None;
    }

    /** `devel_increment(new_commits)`. */
    method DevelIncrement(n: int) returns (err: Option<Error>)
      modifies Repr()
      ensures (Value(), err) == VersionIncrement.DevelIncrement(old(Value()), n)
      ensures old(Valid()) ==> Valid()
    {
      if preRelease.Some? && |preRelease.value.items| == 0 {
        return Some(IndexError);
      }
      if !TrailingDev(ListValue(preRelease)) {
        var e := Increment(Patch, 1);
      }
      err := Increment(DevPatch, n);
    }
  }

  /**
   * What `from_version` shares: increasing the `dev` counter of a copy also
   * changes the version it was copied from.
   */
  method CopyThenDevIncrement(v: Version) returns (c: Version)
    requires v.Valid() && v.preRelease.Some?
    modifies v.preRelease.value
    ensures v.Value() != old(v.Value())
  {
    c := Version.FromVersion(v);
    ghost var before := c.Value();
    var e := c.Increment(DevPatch, 1);
    assert c.preRelease == v.preRelease;
    var items := old(v.preRelease.value.items);
    if |items| > 0 && LabelKey(items[|items| - 1]) == "dev" {
      assert c.preRelease.value.items[|items| - 1] != items[|items| - 1];
    } else {
      assert |c.preRelease.value.items| != |items|;
    }
  }

  /** With the corrected copy, increasing the `dev` counter of the copy leaves the original alone. */
  method CopyThenDevIncrementFixed(v: Version) returns (c: Version)
    requires v.Valid()
    ensures v.Value() == old(v.Value())
    ensures c.Value() == IncrementValue(v.Value(), DevPatch, 1).value
  {
    c := Version.FromVersionCopy(v);
    var e := c.Increment(DevPatch, 1);
  }
}
