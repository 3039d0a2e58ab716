/**
 * The data of `version_query/version.py`: the `VersionComponent` flags, one
 * pre-release segment, the value a `Version` object holds, and the
 * conditions its three property setters enforce.
 */
module Versions {
  import opened Wrappers
  import opened Decimal

  /** `VersionComponent`, an `IntEnum` of bit flags. */
  datatype Component = Major | Minor | Patch | Release | PrePatch | DevPatch | Local {
    function Flag(): int {
      match this
      case Major => 2
      case Minor => 4
      case Patch => 8
      case Release => 2 + 4 + 8
      case PrePatch => 16
      case DevPatch => 32
      case Local => 64
    }
  }

  predicate IsLetter(c: char) { 'a' <= c <= 'z' || 'A' <= c <= 'Z' }
  predicate IsAlnum(c: char) { IsLetter(c) || IsDigit(c) }
  predicate IsSep(c: char) { c == '.' || c == '-' }

  /** Full match of `_re_letters`. */
  predicate Letters(s: string) { |s| > 0 && forall i :: 0 <= i < |s| ==> IsLetter(s[i]) }
  /** Full match of `_re_alphanumeric`. */
  predicate Alnum(s: string) { |s| > 0 && forall i :: 0 <= i < |s| ==> IsAlnum(s[i]) }

  /** Python's `str.lower()` on the ASCII characters the grammar admits. */
  function Lower(c: char): char {
    if 'A' <= c <= 'Z' then (c as int - 'A' as int + 'a' as int) as char else c
  }
  function LowerStr(s: string): (r: string)
    ensures |r| == |s| && forall i :: 0 <= i < |s| ==> r[i] == Lower(s[i])
  {
    if |s| == 0 then [] else [Lower(s[0])] + LowerStr(s[1..])
  }

  /** A pre-release segment `(separator, label, counter)`, each part possibly `None`. */
  datatype Segment = Segment(sep: Option<char>, preType: Option<string>, prePatch: Option<int>)

  /** The fields `_major`, `_minor`, `_patch`, `_pre_release`, `_local` of a `Version`. */
  datatype VersionValue = VersionValue(
    major: int,
    minor: Option<int>,
    patch: Option<int>,
    preRelease: Option<seq<Segment>>,
    local: Option<seq<string>>)

  /** What the `release` setter accepts. */
  predicate ValidRelease(major: int, minor: Option<int>, patch: Option<int>) {
    && major >= 0
    && (minor.Some? ==> minor.value >= 0)
    && (patch.Some? ==> patch.value >= 0)
    && !(minor.None? && patch.Some?)
  }

  /** What the `pre_release` setter accepts for one segment. */
  predicate ValidSegment(s: Segment) {
    && (s.sep.Some? ==> IsSep(s.sep.value))
    && (s.preType.Some? ==> Letters(s.preType.value))
    && (s.prePatch.Some? ==> s.prePatch.value >= 0)
    && !(s.sep.None? && s.preType.None? && s.prePatch.Some?)
    && !(s.sep.Some? && s.preType.None? && s.prePatch.None?)
  }

  /** What the `pre_release` setter accepts: `None`, or a non-empty list of valid segments. */
  predicate ValidPreRelease(pre: Option<seq<Segment>>) {
    pre.Some? ==> |pre.value| > 0 && forall i :: 0 <= i < |pre.value| ==> ValidSegment(pre.value[i])
  }

  /**
   * What the `local` setter accepts: `None`, or an odd-length sequence that
   * alternates alphanumeric parts with `.`/`-` separators.
   */
  predicate ValidLocal(local: Option<seq<string>>) {
    local.Some? ==>
      && |local.value| % 2 == 1
      && forall i :: 0 <= i < |local.value| ==>
           if i % 2 == 0 then Alnum(local.value[i]) else local.value[i] == "." || local.value[i] == "-"
  }

  /**
   * The invariant every `Version` object keeps: the setters enforce it, and
   * `increment`, which writes the fields directly, preserves it (`IncrementValid`).
   */
  predicate ValidValue(v: VersionValue) {
    ValidRelease(v.major, v.minor, v.patch) && ValidPreRelease(v.preRelease) && ValidLocal(v.local)
  }
}
