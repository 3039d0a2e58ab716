/**
 * `Version.to_str` with `release_to_str`, `_pre_release_segment_to_str`,
 * `pre_release_to_str` and `local_to_str`, and the two round trips between
 * rendering and `from_str`.
 */
module VersionRender {
  import opened Wrappers
  import opened Decimal
  import opened Versions
  import opened VersionParse

  /** Python's `str(i)`. */
  function IntToStr(i: int): string {
    if i < 0 then "-" + NatToStr(-i) else NatToStr(i)
  }

  /** `release_to_str`: only the presence patterns major, major.minor and major.minor.patch render. */
  function ReleaseToStr(major: int, minor: Option<int>, patch: Option<int>): Result<string> {
    match (minor, patch)
    case (None, None) => Ok(IntToStr(major))
    case (Some(mi), None) => Ok(IntToStr(major) + "." + IntToStr(mi))
    case (Some(mi), Some(pa)) => Ok(IntToStr(major) + "." + IntToStr(mi) + "." + IntToStr(pa))
    case (None, Some(_)) => Err(ValueError)
  }

  /** `_pre_release_segment_to_str`: a segment without a separator cannot be rendered. */
  function SegmentToStr(seg: Segment): Result<string> {
    match seg
    case Segment(Some(c), Some(t), None) => Ok([c] + t)
    case Segment(Some(c), None, Some(n)) => Ok([c] + IntToStr(n))
    case Segment(Some(c), Some(t), Some(n)) => Ok([c] + t + IntToStr(n))
    case _ => Err(ValueError)
  }

  /** The segments rendered one after another; the first that cannot be rendered raises. */
  function SegmentsToStr(segs: seq<Segment>): Result<string> {
    if |segs| == 0 then Ok("")
    else
      match SegmentToStr(segs[0])
      case Err(e) => Err(e)
      case Ok(x) =>
        match SegmentsToStr(segs[1..])
        case Err(e) => Err(e)
        case Ok(y) => Ok(x + y)
  }

  function PreReleaseToStr(pre: Option<seq<Segment>>): Result<string> {
    if pre.None? then Ok("") else SegmentsToStr(pre.value)
  }

  /** `''.join(parts)`. */
  function Join(parts: seq<string>): string {
    if |parts| == 0 then "" else parts[0] + Join(parts[1..])
  }

  function LocalToStr(local: Option<seq<string>>): string {
    if local.None? || |local.value| == 0 then "" else "+" + Join(local.value)
  }

  /** `to_str`: release, then the pre-release segments, then `+` and the local parts. */
  function ToStr(v: VersionValue): Result<string> {
    match ReleaseToStr(v.major, v.minor, v.patch)
    case Err(e) => Err(e)
    case Ok(r) =>
      match PreReleaseToStr(v.preRelease)
      case Err(e) => Err(e)
      case Ok(p) => Ok(r + p + LocalToStr(v.local))
  }

  predicate AllSeparated(pre: Option<seq<Segment>>) {
    pre.Some? ==> forall i :: 0 <= i < |pre.value| ==> pre.value[i].sep.Some?
  }

  // ----- when rendering succeeds -----

  lemma {:induction false} SegmentsToStrOk(segs: seq<Segment>)
    requires forall i :: 0 <= i < |segs| ==> ValidSegment(segs[i])
    ensures SegmentsToStr(segs).Ok? <==> forall i :: 0 <= i < |segs| ==> segs[i].sep.Some?
  {
    if |segs| > 0 {
      SegmentsToStrOk(segs[1..]);
      assert forall i :: 1 <= i < |segs| ==> segs[i] == segs[1..][i - 1];
    }
  }

  /**
   * A valid version renders exactly when every pre-release segment carries
   * a separator: `1.0.0rc3` parses but cannot be rendered.
   */
  lemma ToStrOkIff(v: VersionValue)
    requires ValidValue(v)
    ensures ToStr(v).Ok? <==> AllSeparated(v.preRelease)
  {
    if v.preRelease.Some? {
      SegmentsToStrOk(v.preRelease.value);
    }
  }

  // ----- parse, then render -----

  lemma JoinDot(a: string, b: string, rest: string, r: string)
    requires r == "." + (b + rest)
    ensures a + r == a + "." + b + rest
  {
  }

  lemma ReleaseSplits(s: string)
    requires ParseRelease(s).Some?
    ensures var (major, minor, patch, rest) := ParseRelease(s).value;
      ReleaseToStr(major, minor, patch).Ok? && s == ReleaseToStr(major, minor, patch).value + rest
  {
    var (major, r1) := ParseNumber(s).value;
    ParseNumberSplits(s);
    var a := NatToStr(major);
    if !DotDigit(r1) {
      assert ParseRelease(s) == Some((major, None, None, r1));
      assert ReleaseToStr(major, None, None) == Ok(a);
      return;
    }
    var (minor, r2) := ParseNumber(r1[1..]).value;
    ParseNumberSplits(r1[1..]);
    var b := NatToStr(minor);
    SplitHead(r1);
    JoinDot(a, b, r2, r1);
    if !DotDigit(r2) {
      assert ParseRelease(s) == Some((major, Some(minor), None, r2));
      assert ReleaseToStr(major, Some(minor), None) == Ok(a + "." + b);
      return;
    }
    var (patch, r3) := ParseNumber(r2[1..]).value;
    ParseNumberSplits(r2[1..]);
    var c := NatToStr(patch);
    SplitHead(r2);
    JoinDot(a + "." + b, c, r3, r2);
    assert ParseRelease(s) == Some((major, Some(minor), Some(patch), r3));
    assert ReleaseToStr(major, Some(minor), Some(patch)) == Ok(a + "." + b + "." + c);
  }

  lemma Assoc(x: string, y: string, z: string)
    ensures x + (y + z) == x + y + z
  {
  }

  lemma SplitAt(t: string, k: nat)
    requires k <= |t|
    ensures t == t[..k] + t[k..]
  {
  }

  lemma ItemSplits(s: string)
    requires ParseItem(s).Some? && ParseItem(s).value.0.sep.Some?
    ensures var (seg, rest) := ParseItem(s).value;
      SegmentToStr(seg).Ok? && s == SegmentToStr(seg).value + rest
  {
    SplitHead(s);
    var c := s[0];
    if |s| >= 2 && IsSep(s[0]) && IsDigit(s[1]) {
      ParseNumberSplits(s[1..]);
      var (n, rest) := ParseNumber(s[1..]).value;
      Assoc([c], NatToStr(n), rest);
      assert SegmentToStr(ParseItem(s).value.0) == Ok([c] + NatToStr(n));
    } else {
      var t := s[1..];
      var k := Run(t, IsLetter);
      var preType := t[..k];
      SplitAt(t, k);
      Assoc([c], preType, t[k..]);
      if ParseNumber(t[k..]).Some? {
        ParseNumberSplits(t[k..]);
        var (n, rest) := ParseNumber(t[k..]).value;
        Assoc([c] + preType, NatToStr(n), rest);
        assert SegmentToStr(ParseItem(s).value.0) == Ok([c] + preType + NatToStr(n));
      } else {
        assert SegmentToStr(ParseItem(s).value.0) == Ok([c] + preType);
      }
    }
  }

  lemma {:induction false} PreItemsSplit(s: string)
    requires forall i :: 0 <= i < |PreItems(s).0| ==> PreItems(s).0[i].sep.Some?
    ensures var (segs, left) := PreItems(s);
      SegmentsToStr(segs).Ok? && s == SegmentsToStr(segs).value + left
    decreases |s|
  {
    match ParseItem(s)
    case None =>
    case Some((seg, rest)) =>
      var (tail, left) := PreItems(rest);
      var segs := PreItems(s).0;
      assert PreItems(s) == ([seg] + tail, left);
      assert segs[0] == seg && segs[1..] == tail;
      assert forall i :: 0 <= i < |tail| ==> tail[i] == segs[i + 1];
      ItemSplits(s);
      PreItemsSplit(rest);
      var x := SegmentToStr(seg).value;
      var y := SegmentsToStr(tail).value;
      assert SegmentsToStr(segs) == Ok(x + y);
      Assoc(x, y, left);
  }

  lemma {:induction false} LocalTokensSplit(s: string)
    requires LocalTokens(s).Some?
    ensures Join(LocalTokens(s).value) == s
    decreases |s|
  {
    var k := Run(s, IsAlnum);
    if k < |s| {
      LocalTokensSplit(s[k + 1..]);
      var more := LocalTokens(s[k + 1..]).value;
      var t := [s[..k], [s[k]]] + more;
      assert t[1..][1..] == more;
      assert s == s[..k] + [s[k]] + s[k + 1..];
    }
  }

  /**
   * Rendering what `from_str` read, with every local part kept, gives the
   * original string back whenever each pre-release segment has a separator.
   */
  lemma ParseFullThenRender(s: string)
    requires ParseFull(s).Ok? && AllSeparated(ParseFull(s).value.preRelease)
    ensures ToStr(ParseFull(s).value) == Ok(s)
  {
    var w := ParseFull(s).value;
    ReleaseSplits(s);
    var (major, minor, patch, r1) := ParseRelease(s).value;
    var r := ReleaseToStr(major, minor, patch).value;
    var (segs, r2) := PreItems(r1);
    PreItemsSplit(r1);
    var p := SegmentsToStr(segs).value;
    assert PreReleaseToStr(w.preRelease) == Ok(p);
    Assoc(r, p, r2);
    if r2 != [] {
      var t := LocalTokens(r2[1..]).value;
      LocalTokensSplit(r2[1..]);
      SplitHead(r2);
      assert w.local == Some(t) && |t| > 0;
      assert LocalToStr(w.local) == r2;
    } else {
      assert LocalToStr(w.local) == r2;
    }
  }

  /** A local part of at most three tokens comes through the regex groups whole. */
  lemma LocalGroupsKeepsShort(t: seq<string>)
    requires 0 < |t| <= 3 && |t| % 2 == 1
    ensures LocalGroups(t) == t
  {
    if |t| == 3 {
      assert LocalGroups(t) == [t[0], t[1], t[2]];
    }
  }

  /**
   * `to_str(from_str(s)) == s` when every pre-release segment has a
   * separator and the local part has at most two alphanumeric parts.
   */
  lemma ParseThenRender(s: string)
    requires ParseFull(s).Ok?
    requires AllSeparated(ParseFull(s).value.preRelease)
    requires ParseFull(s).value.local.Some? ==> |ParseFull(s).value.local.value| <= 3
    ensures Parse(s).Ok? && ToStr(Parse(s).value) == Ok(s)
  {
    ParseFullThenRender(s);
    ParseFullValid(s);
    var w := ParseFull(s).value;
    if w.local.Some? && |w.local.value| > 0 {
      LocalGroupsKeepsShort(w.local.value);
      assert w.(local := Some(LocalGroups(w.local.value))) == w;
    }
    assert Parse(s) == Ok(w);
  }

  lemma {:induction false} JoinAppend(a: seq<string>, b: seq<string>)
    ensures Join(a + b) == Join(a) + Join(b)
    decreases |a|
  {
    if |a| > 0 {
      assert (a + b)[1..] == a[1..] + b;
      JoinAppend(a[1..], b);
    } else {
      assert a + b == b;
    }
  }

  lemma JoinLonger(t: seq<string>)
    requires ValidLocal(Some(t)) && |t| > 3
    ensures |Join(LocalGroups(t))| < |Join(t)|
  {
    var n := |t|;
    var mid := t[1..n - 2];
    var tail := [t[n - 2], t[n - 1]];
    assert t == [t[0]] + mid + tail;
    JoinAppend([t[0]] + mid, tail);
    JoinAppend([t[0]], mid);
    assert Join([t[0]]) == t[0] by { assert [t[0]][1..] == []; }
    assert |Join(mid)| >= 1 by {
      assert mid[0] == t[1];
      assert |t[1]| == 1 by { assert 1 % 2 == 1; }
    }
    assert Join(tail) == t[n - 2] + t[n - 1] by {
      assert tail[1..][1..] == [];
    }
    var g := [t[0], t[n - 2], t[n - 1]];
    assert LocalGroups(t) == g;
    assert Join(g) == t[0] + (t[n - 2] + t[n - 1]) by {
      assert g[1..] == tail;
    }
  }

  /**
   * With more than two local parts the middle ones are lost: `1+a.b-c`
   * reads back as the local `a-c`, so rendering no longer gives the string.
   */
  lemma LocalGroupsLoses(s: string)
    requires ParseFull(s).Ok? && AllSeparated(ParseFull(s).value.preRelease)
    requires ParseFull(s).value.local.Some? && |ParseFull(s).value.local.value| > 3
    ensures Parse(s).Ok? && ToStr(Parse(s).value).Ok? && ToStr(Parse(s).value) != Ok(s)
  {
    ParseFullThenRender(s);
    ParseFullValid(s);
    var w := ParseFull(s).value;
    var t := w.local.value;
    JoinLonger(t);
    var r := ReleaseToStr(w.major, w.minor, w.patch).value;
    var p := PreReleaseToStr(w.preRelease).value;
    assert s == r + p + ("+" + Join(t));
    assert ToStr(Parse(s).value) == Ok(r + p + ("+" + Join(LocalGroups(t))));
  }

  /** Every segment list that fails to render fails with `ValueError`. */
  lemma {:induction false} SegmentsToStrError(segs: seq<Segment>)
    requires SegmentsToStr(segs).Err?
    ensures SegmentsToStr(segs).error == ValueError
  {
    if SegmentToStr(segs[0]).Ok? {
      SegmentsToStrError(segs[1..]);
    }
  }

  /**
   * A pre-release segment without a separator, as in `1.0.0rc3`, is read by
   * `from_str` but `to_str` raises `ValueError` on it.
   */
  lemma NoSeparatorFails(s: string)
    requires Parse(s).Ok? && !AllSeparated(Parse(s).value.preRelease)
    ensures ToStr(Parse(s).value) == Err(ValueError)
  {
    var v := Parse(s).value;
    ParseValid(s);
    ToStrOkIff(v);
    SegmentsToStrError(v.preRelease.value);
  }

  lemma ReleaseOfNoSeparator()
    ensures ParseRelease("1.0.0rc3") == Some((1, Some(0), Some(0), "rc3"))
  {
    ReleaseOfRenderedPatch(1, 0, 0, "rc3");
    assert NatToStr(1) == "1" && NatToStr(0) == "0";
    assert "1" + "." + "0" + "." + "0" + "rc3" == "1.0.0rc3";
  }

  lemma ItemsOfNoSeparator()
    ensures PreItems("rc3") == ([Segment(None, Some("rc"), Some(3))], [])
  {
    var t := "rc3";
    assert Run(t[2..], IsLetter) == 0;
    assert Run(t[1..], IsLetter) == 1;
    assert Run(t, IsLetter) == 2;
    assert t[..2] == "rc" && t[2..] == "3";
    ParseNumberOfNatToStr(3, "");
    assert NatToStr(3) == "3";
    assert NatToStr(3) + "" == "3";
    assert ParseNumber("3") == Some((3, ""));
    assert ParseItem(t) == Some((Segment(None, Some("rc"), Some(3)), ""));
    assert ParseItem("") == None;
    assert PreItems("") == ([], "");
    var seg := Segment(None, Some("rc"), Some(3));
    assert [seg] + [] == [seg];
    assert PreItems(t) == ([seg] + PreItems("").0, PreItems("").1);
  }

  /** `1.0.0rc3` is an instance: it parses, and its rendering raises. */
  lemma NoSeparatorExample()
    ensures Parse("1.0.0rc3") == Ok(VersionValue(1, Some(0), Some(0), Some([Segment(None, Some("rc"), Some(3))]), None))
    ensures ToStr(Parse("1.0.0rc3").value) == Err(ValueError)
  {
    ReleaseOfNoSeparator();
    ItemsOfNoSeparator();
    var v := VersionValue(1, Some(0), Some(0), Some([Segment(None, Some("rc"), Some(3))]), None);
    assert ParseFull("1.0.0rc3") == Ok(v);
    assert Parse("1.0.0rc3") == Ok(v);
    assert !AllSeparated(v.preRelease) by { assert v.preRelease.value[0].sep.None?; }
    NoSeparatorFails("1.0.0rc3");
  }

  // ----- render, then parse -----

  /**
   * The versions whose rendering reads back as themselves: valid, every
   * segment separated, at most one local separator, and no numeric-only
   * `.N` first segment that the release would absorb.
   */
  predicate CanonicalForm(v: VersionValue) {
    && ValidValue(v)
    && AllSeparated(v.preRelease)
    && (v.local.Some? ==> |v.local.value| <= 3)
    && (v.patch.None? && v.preRelease.Some? ==>
          !(v.preRelease.value[0].sep == Some('.') && v.preRelease.value[0].preType.None?))
  }

  lemma {:induction false} RunOfConcat(a: string, b: string, p: char -> bool)
    requires forall i :: 0 <= i < |a| ==> p(a[i])
    requires |b| > 0 ==> !p(b[0])
    ensures Run(a + b, p) == |a|
  {
    if |a| > 0 {
      assert (a + b)[1..] == a[1..] + b;
      RunOfConcat(a[1..], b, p);
    }
  }

  /** What may follow a rendered segment: nothing, a separator or the local part. */
  predicate Boundary(rest: string) {
    |rest| > 0 ==> IsSep(rest[0]) || rest[0] == '+'
  }

  lemma ParseItemOfRendered(seg: Segment, rest: string)
    requires ValidSegment(seg) && seg.sep.Some? && Boundary(rest)
    ensures SegmentToStr(seg).Ok? && ParseItem(SegmentToStr(seg).value + rest) == Some((seg, rest))
  {
    var c := seg.sep.value;
    var s := SegmentToStr(seg).value + rest;
    match seg
    case Segment(_, None, Some(n)) =>
      NatToStrCanonical(n);
      assert s == [c] + (NatToStr(n) + rest);
      ParseNumberOfNatToStr(n, rest);
    case Segment(_, Some(t), None) =>
      assert s[1..] == t + rest;
      RunOfConcat(t, rest, IsLetter);
      assert (t + rest)[|t|..] == rest;
      assert (t + rest)[..|t|] == t;
    case Segment(_, Some(t), Some(n)) =>
      NatToStrCanonical(n);
      assert s[1..] == t + (NatToStr(n) + rest);
      RunOfConcat(t, NatToStr(n) + rest, IsLetter);
      assert (t + (NatToStr(n) + rest))[|t|..] == NatToStr(n) + rest;
      assert (t + (NatToStr(n) + rest))[..|t|] == t;
      ParseNumberOfNatToStr(n, rest);
  }

  lemma {:induction false} PreItemsOfRendered(segs: seq<Segment>, rest: string)
    requires forall i :: 0 <= i < |segs| ==> ValidSegment(segs[i]) && segs[i].sep.Some?
    requires |rest| > 0 ==> rest[0] == '+'
    ensures SegmentsToStr(segs).Ok? && PreItems(SegmentsToStr(segs).value + rest) == (segs, rest)
  {
    if |segs| == 0 {
      assert "" + rest == rest;
      assert ParseItem(rest) == None;
    } else {
      var tail := segs[1..];
      PreItemsOfRendered(tail, rest);
      var x := SegmentsToStr(tail).value;
      assert Boundary(x + rest) by {
        if |tail| > 0 {
          SegmentsStartWithSep(tail);
        }
      }
      ParseItemOfRendered(segs[0], x + rest);
      assert SegmentToStr(segs[0]).value + x + rest == SegmentToStr(segs[0]).value + (x + rest);
      assert [segs[0]] + tail == segs;
    }
  }

  lemma SegmentsStartWithSep(segs: seq<Segment>)
    requires |segs| > 0 && SegmentsToStr(segs).Ok?
    ensures segs[0].sep.Some?
    ensures |SegmentsToStr(segs).value| > 0 && SegmentsToStr(segs).value[0] == segs[0].sep.value
    ensures SegmentToStr(segs[0]).Ok?
    ensures SegmentsToStr(segs).value[..|SegmentToStr(segs[0]).value|] == SegmentToStr(segs[0]).value
  {
  }

  lemma DropSep(a: string, c: char, b: string)
    ensures var s := a + ([c] + b); s[|a|] == c && s[|a| + 1..] == b && s[..|a|] == a
  {
  }

  lemma LocalTokensSingle(a: string)
    requires Alnum(a)
    ensures LocalTokens(a) == Some([a])
  {
    RunOfConcat(a, "", IsAlnum);
    assert a + "" == a;
  }

  lemma LocalTokensCons(a: string, c: char, b: string, more: seq<string>)
    requires Alnum(a) && IsSep(c) && LocalTokens(b) == Some(more)
    ensures LocalTokens(a + ([c] + b)) == Some([a, [c]] + more)
  {
    var s := a + ([c] + b);
    RunOfConcat(a, [c] + b, IsAlnum);
    DropSep(a, c, b);
  }

  lemma {:induction false} LocalTokensOfJoin(t: seq<string>)
    requires ValidLocal(Some(t))
    ensures LocalTokens(Join(t)) == Some(t)
    decreases |t|
  {
    assert Alnum(t[0]);
    if |t| == 1 {
      assert t[1..] == [];
      assert Join(t[1..]) == "";
      assert Join(t) == t[0];
      LocalTokensSingle(t[0]);
      assert t == [t[0]];
    } else {
      var more := t[2..];
      var c := LocalSplit(t);
      LocalTokensOfJoin(more);
      assert Join(t) == t[0] + ([c] + Join(more)) by {
        assert t[1..][1..] == more;
      }
      LocalTokensCons(t[0], c, Join(more), more);
    }
  }

  /** A valid local part of three or more tokens is a part, a one-character separator and a valid rest. */
  lemma LocalSplit(t: seq<string>) returns (c: char)
    requires ValidLocal(Some(t)) && |t| > 1
    ensures Alnum(t[0]) && IsSep(c) && t[1] == [c] && ValidLocal(Some(t[2..]))
    ensures t == [t[0], [c]] + t[2..]
  {
    var more := t[2..];
    assert ValidLocal(Some(more)) by {
      forall i | 0 <= i < |more|
        ensures if i % 2 == 0 then Alnum(more[i]) else more[i] == "." || more[i] == "-"
      {
        assert more[i] == t[i + 2];
      }
    }
    assert Alnum(t[0]);
    assert t[1] == "." || t[1] == "-" by { assert 1 % 2 == 1; }
    c := t[1][0];
    assert t[1] == [c];
  }

  /** Reading one number back after a rendered `.`: the dot-digit test holds and the number returns. */
  lemma DotNumberOfRendered(n: nat, rest: string)
    requires |rest| > 0 ==> !IsDigit(rest[0])
    ensures DotDigit("." + (NatToStr(n) + rest))
    ensures ParseNumber(("." + (NatToStr(n) + rest))[1..]) == Some((n, rest))
  {
    NatToStrCanonical(n);
    assert ("." + (NatToStr(n) + rest))[1..] == NatToStr(n) + rest;
    ParseNumberOfNatToStr(n, rest);
  }

  lemma ReleaseOfRenderedMajor(major: nat, rest: string)
    requires |rest| > 0 ==> !IsDigit(rest[0])
    requires !DotDigit(rest)
    ensures ParseRelease(NatToStr(major) + rest) == Some((major as int, None, None, rest))
  {
    ParseNumberOfNatToStr(major, rest);
  }

  lemma ReleaseOfRenderedMinor(major: nat, minor: nat, rest: string)
    requires |rest| > 0 ==> !IsDigit(rest[0])
    requires !DotDigit(rest)
    ensures ParseRelease(NatToStr(major) + "." + NatToStr(minor) + rest)
         == Some((major as int, Some(minor as int), None, rest))
  {
    var r1 := "." + (NatToStr(minor) + rest);
    JoinDot(NatToStr(major), NatToStr(minor), rest, r1);
    ParseNumberOfNatToStr(major, r1);
    DotNumberOfRendered(minor, rest);
  }

  lemma ReleaseOfRenderedPatch(major: nat, minor: nat, patch: nat, rest: string)
    requires |rest| > 0 ==> !IsDigit(rest[0])
    ensures ParseRelease(NatToStr(major) + "." + NatToStr(minor) + "." + NatToStr(patch) + rest)
         == Some((major as int, Some(minor as int), Some(patch as int), rest))
  {
    var r2 := "." + (NatToStr(patch) + rest);
    var r1 := "." + (NatToStr(minor) + r2);
    JoinDot(NatToStr(major), NatToStr(minor), r2, r1);
    JoinDot(NatToStr(major) + "." + NatToStr(minor), NatToStr(patch), rest, r2);
    assert NatToStr(major) + r1 == NatToStr(major) + "." + NatToStr(minor) + "." + NatToStr(patch) + rest;
    ParseNumberOfNatToStr(major, r1);
    DotNumberOfRendered(minor, r2);
    DotNumberOfRendered(patch, rest);
  }

  lemma ParseReleaseOfRendered(v: VersionValue, rest: string)
    requires ValidRelease(v.major, v.minor, v.patch)
    requires |rest| > 0 ==> IsSep(rest[0]) || rest[0] == '+'
    requires v.patch.None? ==> !DotDigit(rest)
    ensures ReleaseToStr(v.major, v.minor, v.patch).Ok?
    ensures ParseRelease(ReleaseToStr(v.major, v.minor, v.patch).value + rest) == Some((v.major, v.minor, v.patch, rest))
  {
    match (v.minor, v.patch)
    case (None, None) =>
      ReleaseOfRenderedMajor(v.major, rest);
    case (Some(mi), None) =>
      ReleaseOfRenderedMinor(v.major, mi, rest);
    case (Some(mi), Some(pa)) =>
      ReleaseOfRenderedPatch(v.major, mi, pa, rest);
  }

  /** What follows the rendered release can neither extend its last number nor add a `.N` to it. */
  lemma RenderedRestBoundary(v: VersionValue)
    requires CanonicalForm(v)
    ensures var segs := if v.preRelease.Some? then v.preRelease.value else [];
      SegmentsToStr(segs).Ok? &&
      var rest := SegmentsToStr(segs).value + LocalToStr(v.local);
      (|rest| > 0 ==> IsSep(rest[0]) || rest[0] == '+') && (v.patch.None? ==> !DotDigit(rest))
  {
    var segs := if v.preRelease.Some? then v.preRelease.value else [];
    SegmentsToStrOk(segs);
    var p := SegmentsToStr(segs).value;
    var l := LocalToStr(v.local);
    if |segs| > 0 {
      SegmentsStartWithSep(segs);
      var x := SegmentToStr(segs[0]).value;
      assert (p + l)[0] == p[0];
      if v.patch.None? && p[0] == '.' {
        assert segs[0].preType.Some?;
        assert |x| >= 2 && IsLetter(x[1]);
        assert (p + l)[1] == p[1] == x[1];
      }
    }
  }

  /** Reading back a rendered version keeps every local part. */
  lemma ParseFullOfRendered(v: VersionValue)
    requires CanonicalForm(v)
    ensures ToStr(v).Ok? && ParseFull(ToStr(v).value) == Ok(v)
  {
    var segs := if v.preRelease.Some? then v.preRelease.value else [];
    var l := LocalToStr(v.local);
    RenderedRestBoundary(v);
    var p := SegmentsToStr(segs).value;
    PreItemsOfRendered(segs, l);
    ParseReleaseOfRendered(v, p + l);
    var r := ReleaseToStr(v.major, v.minor, v.patch).value;
    assert PreReleaseToStr(v.preRelease) == Ok(p);
    Assoc(r, p, l);
    assert ToStr(v) == Ok(r + (p + l));
    assert (if segs == [] then None else Some(segs)) == v.preRelease;
    if v.local.Some? {
      LocalTokensOfJoin(v.local.value);
      assert l[1..] == Join(v.local.value);
    }
  }

  /** `from_str(to_str(v)) == v` for every version in canonical form. */
  lemma RenderThenParse(v: VersionValue)
    requires CanonicalForm(v)
    ensures ToStr(v).Ok? && Parse(ToStr(v).value) == Ok(v)
  {
    ParseFullOfRendered(v);
    if v.local.Some? {
      LocalGroupsKeepsShort(v.local.value);
    }
  }
}
