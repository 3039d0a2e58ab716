/**
 * `Version.from_str` and its helpers `_parse_release_str`,
 * `_parse_pre_release_str` and `_parse_local_str`.
 *
 * The regular expression `_re_version` is read here as a deterministic scan:
 * every number is a maximal run of digits (a digit may never follow a
 * number in the grammar), the release takes `.N` whenever a dot is followed
 * by a digit, and a label takes every letter in its run. Whenever the
 * backtracking full match succeeds it finds the same groups.
 */
module VersionParse {
  import opened Wrappers
  import opened Decimal
  import opened Versions

  /** Length of the run of characters satisfying `p` at the front of `s`. */
  function Run(s: string, p: char -> bool): (k: nat)
    ensures k <= |s|
    ensures forall i :: 0 <= i < k ==> p(s[i])
    ensures k < |s| ==> !p(s[k])
  {
    if |s| > 0 && p(s[0]) then 1 + Run(s[1..], p) else 0
  }

  lemma SplitHead(x: string)
    requires |x| > 0
    ensures x == [x[0]] + x[1..]
  {
  }

  predicate DotDigit(s: string) { |s| >= 2 && s[0] == '.' && IsDigit(s[1]) }

  /** `_pattern_release` at the front of `s`: major, optional minor, optional patch, and what follows. */
  function ParseRelease(s: string): Option<(int, Option<int>, Option<int>, string)>
  {
    match ParseNumber(s)
    case None => None
    case Some((major, r1)) =>
      if !DotDigit(r1) then Some((major, None, None, r1))
      else
        var (minor, r2) := ParseNumber(r1[1..]).value;
        if !DotDigit(r2) then Some((major, Some(minor), None, r2))
        else
          var (patch, r3) := ParseNumber(r2[1..]).value;
          Some((major, Some(minor), Some(patch), r3))
  }

  /**
   * One pre-release part at the front of `s`, as `findall` with
   * `_pattern_pre_release` cuts it and `_pattern_pre_release_part` splits it:
   * either a separator and a number, or an optional separator, letters and an
   * optional number.
   */
  function ParseItem(s: string): (r: Option<(Segment, string)>)
    ensures r.Some? ==> |r.value.1| < |s|
  {
    if |s| >= 2 && IsSep(s[0]) && IsDigit(s[1]) then
      var (n, rest) := ParseNumber(s[1..]).value;
      Some((Segment(Some(s[0]), None, Some(n)), rest))
    else
      var sep := if |s| > 0 && IsSep(s[0]) then Some(s[0]) else None;
      var t := if sep.Some? then s[1..] else s;
      var k := Run(t, IsLetter);
      if k == 0 then None
      else
        var preType := t[..k];
        match ParseNumber(t[k..])
        case None => Some((Segment(sep, Some(preType), None), t[k..]))
        case Some((n, rest)) => Some((Segment(sep, Some(preType), Some(n)), rest))
  }

  /** As many pre-release parts as can be read from the front of `s`, and what is left. */
  function PreItems(s: string): (r: (seq<Segment>, string))
    ensures |r.1| <= |s|
    decreases |s|
  {
    match ParseItem(s)
    case None => ([], s)
    case Some((seg, rest)) =>
      var (segs, left) := PreItems(rest);
      ([seg] + segs, left)
  }

  /**
   * The local part after the `+`: alphanumeric parts joined by `.` or `-`,
   * as the full list of parts and separators; `None` if the text does not
   * have that form.
   */
  function LocalTokens(s: string): Option<seq<string>>
  {
    var k := Run(s, IsAlnum);
    if k == 0 then None
    else if k == |s| then Some([s])
    else if IsSep(s[k]) then
      match LocalTokens(s[k + 1..])
      case None => None
      case Some(more) => Some([s[..k], [s[k]]] + more)
    else None
  }

  /**
   * `_parse_local_str`: `match.groups()` of a repeated group keeps only the
   * first part and the last separator and part.
   */
  function LocalGroups(tokens: seq<string>): seq<string>
    requires |tokens| > 0
  {
    if |tokens| == 1 then tokens else [tokens[0], tokens[|tokens| - 2], tokens[|tokens| - 1]]
  }

  /** The full match of `_pattern_version`, keeping every local part. */
  function ParseFull(s: string): Result<VersionValue>
  {
    match ParseRelease(s)
    case None => Err(ValueError)
    case Some((major, minor, patch, r1)) =>
      var (segs, r2) := PreItems(r1);
      var pre := if segs == [] then None else Some(segs);
      if r2 == [] then Ok(VersionValue(major, minor, patch, pre, None))
      else if r2[0] != '+' then Err(ValueError)
      else
        match LocalTokens(r2[1..])
        case None => Err(ValueError)
        case Some(tokens) => Ok(VersionValue(major, minor, patch, pre, Some(tokens)))
  }

  /** `Version.from_str` up to the construction of the object. */
  function Parse(s: string): Result<VersionValue>
  {
    match ParseFull(s)
    case Err(e) => Err(e)
    case Ok(w) =>
      if w.local.None? || |w.local.value| == 0 then Ok(w)
      else Ok(w.(local := Some(LocalGroups(w.local.value))))
  }

  /** `_parse_pre_release_str`: collects the segment tuples part by part. */
  method ParsePreReleaseStr(s: string) returns (tuples: seq<Segment>)
    ensures tuples == PreItems(s).0
  {
    tuples := [];
    var rest := s;
    while ParseItem(rest).Some?
      invariant tuples + PreItems(rest).0 == PreItems(s).0
      decreases |rest|
    {
      var (seg, more) := ParseItem(rest).value;
      tuples := tuples + [seg];
      rest := more;
    }
  }

  // ----- every parsed value passes the setters -----

  lemma ParseItemValid(s: string)
    requires ParseItem(s).Some?
    ensures ValidSegment(ParseItem(s).value.0)
  {
  }

  lemma {:induction false} PreItemsValid(s: string)
    ensures forall i :: 0 <= i < |PreItems(s).0| ==> ValidSegment(PreItems(s).0[i])
    decreases |s|
  {
    match ParseItem(s)
    case None =>
    case Some((seg, rest)) =>
      ParseItemValid(s);
      PreItemsValid(rest);
  }

  lemma {:induction false} LocalTokensValid(s: string)
    requires LocalTokens(s).Some?
    ensures ValidLocal(LocalTokens(s))
    decreases |s|
  {
    var k := Run(s, IsAlnum);
    if k < |s| {
      var more := LocalTokens(s[k + 1..]).value;
      LocalTokensValid(s[k + 1..]);
      var t := [s[..k], [s[k]]] + more;
      forall i | 0 <= i < |t|
        ensures if i % 2 == 0 then Alnum(t[i]) else t[i] == "." || t[i] == "-"
      {
        if i >= 2 { assert t[i] == more[i - 2]; }
      }
    }
  }

  lemma LocalGroupsValid(t: seq<string>)
    requires ValidLocal(Some(t))
    ensures ValidLocal(Some(LocalGroups(t)))
  {
    if |t| > 1 {
      assert (|t| - 2) % 2 == 1 && (|t| - 1) % 2 == 0;
    }
  }

  lemma ParseFullValid(s: string)
    requires ParseFull(s).Ok?
    ensures ValidValue(ParseFull(s).value)
  {
    var (major, minor, patch, r1) := ParseRelease(s).value;
    PreItemsValid(r1);
    var r2 := PreItems(r1).1;
    if r2 != [] {
      LocalTokensValid(r2[1..]);
    }
  }

  /** `from_str` only yields values that the `Version` setters accept. */
  lemma ParseValid(s: string)
    requires Parse(s).Ok?
    ensures ValidValue(Parse(s).value)
  {
    ParseFullValid(s);
    var w := ParseFull(s).value;
    if w.local.Some? && |w.local.value| > 0 {
      LocalGroupsValid(w.local.value);
    }
  }
}
