/** The two parsing helpers of `setup.py`: the package version taken from the
    changelog (`get_changelog`) and the requirement list (`get_requirements`).
    The files are given by their content. */
module PackageSetup {
  import opened PyStrings

  const Heading: string := "## ["
  const NoVersion: string := "unknown"

  /** The longest prefix of `s` holding no character of `stops`. */
  function UpTo(s: string, stops: set<char>): (r: string)
    ensures StartsWith(s, r)
    ensures forall i :: 0 <= i < |r| ==> r[i] !in stops
    ensures |r| < |s| ==> s[|r|] in stops
    decreases |s|
  {
    if s == [] || s[0] in stops then [] else [s[0]] + UpTo(s[1..], stops)
  }

  lemma {:induction false} SplitHeadIsUpTo(s: string, sep: char)
    ensures Split(s, sep)[0] == UpTo(s, {sep})
    decreases |s|
  {
    if |s| > 0 && s[0] != sep {
      SplitHeadIsUpTo(s[1..], sep);
    }
  }

  /** Splitting at the first separator, found at index `k`. */
  lemma {:induction false} SplitAtFirst(s: string, sep: char, k: nat)
    requires k < |s| && s[k] == sep && sep !in s[..k]
    ensures Split(s, sep) == [s[..k]] + Split(s[k + 1..], sep)
    decreases k
  {
    if k > 0 {
      assert s[1..][..k - 1] == s[1..k];
      assert s[1..][k - 1 + 1..] == s[k + 1..];
      SplitAtFirst(s[1..], sep, k - 1);
      assert s[..k] == [s[0]] + s[1..k];
    }
  }

  /** A prefix free of stop characters passes through `UpTo` whole. */
  lemma {:induction false} UpToPastPrefix(a: string, b: string, stops: set<char>)
    requires forall c :: c in a ==> c !in stops
    ensures UpTo(a + b, stops) == a + UpTo(b, stops)
    decreases |a|
  {
    if a != [] {
      assert (a + b)[0] == a[0];
      assert (a + b)[1..] == a[1..] + b;
      UpToPastPrefix(a[1..], b, stops);
    } else {
      assert a + b == b;
    }
  }

  lemma {:induction false} UpToTwice(s: string)
    ensures UpTo(UpTo(s, {']'}), {'['}) == UpTo(s, {'[', ']'})
    decreases |s|
  {
    if s != [] && s[0] != ']' && s[0] != '[' {
      UpToTwice(s[1..]);
      assert ([s[0]] + UpTo(s[1..], {']'}))[1..] == UpTo(s[1..], {']'});
    }
  }

  /** `line.split(']')[0].split('[')[1]` for a heading line: the text after
      `## [` up to the next `[` or `]`. The index `[1]` always exists. */
  function VersionOf(line: string): (v: string)
    requires StartsWith(line, Heading)
    ensures '[' !in v && ']' !in v
    ensures v == UpTo(line[|Heading|..], {'[', ']'})
  {
    var left := Split(line, ']')[0];
    SplitHeadIsUpTo(line, ']');
    assert line == line[..4] + line[4..];
    assert line[..4] == Heading;
    UpToPastPrefix(line[..4], line[4..], {']'});
    assert left == line[..4] + UpTo(line[4..], {']'});
    assert left[..3] == "## " && left[3] == '[';
    SplitAtFirst(left, '[', 3);
    assert left[4..] == UpTo(line[4..], {']'});
    SplitHeadIsUpTo(left[4..], '[');
    UpToTwice(line[4..]);
    Split(left, '[')[1]
  }

  /** A heading the changelog search accepts: `## [` and no `unreleased` in any letter case. */
  predicate IsReleaseHeading(line: string)
  {
    StartsWith(line, Heading) && !Contains(Lower(line), "unreleased")
  }

  /** `get_changelog`: the version of the first release heading, or `unknown`. */
  function GetChangelog(lines: seq<string>): (version: string)
    ensures '[' !in version && ']' !in version
    ensures version == NoVersion
      || exists i :: 0 <= i < |lines| && IsReleaseHeading(lines[i]) && version == VersionOf(lines[i])
    decreases |lines|
  {
    if lines == [] then NoVersion
    else if IsReleaseHeading(lines[0]) then VersionOf(lines[0])
    else GetChangelog(lines[1..])
  }

  /** The result is the version of the first release heading. */
  lemma {:induction false} ChangelogIsFirstRelease(lines: seq<string>, i: nat)
    requires i < |lines| && IsReleaseHeading(lines[i])
    requires forall j :: 0 <= j < i ==> !IsReleaseHeading(lines[j])
    ensures GetChangelog(lines) == VersionOf(lines[i])
    decreases i
  {
    if i > 0 {
      ChangelogIsFirstRelease(lines[1..], i - 1);
    }
  }

  /** Without a release heading the result is `unknown`. */
  lemma {:induction false} ChangelogWithoutRelease(lines: seq<string>)
    requires forall j :: 0 <= j < |lines| ==> !IsReleaseHeading(lines[j])
    ensures GetChangelog(lines) == NoVersion
    decreases |lines|
  {
    if lines != [] {
      ChangelogWithoutRelease(lines[1..]);
    }
  }

  /** A line that is not a release heading (one not starting with `## [`, or
      an unreleased heading) never affects the result. */
  lemma {:induction false} NonReleaseLineIsIgnored(xs: seq<string>, line: string, ys: seq<string>)
    requires !IsReleaseHeading(line)
    ensures GetChangelog(xs + [line] + ys) == GetChangelog(xs + ys)
    decreases |xs|
  {
    if xs == [] {
      assert xs + [line] + ys == [line] + ys;
      assert ([line] + ys)[1..] == ys;
      assert xs + ys == ys;
    } else {
      assert (xs + [line] + ys)[1..] == xs[1..] + [line] + ys;
      assert (xs + ys)[1..] == xs[1..] + ys;
      NonReleaseLineIsIgnored(xs[1..], line, ys);
    }
  }

  /** The first release heading wins: lines after it do not matter. */
  lemma {:induction false} FirstReleaseWins(xs: seq<string>, ys: seq<string>)
    requires exists i :: 0 <= i < |xs| && IsReleaseHeading(xs[i])
    ensures GetChangelog(xs + ys) == GetChangelog(xs)
    decreases |xs|
  {
    if !IsReleaseHeading(xs[0]) {
      var i :| 0 <= i < |xs| && IsReleaseHeading(xs[i]);
      assert IsReleaseHeading(xs[1..][i - 1]);
      assert (xs + ys)[1..] == xs[1..] + ys;
      FirstReleaseWins(xs[1..], ys);
    }
  }

  /** A heading holding `unreleased` in any letter case is skipped. */
  lemma UnreleasedHeadingIsSkipped(line: string, i: nat)
    requires i + 10 <= |line| && Lower(line[i..i + 10]) == "unreleased"
    ensures !IsReleaseHeading(line)
  {
    LowerSlice(line, i, i + 10);
    OccursImpliesContains(Lower(line), "unreleased", i);
  }

  /** When no `[` comes between `## [` and the first `]`, at index `k`, the
      version is exactly the text between the brackets. */
  lemma VersionBetweenBrackets(line: string, k: nat)
    requires StartsWith(line, Heading)
    requires |Heading| <= k < |line| && line[k] == ']'
    requires forall j :: |Heading| <= j < k ==> line[j] != '[' && line[j] != ']'
    ensures VersionOf(line) == line[|Heading|..k]
  {
    var rest := line[|Heading|..];
    var m := k - |Heading|;
    assert rest == rest[..m] + rest[m..];
    assert rest[..m] == line[|Heading|..k];
    UpToPastPrefix(rest[..m], rest[m..], {'[', ']'});
    assert rest[m..] == line[k..];
    assert UpTo(line[k..], {'[', ']'}) == [];
  }

  /** `get_requirements`: the file's content split on newlines. */
  function GetRequirements(content: string): (reqs: seq<string>)
    ensures |reqs| >= 1
    ensures |reqs| == 1 <==> '\n' !in content
  {
    SplitPieces(content, '\n');
    Split(content, '\n')
  }

  /** Joining the entries with newlines reproduces the content; no entry holds a newline. */
  lemma RequirementsRoundTrip(content: string)
    ensures Join(GetRequirements(content), '\n') == content
    ensures forall k :: 0 <= k < |GetRequirements(content)| ==> '\n' !in GetRequirements(content)[k]
  {
    SplitJoin(content, '\n');
    SplitPieces(content, '\n');
  }

  /** Requirement entries without newlines are recovered from their joined text. */
  lemma RequirementsFromJoined(requirements: seq<string>)
    requires |requirements| >= 1
    requires forall k :: 0 <= k < |requirements| ==> '\n' !in requirements[k]
    ensures GetRequirements(Join(requirements, '\n')) == requirements
  {
    JoinSplit(requirements, '\n');
  }

  /** A trailing newline yields a final empty entry. */
  lemma {:induction false} TrailingSeparatorGivesEmptyLast(body: string, sep: char)
    ensures Split(body + [sep], sep) == Split(body, sep) + [""]
    decreases |body|
  {
    var s := body + [sep];
    if body == [] {
      assert s[1..] == [];
      assert Split(s, sep) == [""] + Split([], sep);
    } else {
      var rest := body[1..];
      assert s[0] == body[0];
      assert s[1..] == rest + [sep];
      TrailingSeparatorGivesEmptyLast(rest, sep);
      var tail := Split(rest, sep);
      assert Split(s[1..], sep) == tail + [""];
      if body[0] == sep {
        assert Split(s, sep) == [""] + (tail + [""]);
        assert Split(body, sep) == [""] + tail;
      } else {
        assert (tail + [""])[0] == tail[0];
        assert (tail + [""])[1..] == tail[1..] + [""];
        assert Split(s, sep) == [[body[0]] + tail[0]] + (tail[1..] + [""]);
        assert Split(body, sep) == [[body[0]] + tail[0]] + tail[1..];
      }
    }
  }

  lemma RequirementsTrailingNewline(body: string)
    ensures GetRequirements(body + "\n") == GetRequirements(body) + [""]
  {
    TrailingSeparatorGivesEmptyLast(body, '\n');
  }
}
