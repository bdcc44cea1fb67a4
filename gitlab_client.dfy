/** The tag and path logic of `GitLabReleaseClient` (scripts/gitlab_client.py): the
    project-id encoding, the release-notes path derived from a tag with the translation of
    a failed fetch, the filter that keeps the formal release tags, and the latest of them.
    The HTTP requests become inputs: the tag list that `list_tags` would return, and a
    `fetch` function giving the outcome of the file request. */
module GitLabClient {
  import opened Wrappers
  import opened Text

  // ------------------------------------------------------------ data model

  /** `project_id` is either a number (`865`) or a path (`"ndx/ghippo"`). */
  datatype ProjectId = NumericId(number: int) | PathId(path: string)

  /** A tag object as the tag list returns it: its name, and the rest of the object,
      which the filter carries along untouched. */
  datatype Tag = Tag(name: string, details: string)

  /** What the file request ends in: the decoded file text, an HTTP error status raised
      by `raise_for_status`, or a failure below HTTP (connection, decoding). */
  datatype FetchOutcome = Fetched(content: string) | HttpFailure(status: int) | TransportFailure(reason: string)

  /** The exceptions the modelled code raises. */
  datatype ClientError =
    | InvalidTagName(tagName: string)        // ValueError: the tag does not start vX.Y.Z
    | ReleaseNotesNotFound(filePath: string) // FileNotFoundError for a 404
    | HttpError(status: int)                 // any other HTTPError, re-raised
    | TransportError(reason: string)         // any other exception, propagated
    | NoReleaseTag                           // no formal release tag in the list

  /** The dictionary `get_release_notes_from_file` returns. */
  datatype ReleaseDocument = ReleaseDocument(tagName: string, content: string, filePath: string, source: string)

  const RepositoryFileSource := "repository_file"
  const DefaultRef := "master"

  // ------------------------------------------------------- version prefix

  /** The end of the longest digit run starting at `i`: how far greedy `\d+` reaches. */
  function DigitRunEnd(s: string, i: nat): (e: nat)
    requires i <= |s|
    ensures i <= e <= |s|
    ensures forall k :: i <= k < e ==> IsDigit(s[k])
    ensures e == |s| || !IsDigit(s[e])
    decreases |s| - i
  {
    if i < |s| && IsDigit(s[i]) then DigitRunEnd(s, i + 1) else i
  }

  /** The three groups of `v(\d+)\.(\d+)\.(\d+)`. */
  datatype VersionPrefix = VersionPrefix(major: string, minor: string, patch: string)

  /** The text the regex matched: `v{major}.{minor}.{patch}`. */
  function Spelled(v: VersionPrefix): string {
    "v" + v.major + "." + v.minor + "." + v.patch
  }

  /** `re.match(r'v(\d+)\.(\d+)\.(\d+)', s)`: anchored at the start only. Each `\d+` takes the
      longest run, as the following `.` (or the end of the pattern) leaves it no other
      choice. On success the groups are digit runs, the match is a prefix of `s`, and
      the character after it (if any) is not a digit. */
  function MatchVersionPrefix(s: string): (r: Option<VersionPrefix>)
    ensures r.Some? ==> IsDigitRun(r.value.major) && IsDigitRun(r.value.minor)
                        && IsDigitRun(r.value.patch)
    ensures r.Some? ==> StartsWith(s, Spelled(r.value))
    ensures r.Some? ==> |Spelled(r.value)| == |s| || !IsDigit(s[|Spelled(r.value)|])
  {
    if |s| == 0 || s[0] != 'v' then None
    else
      var e1 := DigitRunEnd(s, 1);
      if e1 == 1 || e1 == |s| || s[e1] != '.' then None
      else
        var e2 := DigitRunEnd(s, e1 + 1);
        if e2 == e1 + 1 || e2 == |s| || s[e2] != '.' then None
        else
          var e3 := DigitRunEnd(s, e2 + 1);
          if e3 == e2 + 1 then None
          else
            var v := VersionPrefix(s[1..e1], s[e1 + 1..e2], s[e2 + 1..e3]);
            SpelledFromRuns(s, e1, e2, e3);
            Some(v)
  }

  /** The text from `v` to the end of the third run spells the three runs it holds. */
  lemma SpelledFromRuns(s: string, e1: nat, e2: nat, e3: nat)
    requires 1 <= e1 < e2 < e3 <= |s| && s[0] == 'v' && s[e1] == '.' && s[e2] == '.'
    ensures Spelled(VersionPrefix(s[1..e1], s[e1 + 1..e2], s[e2 + 1..e3])) == s[..e3]
  {
    assert s[..1] == "v";
    PrefixGrows(s, 1, e1);
    assert s[..e1 + 1] == s[..e1] + ".";
    PrefixGrows(s, e1 + 1, e2);
    assert s[..e2 + 1] == s[..e2] + ".";
    PrefixGrows(s, e2 + 1, e3);
  }

  /** A digit run that stops right before `j` ends at `j`. */
  lemma {:induction false} DigitRunEndAt(s: string, i: nat, j: nat)
    requires i <= j <= |s|
    requires forall k :: i <= k < j ==> IsDigit(s[k])
    requires j == |s| || !IsDigit(s[j])
    ensures DigitRunEnd(s, i) == j
    decreases j - i
  {
    if i < j {
      DigitRunEndAt(s, i + 1, j);
    }
  }

  /** A digit run reaches at least as far as the digits known to follow `i`. */
  lemma {:induction false} DigitRunEndBeyond(s: string, i: nat, j: nat)
    requires i <= j <= |s|
    requires forall k :: i <= k < j ==> IsDigit(s[k])
    ensures DigitRunEnd(s, i) >= j
    decreases j - i
  {
    if i < j {
      DigitRunEndBeyond(s, i + 1, j);
    }
  }

  /** Every text that starts with `v{M}.{m}.{p}` matches, whatever follows, with `M` and
      `m` as the first two groups; when no digit follows, `p` is the third group. */
  lemma VersionPrefixOf(major: string, minor: string, patch: string, rest: string)
    requires IsDigitRun(major) && IsDigitRun(minor) && IsDigitRun(patch)
    ensures var r := MatchVersionPrefix(Spelled(VersionPrefix(major, minor, patch)) + rest);
            r.Some? && r.value.major == major && r.value.minor == minor
    ensures rest == [] || !IsDigit(rest[0]) ==>
            MatchVersionPrefix(Spelled(VersionPrefix(major, minor, patch)) + rest)
            == Some(VersionPrefix(major, minor, patch))
  {
    var s := Spelled(VersionPrefix(major, minor, patch)) + rest;
    var e1 := 1 + |major|;
    var e2 := e1 + 1 + |minor|;
    var e3 := e2 + 1 + |patch|;
    SpelledLayout(major, minor, patch, rest);
    DigitRunEndAt(s, 1, e1);
    DigitRunEndAt(s, e1 + 1, e2);
    DigitRunEndBeyond(s, e2 + 1, e3);
    MatchFromRuns(s, e1, e2, DigitRunEnd(s, e2 + 1));
    if rest == [] || !IsDigit(rest[0]) {
      DigitRunEndAt(s, e2 + 1, e3);
    }
  }

  /** The match, once the ends of the three digit runs are known. */
  lemma MatchFromRuns(s: string, e1: nat, e2: nat, e3: nat)
    requires |s| > 0 && s[0] == 'v'
    requires 1 < e1 < |s| && DigitRunEnd(s, 1) == e1 && s[e1] == '.'
    requires e1 + 1 < e2 < |s| && DigitRunEnd(s, e1 + 1) == e2 && s[e2] == '.'
    requires e2 + 1 < e3 <= |s| && DigitRunEnd(s, e2 + 1) == e3
    ensures MatchVersionPrefix(s) == Some(VersionPrefix(s[1..e1], s[e1 + 1..e2], s[e2 + 1..e3]))
  {
  }

  /** Where the groups and the separators sit in `v{M}.{m}.{p}` followed by `rest`. */
  lemma SpelledLayout(major: string, minor: string, patch: string, rest: string)
    ensures var s := Spelled(VersionPrefix(major, minor, patch)) + rest;
            var e1 := 1 + |major|;
            var e2 := e1 + 1 + |minor|;
            var e3 := e2 + 1 + |patch|;
            |s| == e3 + |rest| && s[0] == 'v'
            && s[1..e1] == major && s[e1] == '.'
            && s[e1 + 1..e2] == minor && s[e2] == '.'
            && s[e2 + 1..e3] == patch && s[e3..] == rest
  {
    var s := Spelled(VersionPrefix(major, minor, patch)) + rest;
    assert s == "v" + major + "." + minor + "." + patch + rest;
  }

  /** `re.match(r'^v\d+\.\d+\.\d+$', name)`: the whole name is `vX.Y.Z`, where `$` also
      accepts one newline at the very end. */
  predicate IsReleaseTagName(name: string) {
    match MatchVersionPrefix(name)
    case None => false
    case Some(v) => |Spelled(v)| == |name| || (|Spelled(v)| == |name| - 1 && name[|name| - 1] == '\n')
  }

  /** A release tag name is exactly `vX.Y.Z` with digit runs (and possibly the newline
      `$` admits), so a suffixed name such as `v0.44.0-rc1` or `v0.45.0-dev1` is never one. */
  lemma ReleaseTagNameShape(name: string)
    requires IsReleaseTagName(name)
    ensures var v := MatchVersionPrefix(name).value;
            name == Spelled(v) || name == Spelled(v) + "\n"
    ensures '-' !in name
  {
    var v := MatchVersionPrefix(name).value;
    var n := |Spelled(v)|;
    assert name[..n] == Spelled(v);
    if n < |name| {
      assert name == name[..n] + "\n";
    }
    NoDashInSpelled(v);
  }

  /** `v`, digits and dots: a spelled version has no `-`. */
  lemma NoDashInSpelled(v: VersionPrefix)
    requires IsDigitRun(v.major) && IsDigitRun(v.minor) && IsDigitRun(v.patch)
    ensures '-' !in Spelled(v)
  {
    NoDashInDigits(v.major);
    NoDashInDigits(v.minor);
    NoDashInDigits(v.patch);
    assert Spelled(v) == "v" + v.major + "." + v.minor + "." + v.patch;
  }

  lemma NoDashInDigits(d: string)
    requires AllDigits(d)
    ensures '-' !in d
  {
  }

  /** Conversely every `vX.Y.Z` (with or without one trailing newline) is a release tag. */
  lemma ReleaseTagNameOf(major: string, minor: string, patch: string)
    requires IsDigitRun(major) && IsDigitRun(minor) && IsDigitRun(patch)
    ensures IsReleaseTagName(Spelled(VersionPrefix(major, minor, patch)))
    ensures IsReleaseTagName(Spelled(VersionPrefix(major, minor, patch)) + "\n")
  {
    var s := Spelled(VersionPrefix(major, minor, patch));
    VersionPrefixOf(major, minor, patch, "");
    assert s + "" == s;
    VersionPrefixOf(major, minor, patch, "\n");
  }

  // ------------------------------------------------------ release notes file

  /** `{base}/v{major}.{minor}/releasenotes-{tag}.md`, or `None` when the tag does not
      start with `vX.Y.Z`. */
  function ReleaseNotesPath(tagName: string, releasenotesBase: string): Option<string> {
    match MatchVersionPrefix(tagName)
    case None => None
    case Some(v) => Some(releasenotesBase + "/v" + v.major + "." + v.minor + "/releasenotes-" + tagName + ".md")
  }

  /** The directory is named after major and minor only, and the file after the whole tag
      text, suffix included. */
  lemma ReleaseNotesPathOf(major: string, minor: string, patch: string, rest: string, releasenotesBase: string)
    requires IsDigitRun(major) && IsDigitRun(minor) && IsDigitRun(patch)
    ensures var tagName := Spelled(VersionPrefix(major, minor, patch)) + rest;
            ReleaseNotesPath(tagName, releasenotesBase)
            == Some(releasenotesBase + "/v" + major + "." + minor + "/releasenotes-" + tagName + ".md")
  {
    VersionPrefixOf(major, minor, patch, rest);
  }

  /** The prefix-anchored regex accepts a release candidate, and files it under its
      minor version. */
  lemma ReleaseCandidatePath()
    ensures ReleaseNotesPath("v0.44.0-rc1", "releasenotes")
            == Some("releasenotes/v0.44/releasenotes-v0.44.0-rc1.md")
  {
    CandidateSpelling();
    ReleaseNotesPathOf("0", "44", "0", "-rc1", "releasenotes");
    CandidatePathText();
  }

  lemma CandidateSpelling()
    ensures "v0.44.0-rc1" == Spelled(VersionPrefix("0", "44", "0")) + "-rc1"
    ensures IsDigitRun("0") && IsDigitRun("44")
  {
    assert Spelled(VersionPrefix("0", "44", "0")) == "v0.44.0";
  }

  lemma CandidatePathText()
    ensures "releasenotes" + "/v" + "0" + "." + "44" + "/releasenotes-" + "v0.44.0-rc1" + ".md"
            == "releasenotes/v0.44/releasenotes-v0.44.0-rc1.md"
  {
  }

  /** A tag without a `vX.Y.Z` start has no path. */
  lemma NoPathWithoutVersion(tagName: string, releasenotesBase: string)
    requires |tagName| == 0 || tagName[0] != 'v'
    ensures ReleaseNotesPath(tagName, releasenotesBase).None?
  {
  }

  // ----------------------------------------------------------- tag filter

  predicate IsReleaseTag(tag: Tag) {
    IsReleaseTagName(tag.name)
  }

  /** The formal release tags of a list, in their order. */
  function ReleaseTags(tags: seq<Tag>): (r: seq<Tag>)
    ensures |r| <= |tags|
    ensures forall k :: 0 <= k < |r| ==> IsReleaseTag(r[k])
  {
    if |tags| == 0 then []
    else ReleaseTags(tags[..|tags| - 1]) + (if IsReleaseTag(tags[|tags| - 1]) then [tags[|tags| - 1]] else [])
  }

  /** Filtering a concatenation filters each part. */
  lemma {:induction false} ReleaseTagsAppend(a: seq<Tag>, b: seq<Tag>)
    ensures ReleaseTags(a + b) == ReleaseTags(a) + ReleaseTags(b)
    decreases |b|
  {
    if |b| > 0 {
      var last := b[|b| - 1];
      assert (a + b)[..|a + b| - 1] == a + b[..|b| - 1];
      ReleaseTagsAppend(a, b[..|b| - 1]);
    } else {
      assert a + b == a;
    }
  }

  /** `kept` is the subsequence of `tags` at the increasing positions `idx`, and those
      are all positions of release tags. */
  predicate KeptAt(tags: seq<Tag>, kept: seq<Tag>, idx: seq<nat>) {
    |idx| == |kept|
    && (forall k :: 0 <= k < |idx| ==> idx[k] < |tags| && kept[k] == tags[idx[k]])
    && (forall k, l :: 0 <= k < l < |idx| ==> idx[k] < idx[l])
    && (forall j :: 0 <= j < |tags| && IsReleaseTag(tags[j]) ==> j in idx)
  }

  /** The filter keeps exactly the release tags in their order. */
  lemma {:induction false} ReleaseTagsPositions(tags: seq<Tag>) returns (idx: seq<nat>)
    ensures KeptAt(tags, ReleaseTags(tags), idx)
  {
    if |tags| == 0 {
      idx := [];
    } else {
      var init := tags[..|tags| - 1];
      var last := tags[|tags| - 1];
      assert tags == init + [last];
      var prev := ReleaseTagsPositions(init);
      if IsReleaseTag(last) {
        KeptAtKeep(init, ReleaseTags(init), prev, last);
        idx := prev + [|init|];
      } else {
        KeptAtSkip(init, ReleaseTags(init), prev, last);
        idx := prev;
      }
    }
  }

  /** A release tag appended to the list is kept at its own position. */
  lemma KeptAtKeep(init: seq<Tag>, kept: seq<Tag>, idx: seq<nat>, last: Tag)
    requires KeptAt(init, kept, idx) && IsReleaseTag(last)
    ensures KeptAt(init + [last], kept + [last], idx + [|init|])
  {
    var tags := init + [last];
    forall j | 0 <= j < |tags| && IsReleaseTag(tags[j]) ensures j in idx + [|init|] {
      if j < |init| {
        assert init[j] == tags[j];
      }
    }
  }

  /** Any other tag appended to the list is dropped. */
  lemma KeptAtSkip(init: seq<Tag>, kept: seq<Tag>, idx: seq<nat>, last: Tag)
    requires KeptAt(init, kept, idx) && !IsReleaseTag(last)
    ensures KeptAt(init + [last], kept, idx)
  {
    var tags := init + [last];
    forall j | 0 <= j < |tags| && IsReleaseTag(tags[j]) ensures j in idx {
      assert init[j] == tags[j];
    }
  }

  /** A list without release tags filters to nothing. */
  lemma {:induction false} ReleaseTagsNone(tags: seq<Tag>)
    requires forall k :: 0 <= k < |tags| ==> !IsReleaseTag(tags[k])
    ensures ReleaseTags(tags) == []
  {
    if |tags| > 0 {
      ReleaseTagsNone(tags[..|tags| - 1]);
    }
  }

  /** The first release tag leads the filtered list. */
  lemma FirstReleaseTagLeads(tags: seq<Tag>, i: nat)
    requires i < |tags| && IsReleaseTag(tags[i])
    requires forall k :: 0 <= k < i ==> !IsReleaseTag(tags[k])
    ensures |ReleaseTags(tags)| > 0 && ReleaseTags(tags)[0] == tags[i]
  {
    assert tags == tags[..i] + ([tags[i]] + tags[i + 1..]);
    ReleaseTagsAppend(tags[..i], [tags[i]] + tags[i + 1..]);
    ReleaseTagsAppend([tags[i]], tags[i + 1..]);
    ReleaseTagsNone(tags[..i]);
    assert ReleaseTags([tags[i]]) == [tags[i]] by {
      assert [tags[i]][..0] == [];
    }
  }

  /** The cap on the number of tags kept: `per_page`, or 1 when `per_page <= 0`, because
      the length test follows the append. A list with no release tag still gives none. */
  function Limit(perPage: int): (n: nat)
    ensures n >= 1 && (perPage >= 1 ==> n == perPage)
  {
    if perPage >= 1 then perPage else 1
  }

  /** The first `Limit(perPage)` release tags, or all of them when there are fewer. */
  function ReleaseTagsUpTo(tags: seq<Tag>, perPage: int): (r: seq<Tag>)
    ensures |r| <= |ReleaseTags(tags)| && r == ReleaseTags(tags)[..|r|] && |r| <= Limit(perPage)
    ensures |r| == Limit(perPage) || r == ReleaseTags(tags)
  {
    var all := ReleaseTags(tags);
    if |all| <= Limit(perPage) then all else all[..Limit(perPage)]
  }

  /** One more tag of the input is filtered on its own. */
  lemma ReleaseTagsStep(tags: seq<Tag>, i: nat)
    requires i < |tags|
    ensures ReleaseTags(tags[..i + 1])
            == ReleaseTags(tags[..i]) + (if IsReleaseTag(tags[i]) then [tags[i]] else [])
  {
    assert tags[..i + 1][..i] == tags[..i];
  }

  /** Stopping after the first `i` tags is right once the limit is reached, or when
      nothing is left. */
  lemma ReleaseTagsStopAt(tags: seq<Tag>, i: nat, perPage: int)
    requires i <= |tags|
    requires |ReleaseTags(tags[..i])| == Limit(perPage) || i == |tags|
    requires |ReleaseTags(tags[..i])| <= Limit(perPage)
    ensures ReleaseTags(tags[..i]) == ReleaseTagsUpTo(tags, perPage)
  {
    assert tags == tags[..i] + tags[i..];
    ReleaseTagsAppend(tags[..i], tags[i..]);
  }

  /** A limit below one still lists one tag when there is any. */
  lemma NonPositiveLimitKeepsOne(tags: seq<Tag>, perPage: int)
    requires perPage <= 0 && |ReleaseTags(tags)| > 0
    ensures ReleaseTagsUpTo(tags, perPage) == [ReleaseTags(tags)[0]]
  {
  }

  /** The name of the first release tag, or `NoReleaseTag`. */
  function LatestReleaseTag(tags: seq<Tag>): (r: Result<string, ClientError>)
    ensures r.Failure? <==> forall k :: 0 <= k < |tags| ==> !IsReleaseTag(tags[k])
    ensures r.Failure? ==> r.error == NoReleaseTag
    ensures r.Success? ==> IsReleaseTagName(r.value)
  {
    match FirstWhere(tags, IsReleaseTag)
    case None => Failure(NoReleaseTag)
    case Some(k) => Success(tags[k].name)
  }

  /** The latest tag is the first release tag in list order. */
  lemma LatestIsFirstReleaseTag(tags: seq<Tag>, i: nat)
    requires i < |tags| && IsReleaseTag(tags[i])
    requires forall k :: 0 <= k < i ==> !IsReleaseTag(tags[k])
    ensures LatestReleaseTag(tags) == Success(tags[i].name)
  {
    FirstWhereIs(tags, IsReleaseTag, i);
  }

  /** Of `v0.45.0-dev1`, `v0.45.0` and `v0.44.0`, in that order, the latest release is
      `v0.45.0`: the development tag before it is skipped. */
  lemma LatestSkipsDevelopmentTag()
    ensures LatestReleaseTag([Tag("v0.45.0-dev1", ""), Tag("v0.45.0", ""), Tag("v0.44.0", "")])
            == Success("v0.45.0")
  {
    var tags := [Tag("v0.45.0-dev1", ""), Tag("v0.45.0", ""), Tag("v0.44.0", "")];
    DevelopmentTags();
    LatestIsFirstReleaseTag(tags, 1);
  }

  lemma DevelopmentTags()
    ensures !IsReleaseTagName("v0.45.0-dev1") && IsReleaseTagName("v0.45.0")
  {
    DevelopmentSpelling();
    VersionPrefixOf("0", "45", "0", "-dev1");
    ReleaseTagNameOf("0", "45", "0");
  }

  lemma DevelopmentSpelling()
    ensures "v0.45.0" == Spelled(VersionPrefix("0", "45", "0"))
    ensures "v0.45.0-dev1" == Spelled(VersionPrefix("0", "45", "0")) + "-dev1"
    ensures IsDigitRun("0") && IsDigitRun("45") && !IsDigit('-')
  {
  }

  // --------------------------------------------------------------- client

  /** `gitlab_url.rstrip('/')`. */
  function TrimTrailingSlashes(s: string): (r: string)
    ensures |r| <= |s| && r == s[..|r|]
    ensures r == [] || r[|r| - 1] != '/'
    ensures forall k :: |r| <= k < |s| ==> s[k] == '/'
  {
    if |s| > 0 && s[|s| - 1] == '/' then TrimTrailingSlashes(s[..|s| - 1]) else s
  }

  class GitLabReleaseClient {
    var gitlabUrl: string
    var token: string
    var projectId: ProjectId
    var headers: map<string, string>

    constructor (gitlabUrl: string, token: string, projectId: ProjectId)
      ensures this.gitlabUrl == TrimTrailingSlashes(gitlabUrl)
      ensures this.token == token && this.projectId == projectId
      ensures this.headers == map["PRIVATE-TOKEN" := token]
    {
      this.gitlabUrl := TrimTrailingSlashes(gitlabUrl);
      this.token := token;
      this.projectId := projectId;
      this.headers := map["PRIVATE-TOKEN" := token];
    }

    /** A path id has every `/` turned into `%2F`; a numeric id, or a path without `/`,
        is returned as it is. The encoded path holds no `/` and is longer by two
        characters per `/`. */
    function EncodeProjectId(): (r: ProjectId)
      reads this
      ensures projectId.NumericId? ==> r == projectId
      ensures projectId.PathId? ==> r.PathId? && '/' !in r.path
      ensures projectId.PathId? ==> |r.path| == |projectId.path| + 2 * multiset(projectId.path)['/']
      ensures projectId.PathId? && '/' !in projectId.path ==> r == projectId
    {
      if projectId.PathId? && '/' in projectId.path then
        ReplaceCharRemovesIt(projectId.path, '/', "%2F");
        ReplaceCharLength(projectId.path, '/', "%2F");
        assert "/" == ['/'];
        PathId(ReplaceAll(projectId.path, "/", "%2F"))
      else
        assert projectId.PathId? ==> multiset(projectId.path)['/'] == 0;
        projectId
    }

    /** `get_release_notes_from_file`: derive the path from the tag, fetch it at `master`,
        and name the path when the file is missing. */
    function ReleaseNotesFromFile(tagName: string, releasenotesBase: string,
                                  fetch: (ProjectId, string, string) -> FetchOutcome)
      : (r: Result<ReleaseDocument, ClientError>)
      reads this
      ensures ReleaseNotesPath(tagName, releasenotesBase).None? <==> r == Failure(InvalidTagName(tagName))
      ensures r.Success? ==> r.value.tagName == tagName && r.value.source == RepositoryFileSource
                             && Some(r.value.filePath) == ReleaseNotesPath(tagName, releasenotesBase)
                             && fetch(EncodeProjectId(), r.value.filePath, DefaultRef) == Fetched(r.value.content)
    {
      match ReleaseNotesPath(tagName, releasenotesBase)
      case None => Failure(InvalidTagName(tagName))
      case Some(filePath) =>
        match fetch(EncodeProjectId(), filePath, DefaultRef)
        case Fetched(content) => Success(ReleaseDocument(tagName, content, filePath, RepositoryFileSource))
        case HttpFailure(status) =>
          if status == 404 then Failure(ReleaseNotesNotFound(filePath)) else Failure(HttpError(status))
        case TransportFailure(reason) => Failure(TransportError(reason))
    }

    /** `list_release_tags` over the list `list_tags(per_page=100)` returned: keep the
        release tags in order, and stop as soon as `per_page` of them are kept. */
    method ListReleaseTags(allTags: seq<Tag>, perPage: int) returns (releaseTags: seq<Tag>)
      ensures releaseTags == ReleaseTagsUpTo(allTags, perPage)
    {
      releaseTags := [];
      var i := 0;
      while i < |allTags|
        invariant 0 <= i <= |allTags|
        invariant releaseTags == ReleaseTags(allTags[..i])
        invariant |releaseTags| < Limit(perPage)
      {
        var tag := allTags[i];
        ReleaseTagsStep(allTags, i);
        if IsReleaseTagName(tag.name) {
          releaseTags := releaseTags + [tag];
          if |releaseTags| >= perPage {
            ReleaseTagsStopAt(allTags, i + 1, perPage);
            return;
          }
        }
        i := i + 1;
      }
      ReleaseTagsStopAt(allTags, i, perPage);
    }

    /** `get_latest_release_tag`: the first release tag, or an error when none exists. */
    method GetLatestReleaseTag(allTags: seq<Tag>) returns (r: Result<string, ClientError>)
      ensures r == LatestReleaseTag(allTags)
    {
      var releaseTags := ListReleaseTags(allTags, 1);
      ghost var first := FirstWhere(allTags, IsReleaseTag);
      if first.Some? {
        FirstReleaseTagLeads(allTags, first.value);
      } else {
        ReleaseTagsNone(allTags);
      }
      if |releaseTags| == 0 {
        r := Failure(NoReleaseTag);
      } else {
        r := Success(releaseTags[0].name);
      }
    }
  }

  /** A tag that does not start with `vX.Y.Z` is refused before any request: the outcome
      is the same whatever the server would answer. */
  lemma InvalidTagFetchesNothing(client: GitLabReleaseClient, tagName: string, releasenotesBase: string,
                                 fetch1: (ProjectId, string, string) -> FetchOutcome,
                                 fetch2: (ProjectId, string, string) -> FetchOutcome)
    requires ReleaseNotesPath(tagName, releasenotesBase).None?
    ensures client.ReleaseNotesFromFile(tagName, releasenotesBase, fetch1)
            == client.ReleaseNotesFromFile(tagName, releasenotesBase, fetch2)
  {
  }

  /** A 404 becomes `ReleaseNotesNotFound` naming the derived path; every other HTTP
      status and every other failure is passed on unchanged. */
  lemma FetchFailureTranslation(client: GitLabReleaseClient, tagName: string, releasenotesBase: string,
                                fetch: (ProjectId, string, string) -> FetchOutcome)
    requires ReleaseNotesPath(tagName, releasenotesBase).Some?
    ensures var path := ReleaseNotesPath(tagName, releasenotesBase).value;
            var r := client.ReleaseNotesFromFile(tagName, releasenotesBase, fetch);
            match fetch(client.EncodeProjectId(), path, DefaultRef)
            case Fetched(content) => r == Success(ReleaseDocument(tagName, content, path, RepositoryFileSource))
            case HttpFailure(status) =>
              r == Failure(if status == 404 then ReleaseNotesNotFound(path) else HttpError(status))
            case TransportFailure(reason) => r == Failure(TransportError(reason))
  {
  }

  /** The encoding can be undone for ids without `%`: decoding `%2F` gives the path back. */
  lemma EncodeProjectIdRoundTrip(client: GitLabReleaseClient)
    requires client.projectId.PathId? && '%' !in client.projectId.path
    ensures ReplaceAll(client.EncodeProjectId().path, "%2F", "/") == client.projectId.path
  {
    PercentEncodeSlashRoundTrip(client.projectId.path);
    var path := client.projectId.path;
    if '/' !in path {
      assert !Occurs(path, "%2F") by {
        forall i | 0 <= i <= |path| - 3 ensures !OccursAt(path, "%2F", i) {
          assert path[i..i + 3][0] == path[i] && path[i] != '%';
        }
      }
      ReplaceAbsent(path, "%2F", "/");
    }
  }
}
