/** The parts of `main` in scripts/update_release_notes.py that are not I/O: reading the
    `INPUT_TAG` and `CREATE_PR` settings from the values the environment holds, and the
    first step, which picks the tag and fetches its release notes. */
module Orchestrator {
  import opened Wrappers
  import opened Text
  import opened GitLabClient

  const ReleaseNotesBase := "releasenotes"

  // ------------------------------------------------------------- settings

  /** `v` spells `true` in any mix of upper and lower case. */
  predicate IsTrueIgnoringCase(v: string) {
    |v| == 4 && (v[0] == 't' || v[0] == 'T') && (v[1] == 'r' || v[1] == 'R')
    && (v[2] == 'u' || v[2] == 'U') && (v[3] == 'e' || v[3] == 'E')
  }

  /** A character lowercases to the lower-case letter `lc` exactly when it is `lc` or its
      upper-case form. */
  lemma LowerCharIs(c: char, lc: char)
    requires 'a' <= lc <= 'z'
    ensures LowerChar(c) == lc <==> c == lc || c as int == lc as int - 32
  {
  }

  /** `os.environ.get("CREATE_PR", "true").lower() == "true"`: pull requests are on unless
      the variable is set to something other than `true` in some case. */
  function CreatePrSetting(raw: Option<string>): (createPr: bool)
    ensures raw.None? ==> createPr
    ensures raw.Some? ==> (createPr <==> IsTrueIgnoringCase(raw.value))
  {
    var v := raw.GetOr("true");
    LowersToTrue(v);
    LowerAscii(v) == "true"
  }

  /** `v.lower() == "true"` exactly when `v` spells `true` in any case. */
  lemma LowersToTrue(v: string)
    ensures LowerAscii(v) == "true" <==> IsTrueIgnoringCase(v)
  {
    var lowered := LowerAscii(v);
    assert lowered == "true" <==> |v| == 4 && lowered[0] == 't' && lowered[1] == 'r'
                                  && lowered[2] == 'u' && lowered[3] == 'e';
    if |v| == 4 {
      LowerCharIs(v[0], 't');
      LowerCharIs(v[1], 'r');
      LowerCharIs(v[2], 'u');
      LowerCharIs(v[3], 'e');
    }
  }

  /** `os.environ.get("INPUT_TAG", "").strip()`: the given tag without surrounding
      whitespace; empty when the variable is missing or holds only whitespace. */
  function InputTagSetting(raw: Option<string>): (inputTag: string)
    ensures Unpadded(inputTag)
    ensures raw.None? ==> inputTag == []
    ensures raw.Some? ==> (inputTag == [] <==> forall k :: 0 <= k < |raw.value| ==> IsSpace(raw.value[k]))
    ensures raw.Some? ==> |inputTag| <= |raw.value|
    ensures raw.Some? ==> StrippedAt(raw.value, inputTag, |raw.value| - |StripLeft(raw.value)|)
  {
    var v := raw.GetOr("");
    StripRemovesOnlySpace(v);
    Strip(v)
  }

  // ------------------------------------------------------------- step one

  /** `get_latest_release_tag` feeding `get_release_notes_from_file`. */
  function LatestReleaseNotes(client: GitLabReleaseClient, allTags: seq<Tag>,
                              fetch: (ProjectId, string, string) -> FetchOutcome)
    : Result<ReleaseDocument, ClientError>
    reads client
  {
    match LatestReleaseTag(allTags)
    case Failure(e) => Failure(e)
    case Success(tag) => client.ReleaseNotesFromFile(tag, ReleaseNotesBase, fetch)
  }

  /** Step 1 of `main`: use the given tag when there is one, the latest release tag
      otherwise, and fetch the release notes of that tag. */
  method FetchReleaseNotes(client: GitLabReleaseClient, rawInputTag: Option<string>, allTags: seq<Tag>,
                           fetch: (ProjectId, string, string) -> FetchOutcome)
    returns (releaseData: Result<ReleaseDocument, ClientError>)
    ensures var inputTag := InputTagSetting(rawInputTag);
            inputTag != [] ==> releaseData == client.ReleaseNotesFromFile(inputTag, ReleaseNotesBase, fetch)
    ensures InputTagSetting(rawInputTag) == [] ==> releaseData == LatestReleaseNotes(client, allTags, fetch)
  {
    var inputTag := InputTagSetting(rawInputTag);
    var tag: string;
    if inputTag != [] {
      tag := inputTag;
    } else {
      var latest := client.GetLatestReleaseTag(allTags);
      if latest.Failure? {
        return Failure(latest.error);
      }
      tag := latest.value;
    }
    releaseData := client.ReleaseNotesFromFile(tag, ReleaseNotesBase, fetch);
  }

  /** A tag taken from the list is always a release tag, so it always has a path: the
      latest-tag route never ends in `InvalidTagName`. */
  lemma LatestNeverInvalid(client: GitLabReleaseClient, allTags: seq<Tag>,
                           fetch: (ProjectId, string, string) -> FetchOutcome)
    ensures !LatestReleaseNotes(client, allTags, fetch).Failure?
            || !LatestReleaseNotes(client, allTags, fetch).error.InvalidTagName?
  {
    match LatestReleaseTag(allTags)
    case Failure(e) =>
    case Success(tag) =>
      assert MatchVersionPrefix(tag).Some?;
  }

  /** An `INPUT_TAG` of whitespace only counts as unset. */
  lemma BlankInputTagIsUnset(raw: string)
    requires forall k :: 0 <= k < |raw| ==> IsSpace(raw[k])
    ensures InputTagSetting(Some(raw)) == InputTagSetting(None)
  {
  }
}
