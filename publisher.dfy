/** The pure parts of the Publisher in scripts/update_release_notes.py: the commit
    message taken from the fragment (`push_to_github`), the pull-request request and its
    body with a 500-character preview (`create_github_pr`), and the branch name built
    from the time of the run. */
module Publisher {
  import opened Wrappers
  import opened Text

  // ------------------------------------------------------- commit message

  const DefaultCommitMessage := "docs: update ghippo release notes"

  /** A fragment line that names a version: stripped, it starts with `###`. */
  predicate IsVersionLine(line: string) {
    StartsWith(Strip(line), "###")
  }

  /** The version named by such a line: the stripped line with every `###` removed,
      stripped again. */
  function VersionText(line: string): string {
    Strip(ReplaceAll(Strip(line), "###", ""))
  }

  /** The version has no surrounding whitespace and no `###` left in it. */
  lemma VersionTextClean(line: string)
    ensures var v := VersionText(line);
            Unpadded(v) && !Occurs(v, "###")
  {
    var removed := ReplaceAll(Strip(line), "###", "");
    StripRemovesOnlySpace(removed);
    RemoveTripleHashLeavesNone(Strip(line));
    StripKeepsAbsence(removed, "###");
  }

  /** Whatever does not occur in a text does not occur in its strip. */
  lemma StripKeepsAbsence(s: string, pattern: string)
    requires !Occurs(s, pattern)
    ensures !Occurs(Strip(s), pattern)
  {
    var r := Strip(s);
    StripRemovesOnlySpace(s);
    var i := |s| - |StripLeft(s)|;
    assert r == s[i..i + |r|];
    forall j | 0 <= j <= |r| - |pattern| ensures !OccursAt(r, pattern, j) {
      SliceOfSlice(s, i, |r|, j, j + |pattern|);
      assert !OccursAt(s, pattern, i + j);
    }
  }

  /** The commit message for a fragment. */
  function CommitMessageOf(processedContent: string): string {
    var lines := SplitLines(processedContent);
    match FirstWhere(lines, IsVersionLine)
    case None => DefaultCommitMessage
    case Some(k) => "docs: add ghippo " + VersionText(lines[k]) + " release notes"
  }

  /** The loop of `push_to_github` that picks the commit message: the first version
      line decides it, and the default stays when there is none. */
  method CommitMessage(processedContent: string) returns (commitMsg: string)
    ensures commitMsg == CommitMessageOf(processedContent)
  {
    commitMsg := DefaultCommitMessage;
    var lines := SplitLines(processedContent);
    var i := 0;
    while i < |lines|
      invariant 0 <= i <= |lines|
      invariant FirstWhere(lines[..i], IsVersionLine).None?
      invariant commitMsg == DefaultCommitMessage
    {
      if IsVersionLine(lines[i]) {
        var version := VersionText(lines[i]);
        commitMsg := "docs: add ghippo " + version + " release notes";
        FirstWhereAfterNone(lines, IsVersionLine, i);
        return;
      }
      FirstWhereNoneExtend(lines, IsVersionLine, i);
      i := i + 1;
    }
    FirstWhereNoneAll(lines, IsVersionLine);
  }

  /** Without a version line the generic message is used. */
  lemma CommitMessageWithoutVersion(processedContent: string)
    requires var lines := SplitLines(processedContent);
             forall k :: 0 <= k < |lines| ==> !IsVersionLine(lines[k])
    ensures CommitMessageOf(processedContent) == DefaultCommitMessage
  {
    assert FirstWhere(SplitLines(processedContent), IsVersionLine).None?;
  }

  /** Otherwise the first version line, and no later one, names the version. */
  lemma CommitMessageNamesFirstVersion(processedContent: string, k: nat)
    requires var lines := SplitLines(processedContent);
             k < |lines| && IsVersionLine(lines[k])
             && forall j :: 0 <= j < k ==> !IsVersionLine(lines[j])
    ensures CommitMessageOf(processedContent)
            == "docs: add ghippo " + VersionText(SplitLines(processedContent)[k]) + " release notes"
  {
    FirstWhereIs(SplitLines(processedContent), IsVersionLine, k);
  }

  /** A heading `### v` (with `v` free of `#` and of surrounding whitespace) names `v`. */
  lemma VersionOfHeading(v: string)
    requires |v| > 0 && Unpadded(v) && '#' !in v
    ensures IsVersionLine("### " + v)
    ensures VersionText("### " + v) == v
  {
    var line := "### " + v;
    StripUnpadded(line);
    assert line[..3] == "###";
    HeadingHashesRemoved(v);
    StripLeftSpace(v);
  }

  /** Removing `###` from `### v` leaves ` v` when `v` has no `#`. */
  lemma HeadingHashesRemoved(v: string)
    requires '#' !in v
    ensures ReplaceAll("### " + v, "###", "") == " " + v
  {
    var line := "### " + v;
    assert line[..3] == "###";
    assert line[3..] == " " + v;
    assert ReplaceAll(line, "###", "") == ReplaceAll(" " + v, "###", "");
    assert !Occurs(" " + v, "###") by {
      assert forall i :: 0 <= i < |v| ==> (" " + v)[i + 1] == v[i];
    }
    ReplaceAbsent(" " + v, "###", "");
  }

  /** Stripping one leading blank off a text that is otherwise unpadded. */
  lemma StripLeftSpace(v: string)
    requires |v| > 0 && Unpadded(v)
    ensures Strip(" " + v) == v
  {
    assert (" " + v)[1..] == v;
    assert StripLeft(" " + v) == StripLeft(v);
    StripUnpadded(v);
  }

  // ---------------------------------------------------------- pull request

  /** The fixed text around the preview in the pull-request body. */
  const PrHeader := "## 自动更新 Release Notes\n\n本 PR 由自动化脚本生成，包含以下更新：\n\n"
  const PrFooter := "...\n\n---\n*由 GitHub Actions 自动创建*\n"
  const PreviewLength := 500

  /** `body_content[:500]`: the first 500 characters, or all of a shorter text. */
  function Preview(bodyContent: string): (p: string)
    ensures |p| <= PreviewLength && |p| <= |bodyContent| && p == bodyContent[..|p|]
    ensures |p| == PreviewLength || p == bodyContent
  {
    if |bodyContent| <= PreviewLength then bodyContent else bodyContent[..PreviewLength]
  }

  /** The pull-request body: header, preview, then `...` and the footer. */
  function PrBody(bodyContent: string): string {
    PrHeader + Preview(bodyContent) + PrFooter
  }

  /** The preview can be read back out of the body between the fixed header and the
      footer, which always begins with `...`, and the body's length is bounded. */
  lemma PrBodyEmbedsPreview(bodyContent: string)
    ensures var body := PrBody(bodyContent);
            |PrHeader| + |PrFooter| <= |body| <= |PrHeader| + PreviewLength + |PrFooter|
            && body[..|PrHeader|] == PrHeader
            && body[|PrHeader|..|body| - |PrFooter|] == bodyContent[..|Preview(bodyContent)|]
            && body[|body| - |PrFooter|..] == PrFooter
            && body[|body| - |PrFooter|..|body| - |PrFooter| + 3] == "..."
  {
    ThreeParts(PrHeader, Preview(bodyContent), PrFooter);
    assert PrFooter[..3] == "...";
  }

  /** The parts of `a + b + c` can be sliced back out of it. */
  lemma ThreeParts<X>(a: seq<X>, b: seq<X>, c: seq<X>)
    ensures var w := a + b + c;
            w[..|a|] == a && w[|a|..|w| - |c|] == b && w[|w| - |c|..] == c
  {
  }

  /** A fragment of at most 500 characters appears whole, and `...` still follows it. */
  lemma ShortFragmentStillEllipsized(bodyContent: string)
    requires |bodyContent| <= PreviewLength
    ensures PrBody(bodyContent) == PrHeader + bodyContent + PrFooter
  {
  }

  /** Only the first 500 characters of a longer fragment reach the body: two fragments
      that agree on them give the same body. */
  lemma LongFragmentsShareBody(c1: string, c2: string)
    requires |c1| >= PreviewLength && |c2| >= PreviewLength
    requires c1[..PreviewLength] == c2[..PreviewLength]
    ensures PrBody(c1) == PrBody(c2)
  {
  }

  /** The request `create_github_pr` sends. */
  datatype PullRequest = PullRequest(
    url: string, authorization: string, title: string, head: string, base: string, body: string)

  /** The pull request goes into `main` from the new branch, titled with the commit
      message, with the preview body. */
  function CreateGithubPr(token: string, repo: string, branch: string, title: string,
                          bodyContent: string): (pr: PullRequest)
    ensures pr.base == "main" && pr.head == branch && pr.title == title
    ensures pr.body == PrBody(bodyContent)
  {
    PullRequest("https://api.github.com/repos/" + repo + "/pulls", "token " + token,
                title, branch, "main", PrBody(bodyContent))
  }

  // ----------------------------------------------------------- branch name

  /** The wall-clock time of the run, as `datetime.now()` gives it. */
  datatype Timestamp = Timestamp(year: nat, month: nat, day: nat, hour: nat, minute: nat, second: nat)

  predicate ValidTimestamp(t: Timestamp) {
    1000 <= t.year <= 9999 && 1 <= t.month <= 12 && 1 <= t.day <= 31
    && t.hour < 24 && t.minute < 60 && t.second < 60
  }

  const BranchPrefix := "auto-update-release-"

  /** `auto-update-release-` followed by `strftime('%Y%m%d-%H%M%S')`. */
  function BranchName(t: Timestamp): (name: string)
    requires ValidTimestamp(t)
    ensures |name| == 35 && name[..20] == BranchPrefix && name[28] == '-'
    ensures AllDigits(name[20..28]) && AllDigits(name[29..])
  {
    BranchPrefix + Digits(t.year, 4) + Digits(t.month, 2) + Digits(t.day, 2) + "-"
    + Digits(t.hour, 2) + Digits(t.minute, 2) + Digits(t.second, 2)
  }

  /** Reads the time back out of a branch name. */
  function ParseBranchName(name: string): Option<Timestamp> {
    if |name| == 35 && name[..20] == BranchPrefix && name[28] == '-'
       && AllDigits(name[20..24]) && AllDigits(name[24..26]) && AllDigits(name[26..28])
       && AllDigits(name[29..31]) && AllDigits(name[31..33]) && AllDigits(name[33..35])
    then Some(Timestamp(DecimalValue(name[20..24]), DecimalValue(name[24..26]),
                        DecimalValue(name[26..28]), DecimalValue(name[29..31]),
                        DecimalValue(name[31..33]), DecimalValue(name[33..35])))
    else None
  }

  /** The branch name records the time to the second: it can be read back. */
  lemma BranchNameRoundTrip(t: Timestamp)
    requires ValidTimestamp(t)
    ensures ParseBranchName(BranchName(t)) == Some(t)
  {
    BranchNameFields(t);
    DecimalValueOfDigits(t.year, 4);
    DecimalValueOfDigits(t.month, 2);
    DecimalValueOfDigits(t.day, 2);
    DecimalValueOfDigits(t.hour, 2);
    DecimalValueOfDigits(t.minute, 2);
    DecimalValueOfDigits(t.second, 2);
  }

  /** Where each field sits in the branch name. */
  lemma BranchNameFields(t: Timestamp)
    requires ValidTimestamp(t)
    ensures var name := BranchName(t);
            name[20..24] == Digits(t.year, 4) && name[24..26] == Digits(t.month, 2)
            && name[26..28] == Digits(t.day, 2) && name[29..31] == Digits(t.hour, 2)
            && name[31..33] == Digits(t.minute, 2) && name[33..35] == Digits(t.second, 2)
  {
    SevenFields(BranchPrefix, Digits(t.year, 4), Digits(t.month, 2), Digits(t.day, 2), "-",
                Digits(t.hour, 2), Digits(t.minute, 2), Digits(t.second, 2));
  }

  /** The fields of `p + y + mo + d + sep + h + mi + s`, for the widths of a branch name. */
  lemma SevenFields<X>(p: seq<X>, y: seq<X>, mo: seq<X>, d: seq<X>, sep: seq<X>,
                       h: seq<X>, mi: seq<X>, s: seq<X>)
    requires |p| == 20 && |y| == 4 && |mo| == 2 && |d| == 2 && |sep| == 1
    requires |h| == 2 && |mi| == 2 && |s| == 2
    ensures var w := p + y + mo + d + sep + h + mi + s;
            w[20..24] == y && w[24..26] == mo && w[26..28] == d
            && w[29..31] == h && w[31..33] == mi && w[33..35] == s
  {
  }

  /** Runs at different seconds get different branches. */
  lemma BranchNameInjective(t1: Timestamp, t2: Timestamp)
    requires ValidTimestamp(t1) && ValidTimestamp(t2) && t1 != t2
    ensures BranchName(t1) != BranchName(t2)
  {
    BranchNameRoundTrip(t1);
    BranchNameRoundTrip(t2);
  }

  // ------------------------------------------------------- the request sent

  /** The pull request `push_to_github` opens when PR creation is on: its head is the
      branch named after the run's time, which can be read back from it, its title is
      the commit message, and its body previews the processed content. */
  function PublishedPr(token: string, repo: string, t: Timestamp,
                       processedContent: string): (pr: PullRequest)
    requires ValidTimestamp(t)
    ensures pr.base == "main" && pr.head == BranchName(t) && ParseBranchName(pr.head) == Some(t)
    ensures pr.title == CommitMessageOf(processedContent)
    ensures pr.body == PrBody(processedContent)
  {
    BranchNameRoundTrip(t);
    CreateGithubPr(token, repo, BranchName(t), CommitMessageOf(processedContent), processedContent)
  }
}
