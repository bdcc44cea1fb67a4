# Release-notes sync: a verified model of its text, path and tag logic

The repository holds a script. It takes the release notes of a GitLab project (`ndx/ghippo`) for a
release tag, has them rewritten by a language model, and adds them to a release-notes document in a
GitHub repository, through a direct push or a pull request. This project models the deterministic
core of that script in Dafny and proves what it does:

- **Document Merger** (`DocumentMerger`, from `insert_release_notes`). It works on the document's
  content:
  - It splits the content on `'\n'`.
  - It finds the first line whose stripped form starts `## YYYY-MM-DD`.
  - It puts the stripped fragment and an empty line before that line, or appends an empty line and
    the fragment.
  - It joins the lines back together.

  Index 0 is the source's "not found" value. So a dated heading on line 0 counts as absent, and the
  fragment goes to the end. The model keeps that quirk. One consequence: in such a document each
  new fragment lands after the previous one rather than in front of it, so repeated merges no
  longer put the newest release first (`LineZeroSecondMergeAppends`).
- **Publisher helpers** (`Publisher`, from `push_to_github` and `create_github_pr`):
  - the commit message taken from the first `###` line of the fragment;
  - the pull-request request and its body, which carries a 500-character preview;
  - the branch name formatted from the time of the run.
- **Settings and step one of `main`** (`Orchestrator`):
  - the values of `CREATE_PR` and `INPUT_TAG`, as pure functions of what the environment holds;
  - the choice between the given tag and the latest release tag, and the fetch of its release notes.
- **`GitLabReleaseClient`** (`GitLabClient`):
  - the client's fields;
  - the project-id encoding;
  - the release-notes path derived from a tag by the prefix-anchored regex `v(\d+)\.(\d+)\.(\d+)`;
  - the translation of a failed fetch (404 becomes a missing-file error, anything else propagates);
  - the filter for formal release tags, `^v\d+\.\d+\.\d+$`, with its early stop;
  - the latest release tag.

Two modules support them:

- `Text` gives Python's string operations over `seq<char>`: `str.strip()` with CPython's whitespace
  set, `split('\n')`, `'\n'.join`, `str.replace`, `str.startswith`, ASCII `lower()` and `\d`.
- `Wrappers` gives `Option` and `Result`. A raised exception is a `Failure` value.

The HTTP requests are inputs:

- The tag list that `list_tags(per_page=100)` would return is passed as a sequence.
- The file request is a function `fetch(projectId, filePath, ref)`. It gives the outcome: the decoded
  text, an HTTP status, or a lower-level failure.
- The time of the run is a `Timestamp` value.

Departures from Python, all deliberate:

- **Regex classes.** `\d` is read as the ASCII digits `0`-`9`. Python's `\d` also matches other
  Unicode decimal digits.
- **Case and whitespace.** `lower()` is applied to ASCII letters only. For the one test the script
  makes (`== "true"`) this is exact, because no other character lowercases to `t`, `r`, `u` or `e`.
  `strip()` removes exactly the characters for which CPython's `str.isspace()` holds, given as a
  fixed list.
- **The `$` anchor.** In `^v\d+\.\d+\.\d+$`, `$` is modelled as Python defines it: it also matches
  before one newline at the very end. So `"v1.2.3\n"` counts as a release tag, as it does in the script.

## Model

| member | source | states |
|---|---|---|
| `DocumentMerger.FindInsertIndex` | scripts/update_release_notes.py:111-116 | the loop returns the first dated heading when it is above 0; a result of 0 means there is no dated heading, or the first one is on line 0 |
| `DocumentMerger.MatchesDatedHeading` | scripts/update_release_notes.py:114 | definition of `re.match(r'## \d{4}-\d{2}-\d{2}', t)`: the first 13 characters are `## `, four digits, `-`, two digits, `-`, two digits; its meaning is stated by `DatedHeadingShape` |
| `DocumentMerger.IsDatedHeading` | scripts/update_release_notes.py:114 | definition of the per-line test: the stripped line starts with `## ` and matches the dated-heading pattern |
| `DocumentMerger.MergedLines` | scripts/update_release_notes.py:112-123 | definition of the new line list: the stripped fragment and `""` before the first dated heading above line 0, otherwise `""` and the fragment appended; its cases are the lemmas below |
| `DocumentMerger.MergedContent` | scripts/update_release_notes.py:109-126 | definition of the text written back: the join of `MergedLines` over the split of the original content |
| `DocumentMerger.InsertReleaseNotes` | scripts/update_release_notes.py:98-126 | the text written back is the join of the merged lines `MergedContent` |
| `DocumentMerger.DatedHeadingShape` | scripts/update_release_notes.py:114 | a stripped line `## ` + 4 chars + `-` + 2 chars + `-` + 2 chars + any rest is a dated heading exactly when the three fields are all digits |
| `DocumentMerger.InsertBeforeFirstHeading` | scripts/update_release_notes.py:113-123 | with the first dated heading at index i > 0, the lines are `lines[..i] + [strip(F), ""] + lines[i..]` |
| `DocumentMerger.AppendWithoutHeading` | scripts/update_release_notes.py:118-120 | with no dated heading the lines are `lines + ["", strip(F)]` |
| `DocumentMerger.HeadingOnFirstLineAppends` | scripts/update_release_notes.py:112-120 | a dated heading on line 0 is treated as not found: the fragment is appended, not prepended |
| `DocumentMerger.InsertionPoint` | scripts/update_release_notes.py:118-123 | the index at which the two new lines go lies within the document |
| `DocumentMerger.SpliceRemovable` | scripts/update_release_notes.py:120-123 | putting two lines in at an index adds two lines, and removing them gives back the original lines in order |
| `DocumentMerger.MergeOnlyInsertsTwoLines` | scripts/update_release_notes.py:118-123 | the merge adds exactly two lines at the insertion point, the stripped fragment and an empty line in one order or the other; removing them gives back the original lines in order |
| `DocumentMerger.MergeKeepsPrefix` | scripts/update_release_notes.py:123 | every line before the insertion point stays where it was |
| `DocumentMerger.ReadBackSpliced` | scripts/update_release_notes.py:109 | splitting the join of lines with one text spliced in gives the lines around it and the split of that text |
| `DocumentMerger.ReadBackMerged` | scripts/update_release_notes.py:109-126 | re-reading a merged document gives the lines before the heading, the fragment's own lines, an empty line and the rest |
| `DocumentMerger.FirstHeadingStays` | scripts/update_release_notes.py:113-116 | lines that begin with a dated heading, put in after heading-free lines, hold the first dated heading |
| `DocumentMerger.MergeInFrontOfFragment` | scripts/update_release_notes.py:113-123 | a second merge into a document whose earlier fragment starts with a dated heading goes just in front of that fragment |
| `DocumentMerger.MergeTwiceComposes` | scripts/update_release_notes.py:98-126 | when the first fragment starts with a dated heading, two merges put the newer fragment first: `lines[..i] + [strip(F2), "", strip(F1), ""] + lines[i..]`, joined |
| `DocumentMerger.NoHeadingSecondMergePrepends` | scripts/update_release_notes.py:112-123 | with no dated heading in the document and a first fragment that starts with one, two merges give `lines + ["", strip(F2), "", strip(F1)]`: the newer fragment still goes first |
| `DocumentMerger.LineZeroSecondMergeAppends` | scripts/update_release_notes.py:112-123 | with a dated heading on line 0, two merges give `lines + ["", strip(F1), "", strip(F2)]`: because index 0 means "not found", the newer fragment lands after the older one |
| `Publisher.VersionTextClean` | scripts/update_release_notes.py:186 | the version named by a `###` line has no surrounding whitespace and contains no `###` |
| `Publisher.IsVersionLine` | scripts/update_release_notes.py:185 | definition of the test `line.strip().startswith('###')`; `CommitMessageWithoutVersion`, `CommitMessageNamesFirstVersion` and `VersionOfHeading` are stated with it |
| `Publisher.VersionText` | scripts/update_release_notes.py:186 | definition of `line.strip().replace('###', '').strip()`; its properties are `VersionTextClean` and `VersionOfHeading` |
| `Publisher.CommitMessageOf` | scripts/update_release_notes.py:182-188 | definition of the commit message: the default, or `docs: add ghippo {v} release notes` for the first version line; its cases are `CommitMessageWithoutVersion` and `CommitMessageNamesFirstVersion` |
| `Publisher.CommitMessage` | scripts/update_release_notes.py:182-188 | the loop picks the message of the first version line, or the default when there is none (`CommitMessageOf`) |
| `Publisher.CommitMessageWithoutVersion` | scripts/update_release_notes.py:182 | without a line whose strip starts with `###` the message is `docs: update ghippo release notes` |
| `Publisher.CommitMessageNamesFirstVersion` | scripts/update_release_notes.py:184-188 | otherwise the message is `docs: add ghippo {v} release notes`, with v taken from the first such line |
| `Publisher.VersionOfHeading` | scripts/update_release_notes.py:185-187 | a line `### v`, where v has no `#` and no surrounding whitespace, is a version line naming exactly v |
| `Publisher.StripKeepsAbsence` | scripts/update_release_notes.py:186 | stripping cannot create an occurrence of a pattern |
| `Publisher.Preview` | scripts/update_release_notes.py:233 | `body_content[:500]` is a prefix of at most 500 characters, and the whole text when it is shorter |
| `Publisher.PrBody` | scripts/update_release_notes.py:228-236 | definition of the f-string body: header, preview, then the footer that starts with `...`; its layout is `PrBodyEmbedsPreview` |
| `Publisher.PrBodyEmbedsPreview` | scripts/update_release_notes.py:228-236 | the body is the fixed header, then the preview, read back from between the header and the footer, then the footer, which starts with `...`; its length is bounded |
| `Publisher.ShortFragmentStillEllipsized` | scripts/update_release_notes.py:233 | a fragment of at most 500 characters appears whole, still followed by `...` |
| `Publisher.LongFragmentsShareBody` | scripts/update_release_notes.py:233 | only the first 500 characters of a longer fragment reach the body |
| `Publisher.CreateGithubPr` | scripts/update_release_notes.py:225-243 | the request's base is `main`, its head is the branch, its title is the `title` argument (the commit message at the call on line 200, see `Publisher.PublishedPr`), and its body is the preview body |
| `Publisher.PublishedPr` | scripts/update_release_notes.py:157-200 | the request opened when PR creation is on: its head is the branch named after the run's time and the time can be read back from it, its title is `CommitMessageOf` the processed content, its base is `main`, and its body previews the processed content |
| `Publisher.BranchName` | scripts/update_release_notes.py:159 | `auto-update-release-` followed by 8 digits, `-` and 6 digits, 35 characters in all |
| `Publisher.BranchNameRoundTrip` | scripts/update_release_notes.py:159 | the time of the run, to the second, can be read back from the branch name |
| `Publisher.BranchNameInjective` | scripts/update_release_notes.py:159 | runs at different seconds get different branch names |
| `Orchestrator.CreatePrSetting` | scripts/update_release_notes.py:283 | pull requests are created when `CREATE_PR` is unset or spells `true` in any case, and only then |
| `Orchestrator.LowersToTrue` | scripts/update_release_notes.py:283 | `v.lower() == "true"` holds exactly when v is `true` in some mix of cases |
| `Orchestrator.InputTagSetting` | scripts/update_release_notes.py:282 | the input tag is the raw value with only surrounding whitespace removed, and has none left at either end; it is empty exactly when `INPUT_TAG` is unset or holds only whitespace |
| `Orchestrator.FetchReleaseNotes` | scripts/update_release_notes.py:296-305 | a non-empty input tag is fetched as given; an empty one means the latest release tag is looked up and fetched |
| `Orchestrator.LatestReleaseNotes` | scripts/update_release_notes.py:302-305 | definition of the latest-tag route: the `NoReleaseTag` failure, or the release notes of the latest release tag; `LatestNeverInvalid` is proved about it |
| `Orchestrator.LatestNeverInvalid` | scripts/update_release_notes.py:302-305 | a tag from the latest-tag route always has a release-notes path, so it never fails as an invalid tag name |
| `Orchestrator.BlankInputTagIsUnset` | scripts/update_release_notes.py:282 | an `INPUT_TAG` of whitespace only behaves as if it were unset |
| `GitLabClient.GitLabReleaseClient.constructor` | scripts/gitlab_client.py:14-28 | the URL loses its trailing slashes; token and project id are kept; the headers carry the token as `PRIVATE-TOKEN` |
| `GitLabClient.TrimTrailingSlashes` | scripts/gitlab_client.py:23 | `rstrip('/')` removes exactly the trailing run of `/` |
| `GitLabClient.GitLabReleaseClient.EncodeProjectId` | scripts/gitlab_client.py:30-34 | a numeric id and a path without `/` are unchanged; a path with `/` has each `/` turned into `%2F`, so it holds no `/` and is two characters longer per `/` |
| `GitLabClient.EncodeProjectIdRoundTrip` | scripts/gitlab_client.py:33 | for an id without `%`, replacing `%2F` by `/` undoes the encoding |
| `GitLabClient.DigitRunEnd` | scripts/gitlab_client.py:91 | greedy `\d+` takes the longest run of digits |
| `GitLabClient.MatchVersionPrefix` | scripts/gitlab_client.py:91 | on a match the three groups are digit runs, `v{M}.{m}.{p}` is a prefix of the tag, and no digit follows it |
| `GitLabClient.VersionPrefixOf` | scripts/gitlab_client.py:91-96 | every tag starting `v{M}.{m}.{p}` matches whatever follows, with groups M and m, and with p too when no digit follows |
| `GitLabClient.ReleaseNotesPath` | scripts/gitlab_client.py:91-99 | definition of the path, or `None` when the prefix regex does not match; its cases are `ReleaseNotesPathOf` and `NoPathWithoutVersion` |
| `GitLabClient.ReleaseNotesPathOf` | scripts/gitlab_client.py:95-99 | for a tag starting `v{M}.{m}.{p}` the path is `{base}/v{M}.{m}/releasenotes-{tag}.md` |
| `GitLabClient.ReleaseCandidatePath` | scripts/gitlab_client.py:91-99 | `v0.44.0-rc1` is accepted and filed as `releasenotes/v0.44/releasenotes-v0.44.0-rc1.md` |
| `GitLabClient.NoPathWithoutVersion` | scripts/gitlab_client.py:91-93 | a tag not starting with `v` has no path |
| `GitLabClient.GitLabReleaseClient.ReleaseNotesFromFile` | scripts/gitlab_client.py:91-112 | an invalid tag fails with `InvalidTagName` and nothing else does; success returns the tag, the fetched text, the derived path and `repository_file` |
| `GitLabClient.InvalidTagFetchesNothing` | scripts/gitlab_client.py:91-93 | an invalid tag fails before any request: the result does not depend on the server |
| `GitLabClient.FetchFailureTranslation` | scripts/gitlab_client.py:101-112 | a 404 becomes a missing-file error naming the path; any other HTTP status, and every other failure, is passed on unchanged |
| `GitLabClient.ReleaseTagNameShape` | scripts/gitlab_client.py:149 | a release tag name is exactly `vX.Y.Z` (or that and the one newline `$` admits), so it has no `-rc`/`-dev` suffix |
| `GitLabClient.IsReleaseTagName` | scripts/gitlab_client.py:149 | definition of `re.match(r'^v\d+\.\d+\.\d+$', name)`: the prefix match covers the whole name, or all but one final newline; its meaning is stated by `ReleaseTagNameShape` and `ReleaseTagNameOf` |
| `GitLabClient.IsReleaseTag` | scripts/gitlab_client.py:147-149 | definition of the filter's test: the release-tag regex applied to the tag's `name`; `ReleaseTags` and `ReleaseTagsPositions` keep exactly the tags that pass it |
| `GitLabClient.ReleaseTagNameOf` | scripts/gitlab_client.py:149 | every `vX.Y.Z` with digit runs, with or without one final newline, is a release tag name |
| `GitLabClient.ReleaseTags` | scripts/gitlab_client.py:145-150 | every kept tag is a release tag, and no more tags are kept than given |
| `GitLabClient.ReleaseTagsAppend` | scripts/gitlab_client.py:146-150 | filtering a concatenation filters each part |
| `GitLabClient.ReleaseTagsPositions` | scripts/gitlab_client.py:144-150 | the kept tags are the tags at increasing positions of the input, and those positions are all the release tags |
| `GitLabClient.ReleaseTagsNone` | scripts/gitlab_client.py:145-150 | a list without release tags keeps nothing |
| `GitLabClient.FirstReleaseTagLeads` | scripts/gitlab_client.py:145-150 | the first release tag of the input is the first one kept |
| `GitLabClient.Limit` | scripts/gitlab_client.py:151 | definition of the cap on the result: `per_page`, or 1 when `per_page <= 0`, because the length test follows the append; it caps the result rather than fixing its length (a list with no release tag gives none, `ReleaseTagsNone`), and its effect is `ReleaseTagsUpTo` and `NonPositiveLimitKeepsOne` |
| `GitLabClient.ReleaseTagsUpTo` | scripts/gitlab_client.py:145-154 | the result is a prefix of the kept release tags, as long as the limit or all of them |
| `GitLabClient.GitLabReleaseClient.ListReleaseTags` | scripts/gitlab_client.py:142-154 | the loop with its early `break` returns the first `max(per_page, 1)` release tags (`ReleaseTagsUpTo`) |
| `GitLabClient.NonPositiveLimitKeepsOne` | scripts/gitlab_client.py:150-152 | with `per_page <= 0` the first release tag is still returned |
| `GitLabClient.LatestReleaseTag` | scripts/gitlab_client.py:163-166 | fails with `NoReleaseTag` exactly when no tag is a release tag; otherwise names a release tag |
| `GitLabClient.LatestIsFirstReleaseTag` | scripts/gitlab_client.py:163-166 | the latest release tag is the first release tag in list order |
| `GitLabClient.GitLabReleaseClient.GetLatestReleaseTag` | scripts/gitlab_client.py:156-166 | listing with `per_page=1` and taking the first name gives `LatestReleaseTag` |
| `GitLabClient.LatestSkipsDevelopmentTag` | scripts/gitlab_client.py:163-166 | of `v0.45.0-dev1`, `v0.45.0`, `v0.44.0` the latest release tag is `v0.45.0` |
| `Text.StripLeftFacts` | scripts/update_release_notes.py:114 | the front half of `strip()` leaves the longest suffix that does not begin with whitespace, and everything it drops is whitespace |
| `Text.StripRightFacts` | scripts/update_release_notes.py:114 | the back half leaves the longest prefix that does not end with whitespace, and everything it drops is whitespace |
| `Text.Strip` | scripts/update_release_notes.py:114 | `strip()` as `rstrip` after `lstrip`; it never lengthens the text, and the rest of its meaning is `StripRemovesOnlySpace` |
| `Text.StripRemovesOnlySpace` | scripts/update_release_notes.py:114 | `strip()` removes only whitespace, keeps a contiguous part and leaves no whitespace at either end; whitespace alone strips to empty |
| `Text.StripIdempotent` | scripts/update_release_notes.py:186 | stripping twice is stripping once |
| `Text.SplitLines` | scripts/update_release_notes.py:109 | `split('\n')` gives at least one piece, none holding a newline, and joining them gives the text back |
| `Text.SplitJoin` | scripts/update_release_notes.py:126 | splitting the join of newline-free lines gives the lines back |
| `Text.JoinLines` | scripts/update_release_notes.py:126 | definition of `'\n'.join(lines)`; `SplitLines` and `SplitJoin` state that it and `split('\n')` undo each other |
| `Text.ReplaceAll` | scripts/update_release_notes.py:186 | definition of `str.replace`: left to right, non-overlapping; its properties are `RemoveTripleHashLeavesNone`, `PercentEncodeSlashRoundTrip` and `ReplaceCharLength` |
| `Text.RemoveTripleHashLeavesNone` | scripts/update_release_notes.py:186 | after `replace('###', '')` no `###` is left |
| `Text.PercentEncodeSlashRoundTrip` | scripts/gitlab_client.py:33 | replacing `/` by `%2F` is undone by the reverse replacement when the text holds no `%` |
| `Text.ReplaceCharLength` | scripts/gitlab_client.py:33 | replacing one character changes the length by the replacement's length minus one for each occurrence of the character |
| `Text.LowerAscii` | scripts/update_release_notes.py:283 | definition of ASCII `lower()`, character by character; its meaning for the `== "true"` test is `Orchestrator.LowersToTrue` |
| `Text.FirstWhere` | scripts/update_release_notes.py:113-116 | the `for ... break` search returns the first index whose element satisfies the test, or none when no element does |
| `Text.Digits` | scripts/update_release_notes.py:159 | a zero-padded field of `strftime` has the given width and only digits |
| `Text.DecimalValueOfDigits` | scripts/update_release_notes.py:159 | the padded digits of a number denote that number |

## Left out

- HTTP requests through `requests` (`list_tags`, `get_file_content`, `get_tag_info`, the pull-request
  POST). The tag list and the file outcome are inputs. The `html_url` of the response is not
  modelled.
- Base64 and UTF-8 decoding of the file, and `urllib.parse.quote` of the file path. `fetch` receives
  the unquoted path and returns decoded text.
- The DeepSeek completion in `process_with_deepseek`. It is an external text transform, and the
  merge takes its output as the fragment.
- git and `subprocess` commands, the temporary workspace, the file-existence check, the reading and
  writing of the document, and the "no change" test on `git status`. `InsertReleaseNotes` takes the
  document's content and returns the text written back.
- Newline translation when the document is read and written. `open(file_path, "r")` at
  scripts/update_release_notes.py:106 reads in text mode, which turns `\r\n` and `\r` into `\n`.
  So a document with CRLF line ends is written back with LF line ends. `originalContent` is the
  text as read, and "nothing else changes" holds for that text, not for the bytes on disk.
- Logging, `sync_result.log`, `sys.exit`, the check for missing tokens, and reading `os.environ`.
  The settings are functions of the value read, with `None` for an unset variable.
- The release-date lookup, `datetime.fromisoformat` with its `except` fallback, and
  `datetime.now()`. The branch timestamp is an input.
- `get_tag_info`. It only feeds the release date above.
- `list_tags` returns at most 100 tags. The model accepts any tag list, so that bound is the
  caller's.
- `ListReleaseTags` takes the list `list_tags(per_page=100)` returned as a parameter.
- `BranchName`: years are limited to 1000-9999, where `%Y` always gives four digits.
- `Text.ReplaceAll`: requires a non-empty pattern. The modelled code replaces only `/` and `###`, and
  `PercentEncodeSlashRoundTrip` replaces `%2F`; all are non-empty. The script's other call,
  `replace('+08:00', ...)`, is in the date code, which is left out. Python gives an empty pattern a
  meaning of its own.
- Unicode `\d`: the model reads `\d` as ASCII digits only.
- Unicode case mapping: `lower()` is modelled on ASCII letters only.
- The end-to-end merge of a concrete document is stated only by the general lemmas.
