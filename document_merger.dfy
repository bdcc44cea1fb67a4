/** The Document Merger: `insert_release_notes` in scripts/update_release_notes.py,
    on the document's content rather than on the file that holds it. The content is
    split on newlines; the new fragment, stripped, goes before the first dated
    heading `## DDDD-DD-DD`, or at the end of the document when there is none. The
    index 0 is the source's "not found" sentinel, so a dated heading on the very first
    line is treated as absent and the fragment is appended. */
module DocumentMerger {
  import opened Wrappers
  import opened Text

  /** `re.match(r'## \d{4}-\d{2}-\d{2}', t)`: anchored at the start of `t` only, so
      text may follow the date. */
  predicate MatchesDatedHeading(t: string) {
    && |t| >= 13 && t[..3] == "## "
    && IsDigit(t[3]) && IsDigit(t[4]) && IsDigit(t[5]) && IsDigit(t[6])
    && t[7] == '-' && IsDigit(t[8]) && IsDigit(t[9])
    && t[10] == '-' && IsDigit(t[11]) && IsDigit(t[12])
  }

  /** The test applied to each line: its stripped form starts with `## ` and matches
      the dated-heading pattern. */
  predicate IsDatedHeading(line: string) {
    IsDatedHeadingText(Strip(line))
  }

  predicate IsDatedHeadingText(t: string) {
    StartsWith(t, "## ") && MatchesDatedHeading(t)
  }

  /** The heading test reads the first 13 characters as `## YYYY-MM-DD`: it holds exactly
      when the three fields are digits, whatever text follows the date. */
  lemma DatedHeadingShape(year: string, month: string, day: string, rest: string)
    requires |year| == 4 && |month| == 2 && |day| == 2
    ensures IsDatedHeadingText("## " + year + "-" + month + "-" + day + rest)
            <==> AllDigits(year) && AllDigits(month) && AllDigits(day)
  {
    var t := "## " + year + "-" + month + "-" + day + rest;
    assert t[..3] == "## ";
    assert t[3..7] == year && t[7] == '-';
    assert t[8..10] == month && t[10] == '-';
    assert t[11..13] == day;
  }

  /** The lines of the merged document: before the first dated heading when that is at
      an index above 0, otherwise (no heading, or a heading on line 0) at the end. */
  function MergedLines(lines: seq<string>, newContent: string): seq<string> {
    var first := FirstWhere(lines, IsDatedHeading);
    if first.Some? && first.value > 0 then
      lines[..first.value] + [Strip(newContent), ""] + lines[first.value..]
    else
      lines + ["", Strip(newContent)]
  }

  /** The text written back to the document. */
  function MergedContent(originalContent: string, newContent: string): string {
    JoinLines(MergedLines(SplitLines(originalContent), newContent))
  }

  /** The search loop, with 0 as the "not found" value: either `insertIndex` is the
      first dated heading and above 0, or it is 0 and no line before the end, other
      than possibly line 0, is a dated heading. */
  method FindInsertIndex(lines: seq<string>) returns (insertIndex: nat)
    ensures insertIndex > 0 ==>
              insertIndex < |lines| && IsDatedHeading(lines[insertIndex])
              && forall k :: 0 <= k < insertIndex ==> !IsDatedHeading(lines[k])
    ensures insertIndex == 0 ==>
              (|lines| > 0 && IsDatedHeading(lines[0]))
              || forall k :: 0 <= k < |lines| ==> !IsDatedHeading(lines[k])
  {
    insertIndex := 0;
    var i := 0;
    while i < |lines|
      invariant 0 <= i <= |lines|
      invariant forall k :: 0 <= k < i ==> !IsDatedHeading(lines[k])
      invariant insertIndex == 0
    {
      if IsDatedHeading(lines[i]) {
        insertIndex := i;
        break;
      }
      i := i + 1;
    }
  }

  /** `insert_release_notes`: returns the text it writes back. */
  method InsertReleaseNotes(originalContent: string, newContent: string) returns (written: string)
    ensures written == MergedContent(originalContent, newContent)
  {
    var lines := SplitLines(originalContent);
    var insertIndex := FindInsertIndex(lines);
    var newLines: seq<string>;
    if insertIndex == 0 {
      newLines := lines + ["", Strip(newContent)];
    } else {
      newLines := lines[..insertIndex] + [Strip(newContent), ""] + lines[insertIndex..];
    }
    if insertIndex > 0 {
      FirstWhereIs(lines, IsDatedHeading, insertIndex);
    }
    written := JoinLines(newLines);
  }

  // ------------------------------------------------------------ the cases

  /** When the first dated heading is at index `i > 0`, the stripped fragment and an
      empty line go just before it. */
  lemma InsertBeforeFirstHeading(lines: seq<string>, newContent: string, i: nat)
    requires 0 < i < |lines| && IsDatedHeading(lines[i])
    requires forall k :: 0 <= k < i ==> !IsDatedHeading(lines[k])
    ensures MergedLines(lines, newContent)
            == lines[..i] + [Strip(newContent), ""] + lines[i..]
  {
    FirstWhereIs(lines, IsDatedHeading, i);
  }

  /** Without any dated heading the fragment goes to the end, after an empty line. */
  lemma AppendWithoutHeading(lines: seq<string>, newContent: string)
    requires forall k :: 0 <= k < |lines| ==> !IsDatedHeading(lines[k])
    ensures MergedLines(lines, newContent) == lines + ["", Strip(newContent)]
  {
    assert FirstWhere(lines, IsDatedHeading).None?;
  }

  /** The sentinel quirk: a dated heading on line 0 counts as "not found", so the
      fragment is appended at the end rather than put in front of it. */
  lemma HeadingOnFirstLineAppends(lines: seq<string>, newContent: string)
    requires |lines| > 0 && IsDatedHeading(lines[0])
    ensures MergedLines(lines, newContent) == lines + ["", Strip(newContent)]
  {
    FirstWhereIs(lines, IsDatedHeading, 0);
  }

  // ---------------------------------------------------- nothing else changes

  /** The index at which the merge puts its two lines. */
  function InsertionPoint(lines: seq<string>): (p: nat)
    ensures p <= |lines|
  {
    var first := FirstWhere(lines, IsDatedHeading);
    if first.Some? && first.value > 0 then first.value else |lines|
  }

  /** Two lines `a`, `b` put into `lines` at index `p`. */
  function Splice(lines: seq<string>, p: nat, a: string, b: string): seq<string>
    requires p <= |lines|
  {
    lines[..p] + [a, b] + lines[p..]
  }

  /** Splicing adds two lines, and taking them out again gives back the original. */
  lemma SpliceRemovable(lines: seq<string>, p: nat, a: string, b: string)
    requires p <= |lines|
    ensures var m := Splice(lines, p, a, b);
            |m| == |lines| + 2 && m[p..p + 2] == [a, b] && m[..p] + m[p + 2..] == lines
  {
    var m := Splice(lines, p, a, b);
    assert m[..p] == lines[..p];
    assert m[p + 2..] == lines[p..];
    assert lines[..p] + lines[p..] == lines;
  }

  /** The merged document has two more lines; taking out the two lines at the
      insertion point gives back the original lines in their order, and those two
      lines are the stripped fragment and an empty line. */
  lemma MergeOnlyInsertsTwoLines(lines: seq<string>, newContent: string)
    ensures |MergedLines(lines, newContent)| == |lines| + 2
    ensures var m, p := MergedLines(lines, newContent), InsertionPoint(lines);
            m[..p] + m[p + 2..] == lines
            && (m[p..p + 2] == [Strip(newContent), ""] || m[p..p + 2] == ["", Strip(newContent)])
  {
    var p := InsertionPoint(lines);
    var first := FirstWhere(lines, IsDatedHeading);
    if first.Some? && first.value > 0 {
      assert MergedLines(lines, newContent) == Splice(lines, p, Strip(newContent), "");
      SpliceRemovable(lines, p, Strip(newContent), "");
    } else {
      assert lines[p..] == [] && lines[..p] == lines;
      assert MergedLines(lines, newContent) == Splice(lines, p, "", Strip(newContent));
      SpliceRemovable(lines, p, "", Strip(newContent));
    }
  }

  /** Every line before the insertion point keeps its place. */
  lemma MergeKeepsPrefix(lines: seq<string>, newContent: string, k: nat)
    requires k < InsertionPoint(lines)
    ensures MergedLines(lines, newContent)[k] == lines[k]
  {
  }

  // ---------------------------------------------------------- composition

  /** Regrouping the two inserted lines. */
  lemma RegroupInserted(lines: seq<string>, f: string, i: nat)
    requires 0 < i < |lines|
    ensures lines[..i] + [f, ""] + lines[i..] == lines[..i] + [f] + ([""] + lines[i..])
  {
  }

  /** Reading back a text in which one element, `f`, was spliced in before line `i`
      with an empty line after it: `f` falls apart into its own lines. */
  lemma ReadBackSpliced(lines: seq<string>, f: string, i: nat)
    requires SingleLines(lines) && 0 < i < |lines|
    ensures SplitLines(JoinLines(lines[..i] + [f] + ([""] + lines[i..])))
            == lines[..i] + SplitLines(f) + ([""] + lines[i..])
  {
    var pre, post := lines[..i], lines[i..];
    assert SingleLines(pre) && SingleLines([""] + post) by {
      assert forall k :: 0 <= k < |post| ==> post[k] == lines[i + k];
    }
    SplitJoinAround(pre, f, [""] + post);
  }

  /** The lines of a merged document, read back: the fragment's own lines stand
      where the fragment went. */
  lemma ReadBackMerged(lines: seq<string>, newContent: string, i: nat)
    requires SingleLines(lines)
    requires 0 < i < |lines| && IsDatedHeading(lines[i])
    requires forall k :: 0 <= k < i ==> !IsDatedHeading(lines[k])
    ensures SplitLines(JoinLines(MergedLines(lines, newContent)))
            == lines[..i] + SplitLines(Strip(newContent)) + ([""] + lines[i..])
  {
    InsertBeforeFirstHeading(lines, newContent, i);
    RegroupInserted(lines, Strip(newContent), i);
    ReadBackSpliced(lines, Strip(newContent), i);
  }

  /** Putting lines that begin with a dated heading at index `i` keeps `i` the first
      dated heading. */
  lemma FirstHeadingStays(pre: seq<string>, mid: seq<string>, post: seq<string>)
    requires |pre| > 0 && |mid| > 0 && IsDatedHeading(mid[0])
    requires forall k :: 0 <= k < |pre| ==> !IsDatedHeading(pre[k])
    ensures FirstWhere(pre + mid + post, IsDatedHeading) == Some(|pre|)
  {
    var all := pre + mid + post;
    assert all[|pre|] == mid[0];
    forall k | 0 <= k < |pre| ensures !IsDatedHeading(all[k]) {
      assert all[k] == pre[k];
    }
    FirstWhereIs(all, IsDatedHeading, |pre|);
  }

  /** The second merge, on lines that already hold a fragment beginning with a dated
      heading right after a heading-free part `pre`. */
  lemma MergeInFrontOfFragment(pre: seq<string>, fragLines: seq<string>, post: seq<string>,
                               newContent: string)
    requires |pre| > 0 && |fragLines| > 0 && IsDatedHeading(fragLines[0])
    requires forall k :: 0 <= k < |pre| ==> !IsDatedHeading(pre[k])
    ensures MergedLines(pre + fragLines + post, newContent)
            == (pre + [Strip(newContent), ""]) + fragLines + post
  {
    FirstHeadingStays(pre, fragLines, post);
    SpliceAfterPrefix(pre, fragLines, post, Strip(newContent), "");
  }

  /** Joining the fragment's lines is joining the fragment. */
  lemma JoinSecondMerge(pre: seq<string>, s2: string, s1: string, post: seq<string>)
    requires |pre| > 0
    ensures JoinLines((pre + [s2, ""]) + SplitLines(s1) + ([""] + post))
            == JoinLines(pre + [s2, "", s1, ""] + post)
  {
    JoinSplitAround(pre + [s2, ""], s1, [""] + post);
    Regroup(pre, s2, "", s1, "", post);
  }

  /** Repeated merges compose by prepending: once a fragment that begins with a dated
      heading sits in front of the document's first dated heading (at line `i > 0`), a
      second fragment goes in front of the first one, and nothing else moves. The other
      two cases are `NoHeadingSecondMergePrepends` and `LineZeroSecondMergeAppends`. */
  lemma MergeTwiceComposes(content: string, f1: string, f2: string, i: nat)
    requires var lines := SplitLines(content);
             0 < i < |lines| && IsDatedHeading(lines[i])
             && forall k :: 0 <= k < i ==> !IsDatedHeading(lines[k])
    requires IsDatedHeading(SplitLines(Strip(f1))[0])
    ensures var lines := SplitLines(content);
            MergedContent(MergedContent(content, f1), f2)
            == JoinLines(lines[..i] + [Strip(f2), "", Strip(f1), ""] + lines[i..])
  {
    var lines := SplitLines(content);
    var pre, post := lines[..i], lines[i..];
    ReadBackMerged(lines, f1, i);
    assert forall k :: 0 <= k < |pre| ==> pre[k] == lines[k];
    MergeInFrontOfFragment(pre, SplitLines(Strip(f1)), [""] + post, f2);
    JoinSecondMerge(pre, Strip(f2), Strip(f1), post);
  }

  /** Reading back a document to which a fragment was appended. */
  lemma ReadBackAppended(lines: seq<string>, s1: string)
    requires SingleLines(lines) && |lines| >= 1
    ensures SplitLines(JoinLines(lines + ["", s1])) == (lines + [""]) + SplitLines(s1)
  {
    assert SingleLines(lines + [""]) by {
      assert forall k :: 0 <= k < |lines| ==> (lines + [""])[k] == lines[k];
    }
    assert lines + ["", s1] == (lines + [""]) + [s1];
    SplitJoinAtEnd(lines + [""], s1);
  }

  /** Without any dated heading in the document, a first fragment that begins with a
      dated heading is appended, and a second one goes in front of it: repeated merges
      still compose by prepending. */
  lemma NoHeadingSecondMergePrepends(content: string, f1: string, f2: string)
    requires forall k :: 0 <= k < |SplitLines(content)| ==> !IsDatedHeading(SplitLines(content)[k])
    requires IsDatedHeading(SplitLines(Strip(f1))[0])
    ensures MergedContent(MergedContent(content, f1), f2)
            == JoinLines(SplitLines(content) + ["", Strip(f2), "", Strip(f1)])
  {
    var lines := SplitLines(content);
    var s1, s2 := Strip(f1), Strip(f2);
    AppendWithoutHeading(lines, f1);
    ReadBackAppended(lines, s1);
    BlankAddsNoHeading(lines);
    MergeBeforeTail(lines + [""], SplitLines(s1), f2);
    JoinSplitAtEnd(lines + [""] + [s2, ""], s1);
    AppendFour(lines, "", s2, "", s1);
  }

  /** An empty line is no dated heading, so appending one adds none. */
  lemma BlankAddsNoHeading(lines: seq<string>)
    requires forall k :: 0 <= k < |lines| ==> !IsDatedHeading(lines[k])
    ensures forall k :: 0 <= k < |lines + [""]| ==> !IsDatedHeading((lines + [""])[k])
  {
    assert !IsDatedHeading("");
    forall k | 0 <= k < |lines| ensures (lines + [""])[k] == lines[k] {
    }
  }

  /** A merge into lines whose first dated heading opens their tail `frag` goes just
      before that tail. */
  lemma MergeBeforeTail(pre: seq<string>, frag: seq<string>, newContent: string)
    requires |pre| > 0 && |frag| > 0 && IsDatedHeading(frag[0])
    requires forall k :: 0 <= k < |pre| ==> !IsDatedHeading(pre[k])
    ensures MergedLines(pre + frag, newContent) == (pre + [Strip(newContent), ""]) + frag
  {
    FirstHeadingStays(pre, frag, []);
    assert pre + frag + [] == pre + frag;
    SpliceAfterPrefix(pre, frag, [], Strip(newContent), "");
    assert (pre + [Strip(newContent), ""]) + frag + [] == (pre + [Strip(newContent), ""]) + frag;
  }

  /** The sentinel quirk breaks composition: with a dated heading on line 0, the first
      fragment is appended and so is the second, which ends up after the first rather
      than in front of it. */
  lemma LineZeroSecondMergeAppends(content: string, f1: string, f2: string)
    requires IsDatedHeading(SplitLines(content)[0])
    ensures MergedContent(MergedContent(content, f1), f2)
            == JoinLines(SplitLines(content) + ["", Strip(f1), "", Strip(f2)])
  {
    var lines := SplitLines(content);
    var s1, s2 := Strip(f1), Strip(f2);
    HeadingOnFirstLineAppends(lines, f1);
    ReadBackAppended(lines, s1);
    var read := (lines + [""]) + SplitLines(s1);
    assert read[0] == lines[0];
    HeadingOnFirstLineAppends(read, f2);
    JoinSplitAround(lines + [""], s1, ["", s2]);
    AppendFour(lines, "", s1, "", s2);
  }
}
