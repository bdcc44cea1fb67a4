/** The string operations of Python that the scripts rely on, over `seq<char>`:
    `str.strip()`, `str.split('\n')`, `'\n'.join(...)`, `str.replace`, `str.startswith`,
    `str.lower()` restricted to ASCII, and the ASCII reading of the regex class `\d`. */
module Text {
  import opened Wrappers

  /** The characters for which CPython's `str.isspace()` holds; `str.strip()` with no
      argument removes exactly these. */
  predicate IsSpace(c: char) {
    ('\t' <= c <= '\r') || ('\U{1C}' <= c <= '\U{1F}') || c == ' '
    || c == '\U{85}' || c == '\U{A0}' || c == '\U{1680}'
    || ('\U{2000}' <= c <= '\U{200A}') || c == '\U{2028}' || c == '\U{2029}'
    || c == '\U{202F}' || c == '\U{205F}' || c == '\U{3000}'
  }

  /** The regex class `\d`, read as the ASCII digits only. */
  predicate IsDigit(c: char) {
    '0' <= c <= '9'
  }

  predicate AllDigits(s: string) {
    forall k :: 0 <= k < |s| ==> IsDigit(s[k])
  }

  /** A non-empty run of digits: what `(\d+)` captures. */
  predicate IsDigitRun(s: string) {
    |s| > 0 && AllDigits(s)
  }

  predicate StartsWith(s: string, prefix: string) {
    |prefix| <= |s| && s[..|prefix|] == prefix
  }

  /** `pattern` occurs in `s` at position `i`. */
  predicate OccursAt(s: string, pattern: string, i: int) {
    0 <= i && i + |pattern| <= |s| && s[i..i + |pattern|] == pattern
  }

  /** Python's `pattern in s`. */
  predicate Occurs(s: string, pattern: string) {
    exists i :: 0 <= i <= |s| - |pattern| && OccursAt(s, pattern, i)
  }

  // ---------------------------------------------------------------- strip

  /** `s.lstrip()`: drops whitespace from the front of `s`. */
  function StripLeft(s: string): (r: string)
    ensures |r| <= |s|
  {
    if |s| > 0 && IsSpace(s[0]) then StripLeft(s[1..]) else s
  }

  /** `lstrip` leaves the longest suffix of `s` that does not begin with whitespace. */
  lemma {:induction false} StripLeftFacts(s: string)
    ensures var r := StripLeft(s);
            r == s[|s| - |r|..] && (r == [] || !IsSpace(r[0]))
            && forall k :: 0 <= k < |s| - |r| ==> IsSpace(s[k])
  {
    if |s| > 0 && IsSpace(s[0]) {
      StripLeftFacts(s[1..]);
      var r := StripLeft(s[1..]);
      forall k | 0 <= k < |s| - |r| ensures IsSpace(s[k]) {
        if k > 0 {
          assert s[k] == s[1..][k - 1];
        }
      }
      assert s[1..][|s| - 1 - |r|..] == s[|s| - |r|..];
    }
  }

  /** `s.rstrip()`: drops whitespace from the back of `s`. */
  function StripRight(s: string): (r: string)
    ensures |r| <= |s|
  {
    if |s| > 0 && IsSpace(s[|s| - 1]) then StripRight(s[..|s| - 1]) else s
  }

  /** `rstrip` leaves the longest prefix of `s` that does not end with whitespace. */
  lemma {:induction false} StripRightFacts(s: string)
    ensures var r := StripRight(s);
            r == s[..|r|] && (r == [] || !IsSpace(r[|r| - 1]))
            && forall k :: |r| <= k < |s| ==> IsSpace(s[k])
  {
    if |s| > 0 && IsSpace(s[|s| - 1]) {
      var t := s[..|s| - 1];
      StripRightFacts(t);
      var r := StripRight(t);
      forall k | |r| <= k < |s| ensures IsSpace(s[k]) {
        if k < |s| - 1 {
          assert s[k] == t[k];
        }
      }
      assert t[..|r|] == s[..|r|];
    }
  }

  /** `s.strip()`: `s` with its leading and trailing whitespace removed. */
  function Strip(s: string): (r: string)
    ensures |r| <= |s|
  {
    StripRight(StripLeft(s))
  }

  /** Only whitespace is removed by `strip`, and what remains is a contiguous part of
      `s` that neither begins nor ends with whitespace; a text of whitespace only strips
      to the empty string. */
  lemma StripRemovesOnlySpace(s: string)
    ensures StrippedAt(s, Strip(s), |s| - |StripLeft(s)|)
    ensures Unpadded(Strip(s))
    ensures (forall k :: 0 <= k < |s| ==> IsSpace(s[k])) ==> Strip(s) == []
  {
    var l := StripLeft(s);
    StripLeftFacts(s);
    StripRightFacts(l);
    StrippedAfterBoth(s, l, StripRight(l));
    StripEndsUnpadded(l);
    var i := |s| - |l|;
    if Strip(s) != [] {
      assert Strip(s)[0] == s[i];
    }
  }

  /** `rstrip` after `lstrip` leaves neither end padded. */
  lemma StripEndsUnpadded(l: string)
    requires l == [] || !IsSpace(l[0])
    ensures Unpadded(StripRight(l))
  {
    var r := StripRight(l);
    StripRightFacts(l);
    if r != [] {
      assert r[0] == l[0];
    }
  }

  /** Taking whitespace off the front and then off the back leaves a slice of `s` with
      only whitespace around it. */
  lemma StrippedAfterBoth(s: string, l: string, r: string)
    requires |l| <= |s| && l == s[|s| - |l|..] && forall k :: 0 <= k < |s| - |l| ==> IsSpace(s[k])
    requires |r| <= |l| && r == l[..|r|] && forall k :: |r| <= k < |l| ==> IsSpace(l[k])
    ensures StrippedAt(s, r, |s| - |l|)
  {
    var i := |s| - |l|;
    assert r == s[i..i + |r|];
    forall k | i + |r| <= k < |s| ensures IsSpace(s[k]) {
      assert s[k] == l[k - i];
    }
  }

  /** `s` neither begins nor ends with whitespace. */
  predicate Unpadded(s: string) {
    s == [] || (!IsSpace(s[0]) && !IsSpace(s[|s| - 1]))
  }

  /** `r` is `s[i..i + |r|]` and every character of `s` outside that range is whitespace. */
  predicate StrippedAt(s: string, r: string, i: int) {
    0 <= i <= i + |r| <= |s| && r == s[i..i + |r|]
    && (forall k :: 0 <= k < i ==> IsSpace(s[k]))
    && (forall k :: i + |r| <= k < |s| ==> IsSpace(s[k]))
  }

  /** A string that neither begins nor ends with whitespace is its own strip. */
  lemma StripUnpadded(s: string)
    requires Unpadded(s)
    ensures Strip(s) == s
  {
  }

  /** `strip` is idempotent. */
  lemma StripIdempotent(s: string)
    ensures Strip(Strip(s)) == Strip(s)
  {
    StripRemovesOnlySpace(s);
    StripUnpadded(Strip(s));
  }

  // ------------------------------------------------------- split and join

  /** `'\n'.join(lines)`; the empty list joins to the empty string. */
  function JoinLines(lines: seq<string>): string {
    if |lines| == 0 then ""
    else if |lines| == 1 then lines[0]
    else lines[0] + "\n" + JoinLines(lines[1..])
  }

  /** No element of `lines` contains a newline. */
  predicate SingleLines(lines: seq<string>) {
    forall k :: 0 <= k < |lines| ==> '\n' !in lines[k]
  }

  /** `s.split('\n')`: at least one piece, no piece holds a newline, and joining the
      pieces with newlines gives `s` back. */
  function SplitLines(s: string): (r: seq<string>)
    ensures |r| >= 1
    ensures SingleLines(r)
    ensures JoinLines(r) == s
    decreases |s|
  {
    if |s| == 0 then [""]
    else if s[0] == '\n' then
      var rest := SplitLines(s[1..]);
      assert JoinLines([""] + rest) == "" + "\n" + JoinLines(rest) by {
        assert ([""] + rest)[1..] == rest;
      }
      assert s == "\n" + s[1..];
      [""] + rest
    else
      var rest := SplitLines(s[1..]);
      var r := [[s[0]] + rest[0]] + rest[1..];
      assert r[1..] == rest[1..];
      assert s == [s[0]] + s[1..];
      assert JoinLines(r) == [s[0]] + JoinLines(rest);
      r
  }

  /** Joining two non-empty lists is joining their joins. */
  lemma {:induction false} JoinAppend(a: seq<string>, b: seq<string>)
    requires |a| >= 1 && |b| >= 1
    ensures JoinLines(a + b) == JoinLines(a) + "\n" + JoinLines(b)
    decreases |a|
  {
    if |a| == 1 {
      assert (a + b)[1..] == b;
    } else {
      assert (a + b)[1..] == a[1..] + b;
      JoinAppend(a[1..], b);
    }
  }

  /** Splitting at a newline splits the two sides independently. */
  lemma {:induction false} SplitAppend(a: string, b: string)
    ensures SplitLines(a + "\n" + b) == SplitLines(a) + SplitLines(b)
    decreases |a|
  {
    if |a| == 0 {
      assert a + "\n" + b == "\n" + b;
      assert ("\n" + b)[1..] == b;
    } else {
      var s := a + "\n" + b;
      assert s[0] == a[0];
      assert s[1..] == a[1..] + "\n" + b;
      SplitAppend(a[1..], b);
      var ra, rb := SplitLines(a[1..]), SplitLines(b);
      if a[0] == '\n' {
        assert SplitLines(s) == [""] + (ra + rb);
        ConsAppend("", ra, rb);
      } else {
        assert SplitLines(s) == [[a[0]] + (ra + rb)[0]] + (ra + rb)[1..];
        HeadAppend(ra, rb, [a[0]] + ra[0]);
      }
    }
  }

  lemma ConsAppend<X>(x: X, p: seq<X>, q: seq<X>)
    ensures [x] + (p + q) == ([x] + p) + q
  {
  }

  /** A prefix grows by the slice that follows it. */
  lemma PrefixGrows<X>(s: seq<X>, i: nat, j: nat)
    requires i <= j <= |s|
    ensures s[..j] == s[..i] + s[i..j]
  {
  }

  /** A slice of a slice is a slice. */
  lemma SliceOfSlice<X>(s: seq<X>, i: nat, m: nat, j: nat, k: nat)
    requires i + m <= |s| && j <= k <= m
    ensures s[i..i + m][j..k] == s[i + j..i + k]
  {
    var t := s[i..i + m][j..k];
    assert |t| == k - j;
    forall n | 0 <= n < |t| ensures t[n] == s[i + j + n] {
      assert t[n] == s[i..i + m][j + n];
    }
  }

  /** Replacing the head of a non-empty list commutes with appending to it. */
  lemma HeadAppend<X>(p: seq<X>, q: seq<X>, x: X)
    requires |p| >= 1
    ensures [x] + (p + q)[1..] == ([x] + p[1..]) + q
  {
    assert (p + q)[1..] == p[1..] + q;
  }

  /** A string without newlines is one piece. */
  lemma {:induction false} SplitSingleLine(s: string)
    requires '\n' !in s
    ensures SplitLines(s) == [s]
    decreases |s|
  {
    if |s| > 0 {
      assert s[0] in s;
      assert forall c :: c in s[1..] ==> c in s;
      SplitSingleLine(s[1..]);
      assert s == [s[0]] + s[1..];
    }
  }

  /** Round trip: splitting the join of newline-free lines gives the lines back. */
  lemma {:induction false} SplitJoin(lines: seq<string>)
    requires |lines| >= 1 && SingleLines(lines)
    ensures SplitLines(JoinLines(lines)) == lines
    decreases |lines|
  {
    SplitSingleLine(lines[0]);
    if |lines| > 1 {
      SplitJoin(lines[1..]);
      SplitAppend(lines[0], JoinLines(lines[1..]));
      assert lines == [lines[0]] + lines[1..];
    }
  }

  /** Joining around one middle element. */
  lemma JoinAround(a: seq<string>, x: string, b: seq<string>)
    requires |a| >= 1 && |b| >= 1
    ensures JoinLines(a + [x] + b) == JoinLines(a) + "\n" + x + "\n" + JoinLines(b)
  {
    JoinAppend(a + [x], b);
    JoinAppend(a, [x]);
  }

  /** Splitting a join whose middle element may hold newlines: the middle element
      falls apart into its own lines, the single lines around it stay. */
  lemma SplitJoinAround(a: seq<string>, x: string, b: seq<string>)
    requires |a| >= 1 && |b| >= 1 && SingleLines(a) && SingleLines(b)
    ensures SplitLines(JoinLines(a + [x] + b)) == a + SplitLines(x) + b
  {
    JoinAround(a, x, b);
    SplitAppend(JoinLines(a) + "\n" + x, JoinLines(b));
    SplitAppend(JoinLines(a), x);
    SplitJoin(a);
    SplitJoin(b);
  }

  /** Joining the lines of `x` in place of `x` gives the same text. */
  lemma JoinSplitAround(a: seq<string>, x: string, b: seq<string>)
    requires |a| >= 1 && |b| >= 1
    ensures JoinLines(a + SplitLines(x) + b) == JoinLines(a + [x] + b)
  {
    JoinAppend(a + SplitLines(x), b);
    JoinAppend(a, SplitLines(x));
    JoinAround(a, x, b);
  }

  /** Splitting a join whose last element may hold newlines: that element falls apart
      into its own lines. */
  lemma SplitJoinAtEnd(a: seq<string>, x: string)
    requires |a| >= 1 && SingleLines(a)
    ensures SplitLines(JoinLines(a + [x])) == a + SplitLines(x)
  {
    JoinAppend(a, [x]);
    SplitAppend(JoinLines(a), x);
    SplitJoin(a);
  }

  /** Joining the lines of a last element is joining the element itself. */
  lemma JoinSplitAtEnd(a: seq<string>, x: string)
    requires |a| >= 1
    ensures JoinLines(a + SplitLines(x)) == JoinLines(a + [x])
  {
    JoinAppend(a, SplitLines(x));
    JoinAppend(a, [x]);
  }

  /** Four elements appended one group at a time are four elements appended. */
  lemma AppendFour<X>(pre: seq<X>, a: X, b: X, c: X, d: X)
    ensures (pre + [a]) + [b, c] + [d] == pre + [a, b, c, d]
    ensures (pre + [a]) + [b] + [c, d] == pre + [a, b, c, d]
  {
  }

  /** Regrouping a concatenation; stated over any element type, where it is cheap to
      prove. */
  lemma Regroup<X>(pre: seq<X>, a: X, b: X, c: X, d: X, post: seq<X>)
    ensures (pre + [a, b]) + [c] + ([d] + post) == pre + [a, b, c, d] + post
  {
  }

  /** Two elements put in after `pre`, in a sequence that continues past `pre`. */
  lemma SpliceAfterPrefix<X>(pre: seq<X>, mid: seq<X>, post: seq<X>, a: X, b: X)
    ensures var all := pre + mid + post;
            all[..|pre|] + [a, b] + all[|pre|..] == (pre + [a, b]) + mid + post
  {
    var all := pre + mid + post;
    assert all[..|pre|] == pre;
    assert all[|pre|..] == mid + post;
  }

  // ------------------------------------------------------------- replace

  /** `s.replace(pattern, replacement)`: every occurrence of `pattern`, scanning left to right without
      overlaps, replaced by `replacement`. (Python's special meaning of an empty `pattern` is not
      needed by the scripts.) */
  function ReplaceAll(s: string, pattern: string, replacement: string): string
    requires |pattern| > 0
    decreases |s|
  {
    if |s| < |pattern| then s
    else if s[..|pattern|] == pattern then replacement + ReplaceAll(s[|pattern|..], pattern, replacement)
    else [s[0]] + ReplaceAll(s[1..], pattern, replacement)
  }

  /** Replacing a pattern that does not occur changes nothing. */
  lemma {:induction false} ReplaceAbsent(s: string, pattern: string, replacement: string)
    requires |pattern| > 0 && !Occurs(s, pattern)
    ensures ReplaceAll(s, pattern, replacement) == s
    decreases |s|
  {
    if |s| >= |pattern| {
      assert !OccursAt(s, pattern, 0);
      assert !Occurs(s[1..], pattern) by {
        forall i | 0 <= i <= |s| - 1 - |pattern| ensures !OccursAt(s[1..], pattern, i) {
          SliceOfSlice(s, 1, |s| - 1, i, i + |pattern|);
          assert !OccursAt(s, pattern, i + 1);
        }
      }
      ReplaceAbsent(s[1..], pattern, replacement);
      assert s == [s[0]] + s[1..];
    }
  }

  /** One step of replacing a single character. */
  lemma ReplaceCharStep(s: string, c: char, replacement: string)
    requires |s| > 0
    ensures ReplaceAll(s, [c], replacement)
            == (if s[0] == c then replacement else [s[0]]) + ReplaceAll(s[1..], [c], replacement)
  {
    assert s[..1] == [s[0]];
  }

  /** Replacing a single character by a text that does not contain it leaves no copy
      of that character. */
  lemma {:induction false} ReplaceCharRemovesIt(s: string, c: char, replacement: string)
    requires c !in replacement
    ensures c !in ReplaceAll(s, [c], replacement)
    decreases |s|
  {
    if |s| > 0 {
      ReplaceCharRemovesIt(s[1..], c, replacement);
      ReplaceCharStep(s, c, replacement);
    }
  }

  /** Each replaced character grows the string by `|replacement| - 1`. */
  lemma {:induction false} ReplaceCharLength(s: string, c: char, replacement: string)
    ensures |ReplaceAll(s, [c], replacement)| == |s| + (|replacement| - 1) * multiset(s)[c]
    decreases |s|
  {
    if |s| > 0 {
      ReplaceCharLength(s[1..], c, replacement);
      ReplaceCharStep(s, c, replacement);
      CountAfterHead(s, c);
      MulSucc(|replacement| - 1, multiset(s[1..])[c]);
    }
  }

  lemma MulSucc(g: int, n: int)
    ensures g * (n + 1) == g * n + g
  {
  }

  /** The copies of `c` in `s` are those in its tail plus the head, if it is one. */
  lemma CountAfterHead(s: string, c: char)
    requires |s| > 0
    ensures multiset(s)[c] == multiset(s[1..])[c] + (if s[0] == c then 1 else 0)
  {
    assert s == [s[0]] + s[1..];
    assert multiset(s) == multiset{s[0]} + multiset(s[1..]);
  }

  /** Replacing `/` by `%2F` is undone by replacing `%2F` by `/`, for a text that holds
      no `%` of its own. */
  lemma {:induction false} PercentEncodeSlashRoundTrip(s: string)
    requires '%' !in s
    ensures ReplaceAll(ReplaceAll(s, "/", "%2F"), "%2F", "/") == s
    decreases |s|
  {
    if |s| > 0 {
      var t := s[1..];
      assert forall c :: c in t ==> c in s;
      PercentEncodeSlashRoundTrip(t);
      var et := ReplaceAll(t, "/", "%2F");
      assert s[..1] == [s[0]] && s[1..] == t;
      if s[0] == '/' {
        assert ReplaceAll(s, "/", "%2F") == "%2F" + et;
        DecodeAfterSlash(et);
      } else {
        assert s[0] in s;
        assert ReplaceAll(s, "/", "%2F") == [s[0]] + et;
        DecodeAfterOther(s[0], et);
      }
      assert s == [s[0]] + t;
    }
  }

  /** Decoding turns a leading `%2F` back into `/`. */
  lemma DecodeAfterSlash(rest: string)
    ensures ReplaceAll("%2F" + rest, "%2F", "/") == "/" + ReplaceAll(rest, "%2F", "/")
  {
    var e := "%2F" + rest;
    assert e[..3] == "%2F" && e[3..] == rest;
  }

  /** Decoding keeps a leading character other than `%`. */
  lemma DecodeAfterOther(x: char, rest: string)
    requires x != '%'
    ensures ReplaceAll([x] + rest, "%2F", "/") == [x] + ReplaceAll(rest, "%2F", "/")
  {
    var e := [x] + rest;
    if |e| >= 3 {
      assert e[..3][0] == x;
      assert e[1..] == rest;
    }
  }


  /** After `s.replace("###", "")` no `###` is left: within a run of `#` the removal
      takes three at a time from the left, leaving fewer than three. */
  lemma {:induction false} RemoveTripleHashLeavesNone(s: string)
    ensures !Occurs(ReplaceAll(s, "###", ""), "###")
    decreases |s|
  {
    if |s| < 3 {
      assert ReplaceAll(s, "###", "") == s;
    } else if s[..3] == "###" {
      RemoveTripleHashLeavesNone(s[3..]);
      assert ReplaceAll(s, "###", "") == "" + ReplaceAll(s[3..], "###", "");
      assert "" + ReplaceAll(s[3..], "###", "") == ReplaceAll(s[3..], "###", "");
    } else {
      var t := s[1..];
      RemoveTripleHashLeavesNone(t);
      if s[0] == '#' {
        assert t[..2] != "##" by { assert s[..3] == [s[0]] + t[..2]; }
        RemoveKeepsNoDoubleHash(t);
      }
      ConsNoTripleHash(s[0], ReplaceAll(t, "###", ""));
    }
  }

  /** Removing `###` from a text that does not begin with `##` gives one that does not. */
  lemma RemoveKeepsNoDoubleHash(t: string)
    requires |t| >= 2 && t[..2] != "##"
    ensures !StartsWith(ReplaceAll(t, "###", ""), "##")
  {
    var rt := ReplaceAll(t, "###", "");
    if t[0] != '#' {
      RemoveKeepsFirst(t);
      assert |rt| < 2 || rt[..2][0] == rt[0];
    } else if |t| >= 3 {
      assert t[1] != '#' by { assert t[..2] == [t[0], t[1]]; }
      assert t[..3] != "###" by { assert t[..3][1] == t[1]; }
      var rest := ReplaceAll(t[1..], "###", "");
      RemoveKeepsFirst(t[1..]);
      assert rt == [t[0]] + rest;
      assert rt[1] == t[1];
      assert |rt| < 2 || rt[..2][1] == rt[1];
    } else {
      assert rt == t;
    }
  }

  /** Putting a character in front of a text without `###` makes none, unless it is a
      `#` before `##`. */
  lemma ConsNoTripleHash(c: char, x: string)
    requires !Occurs(x, "###")
    requires c == '#' ==> !StartsWith(x, "##")
    ensures !Occurs([c] + x, "###")
  {
    var y := [c] + x;
    forall i | 0 <= i <= |y| - 3 ensures !OccursAt(y, "###", i) {
      if i == 0 {
        assert y[..3][0] == c && y[..3][1..] == x[..2];
        if c == '#' {
          assert x[..2] != "##";
        }
      } else {
        SliceOfSlice(y, 1, |x|, i - 1, i + 2);
        assert y[1..1 + |x|] == x;
        assert !OccursAt(x, "###", i - 1);
      }
    }
  }

  /** Removing `###` keeps a first character that is not `#`. */
  lemma RemoveKeepsFirst(s: string)
    requires |s| > 0 && s[0] != '#'
    ensures |ReplaceAll(s, "###", "")| > 0 && ReplaceAll(s, "###", "")[0] == s[0]
  {
    if |s| >= 3 {
      assert s[..3] != "###";
    }
  }

  // ------------------------------------------------------------- lower case

  function LowerChar(c: char): char {
    if 'A' <= c <= 'Z' then (c as int + 32) as char else c
  }

  /** `s.lower()` on ASCII letters; other characters are left as they are. */
  function LowerAscii(s: string): (r: string)
    ensures |r| == |s|
    ensures forall k :: 0 <= k < |s| ==> r[k] == LowerChar(s[k])
  {
    seq(|s|, k requires 0 <= k < |s| => LowerChar(s[k]))
  }

  // ----------------------------------------------------------- searching

  /** The index of the first element satisfying `p`, `None` when there is none:
      the `for ... : if ...: break` idiom. */
  function FirstWhere<T>(s: seq<T>, p: T -> bool): (r: Option<nat>)
    ensures r.None? <==> forall k :: 0 <= k < |s| ==> !p(s[k])
    ensures r.Some? ==> r.value < |s| && p(s[r.value])
                        && forall k :: 0 <= k < r.value ==> !p(s[k])
  {
    if |s| == 0 then None
    else if p(s[0]) then Some(0)
    else
      match FirstWhere(s[1..], p)
      case None => None
      case Some(k) => Some(k + 1)
  }

  /** The first-match index is determined by the two properties that define it. */
  lemma FirstWhereIs<T>(s: seq<T>, p: T -> bool, i: nat)
    requires i < |s| && p(s[i])
    requires forall k :: 0 <= k < i ==> !p(s[k])
    ensures FirstWhere(s, p) == Some(i)
  {
  }

  /** A search that found nothing in `s[..i]` finds nothing in `s[..i + 1]` either when
      `s[i]` fails the test: the invariant of the search loop. */
  lemma FirstWhereNoneExtend<T>(s: seq<T>, p: T -> bool, i: nat)
    requires i < |s| && FirstWhere(s[..i], p).None? && !p(s[i])
    ensures FirstWhere(s[..i + 1], p).None?
  {
    var t := s[..i + 1];
    forall k | 0 <= k < |t| ensures !p(t[k]) {
      if k < i {
        assert t[k] == s[..i][k];
      }
    }
  }

  /** When nothing before `i` passes the test and `s[i]` does, the search stops at `i`. */
  lemma FirstWhereAfterNone<T>(s: seq<T>, p: T -> bool, i: nat)
    requires i < |s| && FirstWhere(s[..i], p).None? && p(s[i])
    ensures FirstWhere(s, p) == Some(i)
  {
    forall k | 0 <= k < i ensures !p(s[k]) {
      assert s[..i][k] == s[k];
    }
    FirstWhereIs(s, p, i);
  }

  /** A search that found nothing in all of `s` finds nothing in `s`. */
  lemma FirstWhereNoneAll<T>(s: seq<T>, p: T -> bool)
    requires FirstWhere(s[..|s|], p).None?
    ensures FirstWhere(s, p).None?
  {
    assert s[..|s|] == s;
  }

  // --------------------------------------------------------------- digits

  function DigitChar(d: nat): char
    requires d < 10
  {
    ('0' as int + d) as char
  }

  function DigitValue(c: char): nat
    requires IsDigit(c)
  {
    c as int - '0' as int
  }

  function Pow10(n: nat): nat {
    if n == 0 then 1 else 10 * Pow10(n - 1)
  }

  /** `n` in decimal, zero-padded to `width` digits (`%0<width>d`, as `strftime` prints
      its fields). */
  function Digits(n: nat, width: nat): (r: string)
    requires n < Pow10(width)
    ensures |r| == width && AllDigits(r)
  {
    if width == 0 then ""
    else Digits(n / 10, width - 1) + [DigitChar(n % 10)]
  }

  /** The number a string of decimal digits denotes. */
  function DecimalValue(s: string): nat
    requires AllDigits(s)
  {
    if |s| == 0 then 0
    else 10 * DecimalValue(s[..|s| - 1]) + DigitValue(s[|s| - 1])
  }

  /** Round trip: the padded digits of `n` denote `n`. */
  lemma {:induction false} DecimalValueOfDigits(n: nat, width: nat)
    requires n < Pow10(width)
    ensures DecimalValue(Digits(n, width)) == n
  {
    if width > 0 {
      DecimalValueOfDigits(n / 10, width - 1);
      var d := Digits(n, width);
      assert d[..|d| - 1] == Digits(n / 10, width - 1);
    }
  }
}
