/** The text sanitizer (`cleanHtml`, `truncateText`): markup removal, entity
    decoding, whitespace normalisation and hard truncation. */
module Sanitize {
  import opened Strings

  /** No whitespace at either end. */
  predicate NoOuterWhitespace(s: string) {
    |s| == 0 || (!IsWhitespace(s[0]) && !IsWhitespace(s[|s| - 1]))
  }

  /** No two whitespace characters next to each other. */
  predicate NoDoubleWhitespace(s: string) {
    forall i :: 0 < i < |s| ==> !(IsWhitespace(s[i - 1]) && IsWhitespace(s[i]))
  }

  /** The plain space is the only whitespace character left. */
  predicate SpacesOnly(s: string) {
    forall i :: 0 <= i < |s| && IsWhitespace(s[i]) ==> s[i] == ' '
  }

  predicate AllWhitespace(s: string) {
    forall i :: 0 <= i < |s| ==> IsWhitespace(s[i])
  }

  /** No `<` is followed, anywhere later, by a `>`: nothing matching `<[^>]*>` is left. */
  predicate TagFree(s: string) {
    forall i, j :: 0 <= i < j < |s| && s[i] == '<' ==> s[j] != '>'
  }

  /** The text with every whitespace character removed: what whitespace
      normalisation must leave untouched. */
  function Squeeze(s: string): (r: string)
    ensures |r| <= |s|
  {
    if s == [] then []
    else if IsWhitespace(s[0]) then Squeeze(s[1..])
    else [s[0]] + Squeeze(s[1..])
  }

  // ---------------------------------------------------------------- tags

  /** What follows the first `c` in `s`. */
  function AfterFirst(s: string, c: char): (r: string)
    requires c in s
    ensures |r| < |s| && r == s[|s| - |r|..]
    ensures s[|s| - |r| - 1] == c && c !in s[..|s| - |r| - 1]
  {
    if s[0] == c then s[1..] else AfterFirst(s[1..], c)
  }

  /** `text.replace(/<[^>]*>/g, '')`: scanning left to right, a `<` that has a
      `>` somewhere after it is removed together with everything up to and
      including the first such `>`; a `<` without one is kept. */
  function StripTags(s: string): (r: string)
    ensures |r| <= |s|
    ensures forall k :: 0 <= k < |r| ==> r[k] in s
    ensures TagFree(r)
    decreases |s|
  {
    if s == [] then []
    else if s[0] == '<' && '>' in s[1..] then
      var rest := AfterFirst(s[1..], '>');
      var r := StripTags(rest);
      CharsOfSuffix(s, rest, r);
      r
    else
      var tail := StripTags(s[1..]);
      CharNotInPart(tail, s[1..], '>');
      ConsTagFree(s[0], tail);
      CharsOfCons(s, tail);
      [s[0]] + tail
  }

  /** Characters drawn from a suffix of `s` are characters of `s`. */
  lemma CharsOfSuffix(s: string, rest: string, r: string)
    requires |rest| <= |s| && rest == s[|s| - |rest|..]
    requires forall k :: 0 <= k < |r| ==> r[k] in rest
    ensures forall k :: 0 <= k < |r| ==> r[k] in s
  {
    forall k | 0 <= k < |r| ensures r[k] in s {
      var j :| 0 <= j < |rest| && rest[j] == r[k];
      assert rest[j] == s[|s| - |rest| + j];
    }
  }

  lemma CharsOfCons(s: string, tail: string)
    requires |s| > 0 && forall k :: 0 <= k < |tail| ==> tail[k] in s[1..]
    ensures forall k :: 0 <= k < |[s[0]] + tail| ==> ([s[0]] + tail)[k] in s
  {
    forall k | 0 <= k < |[s[0]] + tail| ensures ([s[0]] + tail)[k] in s {
      if k > 0 {
        var c := tail[k - 1];
        var j :| 0 <= j < |s[1..]| && s[1..][j] == c;
        assert s[j + 1] == c;
      }
    }
  }

  lemma CharNotInPart(part: string, whole: string, c: char)
    requires forall k :: 0 <= k < |part| ==> part[k] in whole
    ensures c !in whole ==> c !in part
  {
  }

  lemma ConsTagFree(c: char, tail: string)
    requires TagFree(tail) && (c == '<' ==> '>' !in tail)
    ensures TagFree([c] + tail)
  {
    var r := [c] + tail;
    forall i, j | 0 <= i < j < |r| && r[i] == '<' ensures r[j] != '>' {
      if i == 0 {
        assert r[j] == tail[j - 1];
      } else {
        assert r[i] == tail[i - 1] && r[j] == tail[j - 1];
      }
    }
  }

  lemma {:induction false} StripTagsKeepsTaglessText(s: string)
    requires '<' !in s
    ensures StripTags(s) == s
    decreases |s|
  {
    if s != [] {
      StripTagsKeepsTaglessText(s[1..]);
    }
  }

  /** Text before the first `<` passes through untouched. */
  lemma {:induction false} StripTagsSkipsPrefix(p: string, t: string)
    requires '<' !in p
    ensures StripTags(p + t) == p + StripTags(t)
    decreases |p|
  {
    if p == [] {
      AppendEmpty(t);
      AppendEmpty(StripTags(t));
    } else {
      StripTagsSkipsPrefix(p[1..], t);
      DropOfAppend(p, t);
      ConsTail(p, StripTags(t));
      AppendAssoc([p[0]], p[1..], StripTags(t));
    }
  }

  /** What follows the first `c` of `pre + [c] + t`, when `pre` has no `c`, is `t`. */
  lemma AfterFirstAt(pre: string, c: char, t: string)
    requires c !in pre
    ensures AfterFirst(pre + [c] + t, c) == t
  {
    var s := pre + [c] + t;
    var r := AfterFirst(s, c);
    var n := |s| - |r| - 1;
    assert s[|pre|] == c;
    assert forall k :: 0 <= k < |pre| ==> s[k] == pre[k];
    assert n == |pre|;
    SliceOfThree(pre, [c], t);
  }

  /** A whole tag, `<` up to the first `>`, is removed with nothing left behind. */
  lemma StripTagsDropsTag(body: string, t: string)
    requires '>' !in body
    ensures StripTags("<" + body + ">" + t) == StripTags(t)
  {
    var s := "<" + body + ">" + t;
    assert s[1..] == body + ">" + t;
    assert s[1..][|body|] == '>';
    AfterFirstAt(body, '>', t);
  }

  /** Text with no `>` holds no tag, so even its `<` characters are kept. */
  lemma {:induction false} StripTagsKeepsUnclosed(s: string)
    requires '>' !in s
    ensures StripTags(s) == s
    decreases |s|
  {
    if s != [] {
      assert '>' !in s[1..];
      StripTagsKeepsUnclosed(s[1..]);
    }
  }

  // ---------------------------------------------------------------- entities

  /** `s.replace(/pat/g, rep)` for a literal pattern: matches are found left to
      right, do not overlap, and the replacement text is never rescanned. */
  function ReplaceAll(s: string, pat: string, rep: string): (r: string)
    requires |pat| > 0
    ensures |rep| <= |pat| ==> |r| <= |s|
    ensures !Contains(s, pat) ==> r == s
    decreases |s|
  {
    if s == [] then []
    else if StartsWith(s, pat) then rep + ReplaceAll(s[|pat|..], pat, rep)
    else
      assert !Contains(s, pat) ==> !Contains(s[1..], pat) by {
        if Contains(s[1..], pat) {
          var i :| OccursAt(s[1..], pat, i);
          assert s[1..][i..i + |pat|] == s[i + 1..i + 1 + |pat|];
          assert OccursAt(s, pat, i + 1);
        }
      }
      [s[0]] + ReplaceAll(s[1..], pat, rep)
  }

  /** `s.split(pat)`: the pieces between left-to-right, non-overlapping matches. */
  function Split(s: string, pat: string): (parts: seq<string>)
    requires |pat| > 0
    ensures |parts| >= 1
    decreases |s|
  {
    if s == [] then [[]]
    else if StartsWith(s, pat) then [[]] + Split(s[|pat|..], pat)
    else
      var t := Split(s[1..], pat);
      [[s[0]] + t[0]] + t[1..]
  }

  /** Replacing every match is splitting at the matches and joining with the
      replacement (the `s.split(pat).join(rep)` idiom). */
  lemma {:induction false} ReplaceAllIsSplitJoin(s: string, pat: string, rep: string)
    requires |pat| > 0
    ensures ReplaceAll(s, pat, rep) == Join(Split(s, pat), rep)
    decreases |s|
  {
    if s == [] {
    } else if StartsWith(s, pat) {
      ReplaceAllIsSplitJoin(s[|pat|..], pat, rep);
      var t := Split(s[|pat|..], pat);
      DropOfAppend([[]], t);
      AppendEmpty(rep);
    } else {
      ReplaceAllIsSplitJoin(s[1..], pat, rep);
      var t := Split(s[1..], pat);
      var parts := [[s[0]] + t[0]] + t[1..];
      DropOfAppend([[s[0]] + t[0]], t[1..]);
      if |t| > 1 {
        Regroup([s[0]], t[0], rep, Join(t[1..], rep));
      }
    }
  }

  /** Joining the pieces of a split with the pattern itself gives back the text. */
  lemma {:induction false} SplitJoinRoundTrip(s: string, pat: string)
    requires |pat| > 0
    ensures Join(Split(s, pat), pat) == s
  {
    ReplaceAllIsSplitJoin(s, pat, pat);
    ReplaceAllWithItself(s, pat);
  }

  lemma {:induction false} ReplaceAllWithItself(s: string, pat: string)
    requires |pat| > 0
    ensures ReplaceAll(s, pat, pat) == s
    decreases |s|
  {
    if s == [] {
    } else if StartsWith(s, pat) {
      ReplaceAllWithItself(s[|pat|..], pat);
      assert s == pat + s[|pat|..];
    } else {
      ReplaceAllWithItself(s[1..], pat);
    }
  }

  /** The four entities, decoded in this fixed order, `&amp;` first, each pass
      over the output of the previous one. */
  function DecodeEntities(s: string): (r: string)
    ensures |r| <= |s|
  {
    var a := ReplaceAll(s, "&amp;", "&");
    var b := ReplaceAll(a, "&lt;", "<");
    var c := ReplaceAll(b, "&gt;", ">");
    ReplaceAll(c, "&quot;", "\"")
  }

  // ---------------------------------------------------------------- whitespace

  /** `s.trimStart()` */
  function TrimStart(s: string): (r: string)
    ensures |r| <= |s| && r == s[|s| - |r|..]
    ensures AllWhitespace(s[..|s| - |r|])
    ensures |r| == 0 || !IsWhitespace(r[0])
  {
    if s != [] && IsWhitespace(s[0]) then
      var r := TrimStart(s[1..]);
      DropLeadingSpace(s, r);
      r
    else s
  }

  /** Trimming the start removes whitespace only. */
  lemma {:induction false} TrimStartKeepsSqueeze(s: string)
    ensures Squeeze(TrimStart(s)) == Squeeze(s)
    decreases |s|
  {
    if s != [] && IsWhitespace(s[0]) {
      TrimStartKeepsSqueeze(s[1..]);
    }
  }

  /** Dropping one leading whitespace character keeps a trimmed suffix a
      suffix, behind whitespace only. */
  lemma DropLeadingSpace(s: string, r: string)
    requires s != [] && IsWhitespace(s[0])
    requires |r| <= |s| - 1 && r == s[1..][|s| - 1 - |r|..] && AllWhitespace(s[1..][..|s| - 1 - |r|])
    ensures r == s[|s| - |r|..] && AllWhitespace(s[..|s| - |r|])
  {
    var n := |s| - |r|;
    assert r == s[n..] by {
      assert s[1..][n - 1..] == s[n..];
    }
    assert AllWhitespace(s[..n]) by {
      WhitespacePrefix(s, n);
    }
  }

  /** A whitespace character before a whitespace prefix of the rest. */
  lemma WhitespacePrefix(s: string, n: nat)
    requires 0 < n <= |s| && IsWhitespace(s[0]) && AllWhitespace(s[1..][..n - 1])
    ensures AllWhitespace(s[..n])
  {
    var w := s[1..][..n - 1];
    forall i | 0 <= i < n
      ensures IsWhitespace(s[..n][i])
    {
      if i > 0 {
        assert s[..n][i] == w[i - 1];
      }
    }
  }

  /** `s.trimEnd()` */
  function TrimEnd(s: string): (r: string)
    ensures |r| <= |s| && r == s[..|r|]
    ensures AllWhitespace(s[|r|..])
    ensures |r| == 0 || !IsWhitespace(r[|r| - 1])
  {
    if s != [] && IsWhitespace(s[|s| - 1]) then TrimEnd(s[..|s| - 1]) else s
  }

  lemma SliceKeepsSpacing(s: string, i: nat, j: nat)
    requires i <= j <= |s|
    ensures NoDoubleWhitespace(s) ==> NoDoubleWhitespace(s[i..j])
    ensures SpacesOnly(s) ==> SpacesOnly(s[i..j])
  {
    var t := s[i..j];
    assert forall k :: 0 <= k < |t| ==> t[k] == s[i + k];
  }

  /** `s.trim()`: the text between the leading and the trailing whitespace. */
  function Trim(s: string): (r: string)
    ensures |r| <= |s|
    ensures NoOuterWhitespace(r)
    ensures NoDoubleWhitespace(s) ==> NoDoubleWhitespace(r)
    ensures SpacesOnly(s) ==> SpacesOnly(r)
    ensures exists i :: TrimmedAt(s, r, i)
  {
    var a := TrimStart(s);
    var r := TrimEnd(a);
    TrimmedSlice(s, a, r, |s| - |a|);
    r
  }

  /** Trimming removes whitespace only: every other character survives, in order. */
  lemma TrimKeepsSqueeze(s: string)
    ensures Squeeze(Trim(s)) == Squeeze(s)
  {
    TrimStartKeepsSqueeze(s);
    DropTrailingSpace(TrimStart(s), Trim(s));
  }

  /** Squeezing distributes over concatenation. */
  lemma {:induction false} SqueezeConcat(a: string, b: string)
    ensures Squeeze(a + b) == Squeeze(a) + Squeeze(b)
  {
    if a == [] {
      AppendEmpty(b);
    } else {
      SqueezeConcat(a[1..], b);
      DropOfAppend(a, b);
      if !IsWhitespace(a[0]) {
        AppendAssoc([a[0]], Squeeze(a[1..]), Squeeze(b));
      }
    }
  }

  lemma {:induction false} SqueezeOfWhitespace(w: string)
    requires AllWhitespace(w)
    ensures Squeeze(w) == []
  {
    if w != [] {
      assert AllWhitespace(w[1..]) by {
        forall i | 0 <= i < |w[1..]| ensures IsWhitespace(w[1..][i]) {
          assert w[1..][i] == w[i + 1];
        }
      }
      SqueezeOfWhitespace(w[1..]);
    }
  }

  /** Dropping trailing whitespace keeps every other character. */
  lemma DropTrailingSpace(a: string, r: string)
    requires |r| <= |a| && r == a[..|r|] && AllWhitespace(a[|r|..])
    ensures Squeeze(r) == Squeeze(a)
  {
    assert a == r + a[|r|..];
    SqueezeConcat(r, a[|r|..]);
    SqueezeOfWhitespace(a[|r|..]);
    AppendEmpty(Squeeze(r));
  }

  /** `r` is `s` with exactly the whitespace before position `i` and after
      position `i + |r|` removed. */
  predicate TrimmedAt(s: string, r: string, i: int) {
    0 <= i <= |s| - |r| && r == s[i..i + |r|] && AllWhitespace(s[..i]) && AllWhitespace(s[i + |r|..])
  }

  lemma PrefixOfSuffix(s: string, a: string, r: string, i: nat)
    requires i <= |s| && a == s[i..] && |r| <= |a| && r == a[..|r|]
    ensures r == s[i..i + |r|]
  {
    assert forall k :: 0 <= k < |r| ==> r[k] == s[i + k];
  }

  lemma TrimmedSlice(s: string, a: string, r: string, i: nat)
    requires i <= |s| && a == s[i..] && AllWhitespace(s[..i])
    requires |r| <= |a| && r == a[..|r|] && AllWhitespace(a[|r|..])
    requires (|a| == 0 || !IsWhitespace(a[0])) && (|r| == 0 || !IsWhitespace(r[|r| - 1]))
    ensures TrimmedAt(s, r, i)
    ensures NoOuterWhitespace(r)
    ensures NoDoubleWhitespace(s) ==> NoDoubleWhitespace(r)
    ensures SpacesOnly(s) ==> SpacesOnly(r)
  {
    PrefixOfSuffix(s, a, r, i);
    assert s[i + |r|..] == a[|r|..];
    SliceKeepsSpacing(s, i, i + |r|);
  }

  /** `s.replace(/\s+/g, ' ')`: every maximal run of whitespace becomes one space. */
  function CollapseWhitespace(s: string): (r: string)
    ensures |r| <= |s|
    ensures |r| == 0 <==> |s| == 0
    ensures |s| > 0 && IsWhitespace(s[0]) ==> r[0] == ' '
    ensures |s| > 0 && !IsWhitespace(s[0]) ==> r[0] == s[0]
    decreases |s|
  {
    if s == [] then []
    else if IsWhitespace(s[0]) then [' '] + CollapseWhitespace(TrimStart(s))
    else [s[0]] + CollapseWhitespace(s[1..])
  }

  /** The collapse leaves only single spaces as whitespace, and keeps every
      other character in order. */
  lemma {:induction false} CollapseNormalises(s: string)
    ensures SpacesOnly(CollapseWhitespace(s)) && NoDoubleWhitespace(CollapseWhitespace(s))
    ensures Squeeze(CollapseWhitespace(s)) == Squeeze(s)
    decreases |s|
  {
    if s == [] {
    } else if IsWhitespace(s[0]) {
      CollapseNormalises(TrimStart(s));
      CollapseSpaceStep(s);
    } else {
      CollapseNormalises(s[1..]);
      CollapseCharStep(s);
    }
  }

  /** A leading run of whitespace collapses to one space before a normalised rest. */
  lemma CollapseSpaceStep(s: string)
    requires s != [] && IsWhitespace(s[0])
    requires var tail := CollapseWhitespace(TrimStart(s));
             SpacesOnly(tail) && NoDoubleWhitespace(tail) && Squeeze(tail) == Squeeze(TrimStart(s))
    ensures SpacesOnly(CollapseWhitespace(s)) && NoDoubleWhitespace(CollapseWhitespace(s))
    ensures Squeeze(CollapseWhitespace(s)) == Squeeze(s)
  {
    var rest := TrimStart(s);
    var tail := CollapseWhitespace(rest);
    assert CollapseWhitespace(s) == [' '] + tail;
    assert Squeeze(s) == Squeeze(rest) by {
      TrimStartKeepsSqueeze(s);
    }
    assert Squeeze([' '] + tail) == Squeeze(tail) by {
      assert ([' '] + tail)[1..] == tail;
    }
    ConsSpacing(' ', tail);
  }

  /** A leading non-whitespace character is kept before a normalised rest. */
  lemma CollapseCharStep(s: string)
    requires s != [] && !IsWhitespace(s[0])
    requires var tail := CollapseWhitespace(s[1..]);
             SpacesOnly(tail) && NoDoubleWhitespace(tail) && Squeeze(tail) == Squeeze(s[1..])
    ensures SpacesOnly(CollapseWhitespace(s)) && NoDoubleWhitespace(CollapseWhitespace(s))
    ensures Squeeze(CollapseWhitespace(s)) == Squeeze(s)
  {
    var tail := CollapseWhitespace(s[1..]);
    assert CollapseWhitespace(s) == [s[0]] + tail;
    assert Squeeze([s[0]] + tail) == [s[0]] + Squeeze(tail) by {
      assert ([s[0]] + tail)[1..] == tail;
    }
    ConsSpacing(s[0], tail);
  }

  /** Putting a character in front keeps the spacing, unless it makes a
      double whitespace. */
  lemma ConsSpacing(c: char, t: string)
    requires SpacesOnly(t) && NoDoubleWhitespace(t)
    requires IsWhitespace(c) ==> c == ' ' && (|t| == 0 || !IsWhitespace(t[0]))
    ensures SpacesOnly([c] + t) && NoDoubleWhitespace([c] + t)
  {
    var r := [c] + t;
    assert forall i :: 0 < i < |r| ==> r[i] == t[i - 1];
  }

  /** `cleanHtml`: strip tags, decode the four entities, collapse whitespace, trim. */
  function CleanHtml(text: string): (r: string)
    ensures |r| <= |text|
    ensures NoOuterWhitespace(r) && NoDoubleWhitespace(r) && SpacesOnly(r)
  {
    var decoded := DecodeEntities(StripTags(text));
    CollapseNormalises(decoded);
    Trim(CollapseWhitespace(decoded))
  }

  /** What `cleanHtml` promises: its result is no longer than its input, has
      single spaces as its only whitespace and none at either end, and keeps
      every other character of the decoded, tag-free text, in order. */
  lemma CleanHtmlNormalises(text: string)
    ensures |CleanHtml(text)| <= |text|
    ensures NoOuterWhitespace(CleanHtml(text)) && NoDoubleWhitespace(CleanHtml(text)) && SpacesOnly(CleanHtml(text))
    ensures Squeeze(CleanHtml(text)) == Squeeze(DecodeEntities(StripTags(text)))
  {
    var decoded := DecodeEntities(StripTags(text));
    CollapseNormalises(decoded);
    TrimKeepsSqueeze(CollapseWhitespace(decoded));
  }

  // ---------------------------------------------------------------- truncation

  /** `truncateText`: a hard cut to `maxLength` characters followed by `...`,
      or the text itself when it is short enough. */
  function Truncate(text: string, maxLength: nat): (r: string)
    ensures |text| <= maxLength ==> r == text
    ensures |text| > maxLength ==> |r| == maxLength + 3 && r[..maxLength] == text[..maxLength]
                                   && r[maxLength..] == "..."
  {
    if |text| > maxLength then text[..maxLength] + "..." else text
  }

  // ---------------------------------------------------------------- properties

  lemma {:induction false} NoOccurrenceWithoutFirstChar(s: string, pat: string)
    requires |pat| > 0 && pat[0] !in s
    ensures !Contains(s, pat)
  {
  }

  lemma {:induction false} CollapseKeepsNormalText(s: string)
    requires NoDoubleWhitespace(s) && SpacesOnly(s)
    ensures CollapseWhitespace(s) == s
    decreases |s|
  {
    if s != [] {
      var t := s[1..];
      assert NoDoubleWhitespace(t) && SpacesOnly(t) by {
        assert forall k :: 0 <= k < |t| ==> t[k] == s[k + 1];
      }
      CollapseKeepsNormalText(t);
      if IsWhitespace(s[0]) {
        assert |t| == 0 || !IsWhitespace(t[0]);
        assert TrimStart(s) == t;
      }
    }
  }

  /** A word without whitespace passes through the collapse unchanged. */
  lemma {:induction false} CollapseSkipsWord(p: string, t: string)
    requires forall i :: 0 <= i < |p| ==> !IsWhitespace(p[i])
    ensures CollapseWhitespace(p + t) == p + CollapseWhitespace(t)
    decreases |p|
  {
    if p == [] {
      assert p + t == t;
    } else {
      var q := p[1..];
      assert forall i :: 0 <= i < |q| ==> q[i] == p[i + 1];
      CollapseSkipsWord(q, t);
      DropOfAppend(p, t);
      CollapseKeepsHead(p + t);
      ConsTail(p, CollapseWhitespace(t));
    }
  }

  lemma CollapseKeepsHead(s: string)
    requires |s| > 0 && !IsWhitespace(s[0])
    ensures CollapseWhitespace(s) == [s[0]] + CollapseWhitespace(s[1..])
  {
  }

  /** A whole run of whitespace becomes one space. */
  lemma CollapseRun(w: string, t: string)
    requires |w| > 0 && AllWhitespace(w)
    requires |t| == 0 || !IsWhitespace(t[0])
    ensures CollapseWhitespace(w + t) == " " + CollapseWhitespace(t)
  {
    TrimStartRun(w, t);
  }

  lemma {:induction false} TrimStartRun(w: string, t: string)
    requires AllWhitespace(w)
    requires |t| == 0 || !IsWhitespace(t[0])
    ensures TrimStart(w + t) == t
    decreases |w|
  {
    if w == [] {
      assert w + t == t;
    } else {
      assert (w + t)[0] == w[0] && (w + t)[1..] == w[1..] + t;
      TrimStartRun(w[1..], t);
    }
  }

  lemma TrimKeepsTrimmedText(s: string)
    requires NoOuterWhitespace(s)
    ensures Trim(s) == s
  {
    assert TrimStart(s) == s;
  }

  /** Text without markup, ampersands or irregular whitespace is a fixpoint of `cleanHtml`. */
  lemma CleanHtmlKeepsPlainText(s: string)
    requires '<' !in s && '&' !in s
    requires NoOuterWhitespace(s) && NoDoubleWhitespace(s) && SpacesOnly(s)
    ensures CleanHtml(s) == s
  {
    StripTagsKeepsTaglessText(s);
    NoOccurrenceWithoutFirstChar(s, "&amp;");
    NoOccurrenceWithoutFirstChar(s, "&lt;");
    NoOccurrenceWithoutFirstChar(s, "&gt;");
    NoOccurrenceWithoutFirstChar(s, "&quot;");
    assert DecodeEntities(s) == s;
    NormaliseKeepsNormalText(s);
  }

  /** Whitespace normalisation leaves already normalised text alone. */
  lemma NormaliseKeepsNormalText(t: string)
    requires NoOuterWhitespace(t) && NoDoubleWhitespace(t) && SpacesOnly(t)
    ensures Trim(CollapseWhitespace(t)) == t
  {
    CollapseKeepsNormalText(t);
    TrimKeepsTrimmedText(t);
  }

  lemma {:induction false} ReplaceAllSkipsPrefix(p: string, t: string, pat: string, rep: string)
    requires |pat| > 0 && pat[0] !in p
    ensures ReplaceAll(p + t, pat, rep) == p + ReplaceAll(t, pat, rep)
    decreases |p|
  {
    if p != [] {
      var s := p + t;
      DropOfAppend(p, t);
      assert !StartsWith(s, pat) by {
        if |pat| <= |s| {
          assert s[..|pat|][0] == s[0];
        }
      }
      ReplaceAllSkipsPrefix(p[1..], t, pat, rep);
      ConsTail(p, ReplaceAll(t, pat, rep));
    } else {
      AppendEmpty(t);
    }
  }

  lemma ReplaceAllAtMatch(t: string, pat: string, rep: string)
    requires |pat| > 0
    ensures ReplaceAll(pat + t, pat, rep) == rep + ReplaceAll(t, pat, rep)
  {
    assert (pat + t)[..|pat|] == pat;
    assert (pat + t)[|pat|..] == t;
  }

  lemma {:induction false} NoOccurrenceWithoutSecondChar(s: string, pat: string)
    requires |pat| >= 2
    requires forall i :: 0 <= i < |s| - 1 && s[i] == pat[0] ==> s[i + 1] != pat[1]
    ensures !Contains(s, pat)
  {
    if Contains(s, pat) {
      var i :| OccursAt(s, pat, i);
      OccurrenceStart(s, pat, i);
    }
  }

  lemma OccurrenceStart(s: string, pat: string, i: int)
    requires |pat| >= 2 && OccursAt(s, pat, i)
    ensures s[i] == pat[0] && s[i + 1] == pat[1]
  {
    assert s[i..i + |pat|][0] == s[i] && s[i..i + |pat|][1] == s[i + 1];
  }

  /** The `&amp;` pass turns the one escaped ampersand into `&` and does not
      look at the text it produced. */
  lemma AmpersandPassDecodesOnce(a: string, b: string)
    requires '&' !in a && '&' !in b
    ensures ReplaceAll(a + ("&amp;" + b), "&amp;", "&") == a + "&" + b
  {
    ReplaceAllSkipsPrefix(a, "&amp;" + b, "&amp;", "&");
    ReplaceAllAtMatch(b, "&amp;", "&");
    ReplaceAllSkipsPrefix(b, [], "&amp;", "&");
    assert b + [] == b;
  }

  /** Every `&` is followed by an `a`. */
  predicate AmpersandsStartA(t: string) {
    forall i :: 0 <= i < |t| && t[i] == '&' ==> i + 1 < |t| && t[i + 1] == 'a'
  }

  /** When every `&` starts `&a`, none of the last three entities occurs. */
  lemma LaterPassesKeep(t: string)
    requires AmpersandsStartA(t)
    ensures ReplaceAll(ReplaceAll(ReplaceAll(t, "&lt;", "<"), "&gt;", ">"), "&quot;", "\"") == t
  {
    PassKeeps(t, "&lt;", "<");
    PassKeeps(t, "&gt;", ">");
    PassKeeps(t, "&quot;", "\"");
  }

  lemma PassKeeps(t: string, pat: string, rep: string)
    requires AmpersandsStartA(t)
    requires |pat| >= 2 && pat[0] == '&' && pat[1] != 'a'
    ensures ReplaceAll(t, pat, rep) == t
  {
    NoOccurrenceWithoutSecondChar(t, pat);
  }

  /** Each entity pass runs once over the previous pass's output: a doubly
      escaped ampersand loses one level of escaping only. */
  lemma DecodeAmpersandOnce(s: string)
    requires s == "a &amp;amp; b"
    ensures DecodeEntities(s) == "a &amp; b"
  {
    var a, b := "a ", "amp; b";
    assert s == a + ("&amp;" + b);
    assert a + "&" + b == "a &amp; b";
    DecodeOneAmpersand(a, b, s);
  }

  /** Decoding `a&amp;b`, where `b` starts with `a` and holds no `&`, yields `a&b`. */
  lemma DecodeOneAmpersand(a: string, b: string, s: string)
    requires '&' !in a && '&' !in b && |b| > 0 && b[0] == 'a'
    requires s == a + ("&amp;" + b)
    ensures DecodeEntities(s) == a + "&" + b
  {
    AmpersandPassDecodesOnce(a, b);
    var t := a + "&" + b;
    assert AmpersandsStartA(t) by {
      forall i | 0 <= i < |t| && t[i] == '&'
        ensures i + 1 < |t| && t[i + 1] == 'a'
      {
        if i == |a| {
          assert t[i + 1] == b[0];
        }
      }
    }
    LaterPassesKeep(t);
  }

  /** The `&lt;` pass sees what the `&amp;` pass produced. */
  lemma LtPassAfterAmpersandPass(b: string)
    requires '&' !in b
    ensures ReplaceAll(ReplaceAll("&amp;" + ("lt;" + b), "&amp;", "&"), "&lt;", "<") == "<" + b
  {
    ReplaceAllAtMatch("lt;" + b, "&amp;", "&");
    NoOccurrenceWithoutFirstChar("lt;" + b, "&amp;");
    AmpersandThenLt(b);
    ReplaceAllAtMatch(b, "&lt;", "<");
    NoOccurrenceWithoutFirstChar(b, "&lt;");
  }

  lemma AmpersandThenLt(b: string)
    ensures "&" + ("lt;" + b) == "&lt;" + b
  {
  }

  /** `&amp;` is decoded first and the `&lt;` pass sees its output, so an
      escaped `&lt;` is decoded all the way to `<`. */
  lemma DecodeInSequence(s: string)
    requires s == "&amp;lt;"
    ensures DecodeEntities(s) == "<"
  {
    LtPassAfterAmpersandPass([]);
    assert s == "&amp;" + ("lt;" + []);
    assert "<" + [] == "<";
    NoOccurrenceWithoutFirstChar("<", "&gt;");
    NoOccurrenceWithoutFirstChar("<", "&quot;");
  }

  /** Text with no `<` and already normalised once decoded cleans to its decoding. */
  lemma CleanTaglessText(s: string)
    requires '<' !in s && Trim(CollapseWhitespace(DecodeEntities(s))) == DecodeEntities(s)
    ensures CleanHtml(s) == DecodeEntities(s)
  {
    StripTagsKeepsTaglessText(s);
  }

  /** `cleanHtml("a &amp;amp; b")` is `"a &amp; b"`, not `"a & b"`. */
  lemma CleanHtmlDecodesAmpersandOnce(s: string)
    requires s == "a &amp;amp; b"
    ensures CleanHtml(s) == "a &amp; b"
  {
    DecodeAmpersandOnce(s);
    DecodedAmpersandIsNormal(DecodeEntities(s));
    AmpersandExampleIsTagless(s);
    CleanTaglessText(s);
  }

  lemma AmpersandExampleIsTagless(s: string)
    requires s == "a &amp;amp; b"
    ensures '<' !in s
  {
    var a, b := "a ", "amp; b";
    assert s == a + ("&amp;" + b);
    assert '<' !in a && '<' !in "&amp;" && '<' !in b;
  }

  lemma DecodedAmpersandIsNormal(t: string)
    requires t == "a &amp; b"
    ensures Trim(CollapseWhitespace(t)) == t
  {
    NormaliseKeepsNormalText(t);
  }

  /** `cleanHtml("&amp;lt;")` is `"<"`. */
  lemma CleanHtmlDecodesInSequence(s: string)
    requires s == "&amp;lt;"
    ensures CleanHtml(s) == "<"
  {
    DecodeInSequence(s);
    DecodedLtIsNormal(DecodeEntities(s));
    CleanTaglessText(s);
  }

  lemma DecodedLtIsNormal(t: string)
    requires t == "<"
    ensures Trim(CollapseWhitespace(t)) == t
  {
    NormaliseKeepsNormalText(t);
  }

  /** Tags are stripped before entities are decoded, so an escaped tag comes
      out as a literal tag: `cleanHtml("&lt;b&gt;")` is `"<b>"`. */
  lemma CleanHtmlDecodesAfterStripping(s: string)
    requires s == "&lt;b&gt;"
    ensures CleanHtml(s) == "<b>"
  {
    DecodeEscapedB(s);
    DecodedTagIsNormal(DecodeEntities(s));
    CleanTaglessText(s);
  }

  lemma DecodeEscapedB(s: string)
    requires s == "&lt;b&gt;"
    ensures DecodeEntities(s) == "<b>"
  {
    assert s == "&lt;" + ("b" + "&gt;");
    DecodeEscapedTag("b");
    assert "<" + "b" + ">" == "<b>";
  }

  /** Decoding `&lt;b&gt;`, where `b` holds no `&`, yields `<b>`. */
  lemma DecodeEscapedTag(b: string)
    requires '&' !in b
    ensures DecodeEntities("&lt;" + (b + "&gt;")) == "<" + b + ">"
  {
    AmpPassKeepsEscapedTag(b);
    LtPassOfEscapedTag(b);
    GtPassOfEscapedTag(b);
    NoOccurrenceWithoutFirstChar("<" + b + ">", "&quot;");
  }

  lemma AmpPassKeepsEscapedTag(b: string)
    requires '&' !in b
    ensures ReplaceAll("&lt;" + (b + "&gt;"), "&amp;", "&") == "&lt;" + (b + "&gt;")
  {
    var s := "&lt;" + (b + "&gt;");
    assert forall j :: 0 <= j < |b| ==> s[4 + j] == b[j];
    assert forall i :: 0 <= i < |s| - 1 && s[i] == '&' ==> i == 0 || i == 4 + |b|;
    NoOccurrenceWithoutSecondChar(s, "&amp;");
  }

  lemma LtPassOfEscapedTag(b: string)
    requires '&' !in b
    ensures ReplaceAll("&lt;" + (b + "&gt;"), "&lt;", "<") == ("<" + b) + "&gt;"
  {
    ReplaceAllAtMatch(b + "&gt;", "&lt;", "<");
    ReplaceAllSkipsPrefix(b, "&gt;", "&lt;", "<");
    GtHasNoLt();
    AppendAssoc("<", b, "&gt;");
  }

  lemma GtHasNoLt()
    ensures ReplaceAll("&gt;", "&lt;", "<") == "&gt;"
  {
    NoOccurrenceWithoutSecondChar("&gt;", "&lt;");
  }

  lemma GtPassOfEscapedTag(b: string)
    requires '&' !in b
    ensures ReplaceAll(("<" + b) + "&gt;", "&gt;", ">") == "<" + b + ">"
  {
    ReplaceAllSkipsPrefix("<" + b, "&gt;", "&gt;", ">");
    ReplaceAllAtMatch([], "&gt;", ">");
    AppendEmpty("&gt;");
  }

  lemma DecodedTagIsNormal(t: string)
    requires t == "<b>"
    ensures Trim(CollapseWhitespace(t)) == t
  {
    NormaliseKeepsNormalText(t);
  }

  /** Truncation is idempotent: the marked result is cut at the same place again. */
  lemma TruncateIdempotent(s: string, n: nat)
    ensures Truncate(Truncate(s, n), n) == Truncate(s, n)
  {
    if |s| > n {
      var r := Truncate(s, n);
      assert r[..n] + "..." == r;
    }
  }

  /** The text is left as it is exactly when it fits, or when it already carries
      the marker at the cut position. */
  lemma TruncateFixpoint(s: string, n: nat)
    ensures Truncate(s, n) == s <==> |s| <= n || s[n..] == "..."
  {
    if |s| > n && s[n..] == "..." {
      assert s == s[..n] + s[n..];
    }
  }
}
