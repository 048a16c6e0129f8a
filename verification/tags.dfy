/** The formatting tags the profile editor toggles and the case-insensitive
    tag removal it uses to unwrap (`tagMap` and the unwrap branch of
    `applyFormatting` in the profile display). */
module Tags {
  import opened Js
  import opened Strings
  import opened Walk
  import Seqs

  /** A format's canonical tag pair and, for bold and italic, the legacy pair. */
  datatype TagSet = TagSet(open: string, close: string, legacy: Option<(string, string)>)

  /** The tag table; an unknown format name has no tags. */
  function TagsFor(format: string): Option<TagSet> {
    if format == "bold" then Some(TagSet("<strong>", "</strong>", Some(("<b>", "</b>"))))
    else if format == "italic" then Some(TagSet("<em>", "</em>", Some(("<i>", "</i>"))))
    else if format == "underline" then Some(TagSet("<u>", "</u>", None))
    else None
  }

  /** An opening tag and its closing tag: both tags, the closing one
      starting with `</`, the opening one not. */
  predicate TagPair(open: string, close: string) {
    IsTag(open) && IsTag(close) && close[1] == '/' && open[1] != '/'
  }

  predicate WellFormed(tags: TagSet) {
    TagPair(tags.open, tags.close)
    && (tags.legacy.Some? ==> TagPair(tags.legacy.value.0, tags.legacy.value.1))
  }

  /** Every entry of the tag table is a proper tag pair. */
  lemma TagTableWellFormed(format: string)
    requires TagsFor(format).Some?
    ensures WellFormed(TagsFor(format).value)
  {
  }

  /** Whether `html` holds both tags of the canonical pair, or both of the
      legacy pair (case-sensitive `includes`). */
  predicate HasTagPair(html: string, tags: TagSet) {
    (Contains(html, tags.open) && Contains(html, tags.close))
    || (tags.legacy.Some? && Contains(html, tags.legacy.value.0) && Contains(html, tags.legacy.value.1))
  }

  /** `s` starts with `pat`, comparing characters case-insensitively. */
  predicate PrefixIgnoreCase(s: string, pat: string)
    ensures PrefixIgnoreCase(s, pat) ==> |pat| <= |s|
    decreases |pat|
  {
    |pat| == 0
    || (|s| > 0 && LowerChar(s[0]) == LowerChar(pat[0]) && PrefixIgnoreCase(s[1..], pat[1..]))
  }

  /** The character-wise comparison agrees with lower-casing both sides. */
  lemma {:induction false} PrefixIgnoreCaseIff(s: string, pat: string)
    ensures PrefixIgnoreCase(s, pat) <==> |pat| <= |s| && Lower(s[..|pat|]) == Lower(pat)
    decreases |pat|
  {
    if |pat| > 0 && |s| > 0 {
      PrefixIgnoreCaseIff(s[1..], pat[1..]);
      if |pat| <= |s| {
        assert Lower(s[..|pat|]) == [LowerChar(s[0])] + Lower(s[1..][..|pat| - 1]);
        assert Lower(pat) == [LowerChar(pat[0])] + Lower(pat[1..]);
      }
    }
  }

  /** `s.replace(new RegExp(pat, 'gi'), '')` for a literal pattern: scanning
      left to right, every case-insensitive match is deleted and the scan
      resumes after it. */
  function RemoveAllIgnoreCase(s: string, pat: string): (r: string)
    requires pat != []
    ensures |r| <= |s|
    decreases |s|
  {
    if |s| == 0 then []
    else if PrefixIgnoreCase(s, pat) then RemoveAllIgnoreCase(s[|pat|..], pat)
    else [s[0]] + RemoveAllIgnoreCase(s[1..], pat)
  }

  /** Removal only deletes characters: what is left keeps its order. */
  lemma {:induction false} RemoveIsSubsequence(s: string, pat: string)
    requires pat != []
    ensures Seqs.IsSubsequence(RemoveAllIgnoreCase(s, pat), s)
    decreases |s|
  {
    if |s| > 0 {
      var r := RemoveAllIgnoreCase(s, pat);
      if PrefixIgnoreCase(s, pat) {
        RemoveIsSubsequence(s[|pat|..], pat);
        Seqs.SubsequenceOfSuffix(r, s, |pat|);
      } else {
        RemoveIsSubsequence(s[1..], pat);
        assert r[0] == s[0] && r[1..] == RemoveAllIgnoreCase(s[1..], pat);
      }
    }
  }

  /** Two strings whose characters at `j` differ even after lower-casing
      do not match at 0. */
  lemma {:induction false} NoMatchWhereDiffering(s: string, pat: string, j: nat)
    requires j < |s| && j < |pat| && LowerChar(s[j]) != LowerChar(pat[j])
    ensures !PrefixIgnoreCase(s, pat)
    decreases j
  {
    if j > 0 {
      NoMatchWhereDiffering(s[1..], pat[1..], j - 1);
    }
  }

  lemma RemoveKeepsHead(s: string, pat: string)
    requires pat != [] && |s| > 0 && !PrefixIgnoreCase(s, pat)
    ensures RemoveAllIgnoreCase(s, pat) == [s[0]] + RemoveAllIgnoreCase(s[1..], pat)
  {
  }

  /** Text without `<` is kept as is when the pattern starts with `<`. */
  lemma {:induction false} RemoveSkipsText(x: string, y: string, pat: string)
    requires pat != [] && pat[0] == '<'
    requires '<' !in x
    ensures RemoveAllIgnoreCase(x + y, pat) == x + RemoveAllIgnoreCase(y, pat)
    decreases |x|
  {
    if |x| == 0 {
      assert x + y == y;
    } else {
      var s := x + y;
      assert s[0] == x[0] && s[1..] == x[1..] + y;
      NoMatchWhereDiffering(s, pat, 0);
      RemoveKeepsHead(s, pat);
      assert '<' !in x[1..];
      RemoveSkipsText(x[1..], y, pat);
      assert x == [x[0]] + x[1..];
    }
  }

  lemma RemoveLeadingMatch(pat: string, x: string)
    requires pat != []
    ensures RemoveAllIgnoreCase(pat + x, pat) == RemoveAllIgnoreCase(x, pat)
  {
    PrefixIgnoreCaseIff(pat + x, pat);
    assert (pat + x)[..|pat|] == pat;
    assert (pat + x)[|pat|..] == x;
  }

  /** A closing tag holds no match of its opening tag. */
  lemma CloseKeptByOpenRemoval(open: string, close: string)
    requires TagPair(open, close)
    ensures RemoveAllIgnoreCase(close, open) == close
  {
    NoMatchWhereDiffering(close, open, 1);
    RemoveSkipsText(close[1..], [], open);
    assert close[1..] + [] == close[1..];
    assert [close[0]] + close[1..] == close;
  }

  /** Stripping one pair from a freshly wrapped markup-free text gives the
      text back. */
  lemma StripPairOfWrapped(open: string, close: string, t: string)
    requires TagPair(open, close) && Markupless(t)
    ensures RemoveAllIgnoreCase(RemoveAllIgnoreCase(open + t + close, open), close) == t
  {
    assert open + t + close == open + (t + close);
    RemoveLeadingMatch(open, t + close);
    RemoveSkipsText(t, close, open);
    CloseKeptByOpenRemoval(open, close);
    RemoveSkipsText(t, close, close);
    RemoveLeadingMatch(close, []);
    assert close + [] == close;
    assert t + [] == t;
  }

  /** The unwrap step: delete every case-insensitive occurrence of the
      canonical opening tag, then of the closing tag, then of the legacy
      pair when the format has one. */
  function StripTags(segment: string, tags: TagSet): (r: string)
    requires WellFormed(tags)
    ensures |r| <= |segment|
  {
    var a := RemoveAllIgnoreCase(RemoveAllIgnoreCase(segment, tags.open), tags.close);
    if tags.legacy.Some? then
      RemoveAllIgnoreCase(RemoveAllIgnoreCase(a, tags.legacy.value.0), tags.legacy.value.1)
    else a
  }

  /** Wrapping markup-free text in a format's canonical tags and stripping
      that format's tags gives the text back. */
  lemma StripUndoesWrap(tags: TagSet, t: string)
    requires WellFormed(tags) && Markupless(t)
    ensures StripTags(tags.open + t + tags.close, tags) == t
  {
    StripPairOfWrapped(tags.open, tags.close, t);
    if tags.legacy.Some? {
      RemoveSkipsText(t, [], tags.legacy.value.0);
      RemoveSkipsText(t, [], tags.legacy.value.1);
      assert t + [] == t;
    }
  }
}
