/** The profile editor's two text edits on the HTML of a generated profile:
    `applyFormatting` (toggle bold, italic or underline on the selected
    text) and `handleAIEnhance` (replace the selected text by an AI
    rewrite), both in the profile display. Each first locates the selection
    in the document's visible text and maps it back to a document span with
    the tag walk. */
module Editor {
  import opened Js
  import opened Strings
  import opened Walk
  import opened Tags

  // ===========================================================================
  // Finding the selection in the visible text
  // ===========================================================================

  /** Whether the visible text from `i` on, with white-space runs collapsed
      and lower-cased, starts with the (already normalised) target. */
  predicate NormalizedMatchAt(plain: string, target: string, i: nat)
    requires i <= |plain|
  {
    StartsWith(Lower(CollapseSpaces(plain[i..])), target)
  }

  /** The first offset `i >= from` (below `|plain|`) where the normalised
      suffix starts with `target`, or -1. */
  function FirstNormalizedMatch(plain: string, target: string, from: nat): (r: int)
    requires from <= |plain|
    ensures r == -1 || (from <= r < |plain| && NormalizedMatchAt(plain, target, r))
    ensures r == -1 ==> forall j :: from <= j < |plain| ==> !NormalizedMatchAt(plain, target, j)
    ensures r != -1 ==> forall j :: from <= j < r ==> !NormalizedMatchAt(plain, target, j)
    decreases |plain| - from
  {
    if from == |plain| then -1
    else if NormalizedMatchAt(plain, target, from) then from
    else FirstNormalizedMatch(plain, target, from + 1)
  }

  /** A normalised match anywhere in the visible text is an occurrence of
      the (trimmed) target in the whole text collapsed, trimmed and
      lower-cased: collapsing from a later offset only drops a prefix of
      the collapsed whole, and a target without surrounding white space
      cannot reach into the white space trimming removes. */
  lemma NormalizedMatchInWhole(plain: string, target: string, j: nat)
    requires j <= |plain| && NormalizedMatchAt(plain, target, j)
    requires target == [] || (!IsSpace(target[0]) && !IsSpace(target[|target| - 1]))
    ensures Contains(Lower(Trim(CollapseSpaces(plain))), target)
  {
    if target == [] {
      assert OccursAt(Lower(Trim(CollapseSpaces(plain))), target, 0);
    } else {
      var p := MatchInCollapsed(plain, target, j);
      OccurrenceSurvivesTrim(CollapseSpaces(plain), target, p);
    }
  }

  /** A normalised match at `j` is an occurrence in the lower-cased
      collapse of the whole text. */
  lemma MatchInCollapsed(plain: string, target: string, j: nat) returns (p: nat)
    requires j <= |plain| && NormalizedMatchAt(plain, target, j)
    ensures OccursAt(Lower(CollapseSpaces(plain)), target, p)
  {
    var c := CollapseSpaces(plain);
    var d := CollapseSpaces(plain[j..]);
    CollapseShift(plain, j, 0);
    CollapseFromSuffix(plain, 0, j);
    assert c[|c| - |d|..] == d;
    p := |c| - |d|;
    var n := |target|;
    assert Lower(d)[..n] == target;
    LowerSlice(c, p, |c|);
    assert Lower(c)[p..][..n] == target;
    assert Lower(c)[p..p + n] == target;
  }

  /** A character that is not white space lies inside what trimming keeps. */
  lemma InsideTrim(c: string, x: nat)
    requires x < |c| && !IsSpace(c[x])
    ensures Lead(c) <= x < Lead(c) + |Trim(c)|
  {
    TrimIsInfix(c);
    var b := Lead(c) + |Trim(c)|;
    assert x < b by {
      assert forall y :: b <= y < |c| ==> c[b..][y - b] == c[y];
    }
  }

  /** The first and last characters of an occurrence in the lower-cased
      text, read back in the original. */
  lemma OccurrenceEnds(c: string, target: string, p: nat)
    requires target != [] && !IsSpace(target[0]) && !IsSpace(target[|target| - 1])
    requires OccursAt(Lower(c), target, p)
    ensures !IsSpace(c[p]) && !IsSpace(c[p + |target| - 1])
  {
    var l := Lower(c);
    assert l[p..p + |target|][0] == l[p];
    assert l[p..p + |target|][|target| - 1] == l[p + |target| - 1];
    NotSpaceFromLower(c[p], target[0]);
    NotSpaceFromLower(c[p + |target| - 1], target[|target| - 1]);
  }

  lemma NotSpaceFromLower(x: char, y: char)
    requires LowerChar(x) == y && !IsSpace(y)
    ensures !IsSpace(x)
  {
    LowerCharSpace(x);
  }

  /** An occurrence of a target without surrounding white space in the
      lower-cased text is one in the lower-cased trimmed text: it cannot
      reach into the white space trimming removes. */
  lemma OccurrenceSurvivesTrim(c: string, target: string, p: nat)
    requires target != [] && !IsSpace(target[0]) && !IsSpace(target[|target| - 1])
    requires OccursAt(Lower(c), target, p)
    ensures Contains(Lower(Trim(c)), target)
  {
    var n := |target|;
    var a := Lead(c);
    var b := a + |Trim(c)|;
    assert a <= p && p + n <= b by {
      OccurrenceEnds(c, target, p);
      InsideTrim(c, p);
      InsideTrim(c, p + n - 1);
    }
    var l := Lower(c);
    assert Lower(Trim(c)) == l[a..b] by {
      TrimIsInfix(c);
      LowerSlice(c, a, b);
    }
    OccursInSlice(l, a, b, target, p);
  }

  /** An occurrence inside a slice is one in the slice, shifted. */
  lemma OccursInSlice(l: string, a: nat, b: nat, target: string, p: nat)
    requires a <= p && p + |target| <= b <= |l| && OccursAt(l, target, p)
    ensures OccursAt(l[a..b], target, p - a)
  {
    var w := l[a..b];
    var u := w[p - a..p - a + |target|];
    var v := l[p..p + |target|];
    forall x | 0 <= x < |target|
      ensures u[x] == v[x]
    {
      assert u[x] == w[p - a + x] == l[p + x];
    }
    assert u == v;
  }

  /** When the collapsed whole does not contain the target, no offset
      matches it either. */
  lemma NoNormalizedMatch(plain: string, target: string)
    requires target == [] || (!IsSpace(target[0]) && !IsSpace(target[|target| - 1]))
    ensures !Contains(Lower(Trim(CollapseSpaces(plain))), target) ==>
              forall j :: 0 <= j < |plain| ==> !NormalizedMatchAt(plain, target, j)
  {
    forall j | 0 <= j < |plain| && NormalizedMatchAt(plain, target, j)
      ensures Contains(Lower(Trim(CollapseSpaces(plain))), target)
    {
      NormalizedMatchInWhole(plain, target, j);
    }
  }

  /** The selection's visible offset: a case-insensitive `indexOf`, and when
      that fails, a white-space-collapsed retry mapped back to an offset of
      the original visible text. -1 when neither finds it. */
  function FindTextIndex(plain: string, sel: string): (k: int)
    ensures k == -1 || 0 <= k <= |plain|
    ensures ContainsIgnoreCase(plain, sel) ==>
              OccursAt(Lower(plain), Lower(sel), k)
              && forall j :: 0 <= j < k ==> !OccursAt(Lower(plain), Lower(sel), j)
    ensures !ContainsIgnoreCase(plain, sel) && k != -1 ==>
              k < |plain| && NormalizedMatchAt(plain, Lower(Trim(CollapseSpaces(sel))), k)
              && forall j :: 0 <= j < k ==> !NormalizedMatchAt(plain, Lower(Trim(CollapseSpaces(sel))), j)
    ensures k == -1 ==> !ContainsIgnoreCase(plain, sel)
    ensures k == -1 ==>
              forall j :: 0 <= j < |plain| ==> !NormalizedMatchAt(plain, Lower(Trim(CollapseSpaces(sel))), j)
  {
    var direct := IndexOf(Lower(plain), Lower(sel));
    if direct != -1 then direct
    else
      var normalizedPlain := Trim(CollapseSpaces(plain));
      var normalizedSelected := Trim(CollapseSpaces(sel));
      if IndexOf(Lower(normalizedPlain), Lower(normalizedSelected)) != -1 then
        FirstNormalizedMatch(plain, Lower(normalizedSelected), 0)
      else
        LowerOfTrimmed(normalizedSelected);
        NoNormalizedMatch(plain, Lower(normalizedSelected));
        -1
  }

  /** A located selection: its visible offset and the visible text found
      there (`actualSelectedText`, the original's casing). */
  datatype Found = Found(index: nat, text: string)

  /** The locate phase on the visible text: `None` when the selection is
      not found; otherwise the offset and `plain.substring(k, k + |sel|)`,
      clipped at the end of the text. */
  function Lookup(doc: string, sel: string): (r: Option<Found>)
    ensures r.Some? ==> && r.value.index + |r.value.text| <= |Plain(doc)|
                        && r.value.text == Plain(doc)[r.value.index..r.value.index + |r.value.text|]
                        && |r.value.text| <= |sel|
  {
    var plain := Plain(doc);
    var k := FindTextIndex(plain, sel);
    if k == -1 then None
    else
      var stop := if k + |sel| <= |plain| then k + |sel| else |plain|;
      Some(Found(k, plain[k..stop]))
  }

  /** The lookup fails only when the selection is not in the visible text
      even case-insensitively; it succeeds at the offset the search reports,
      and whenever the selection occurs case-insensitively the text found
      there is the selection up to letter case. */
  lemma LookupFinds(doc: string, sel: string)
    ensures Lookup(doc, sel).None? <==> FindTextIndex(Plain(doc), sel) == -1
    ensures Lookup(doc, sel).None? ==> !ContainsIgnoreCase(Plain(doc), sel)
    ensures Lookup(doc, sel).Some? ==> Lookup(doc, sel).value.index == FindTextIndex(Plain(doc), sel)
    ensures ContainsIgnoreCase(Plain(doc), sel) ==>
              Lookup(doc, sel).Some? && Lower(Lookup(doc, sel).value.text) == Lower(sel)
  {
    var plain := Plain(doc);
    var k := FindTextIndex(plain, sel);
    if k != -1 {
      var stop := if k + |sel| <= |plain| then k + |sel| else |plain|;
      LowerSlice(plain, k, stop);
    }
  }

  // ===========================================================================
  // The edits
  // ===========================================================================

  /** Whether the toggle removes the format: the span or the widened
      segment already holds one of the format's tag pairs. */
  predicate Unwraps(doc: string, start: nat, end: nat, segStart: nat, segEnd: nat, tags: TagSet)
    requires segStart <= start <= end <= segEnd <= |doc|
  {
    HasTagPair(doc[start..end], tags) || HasTagPair(doc[segStart..segEnd], tags)
  }

  /** The toggle decision on a located span `[start, end)` inside the
      widened segment `[segStart, segEnd)`: when the format is present the
      segment is replaced by its stripped copy; otherwise the span is
      replaced by the located text wrapped in the canonical pair. */
  function ToggleAt(doc: string, start: nat, end: nat, segStart: nat, segEnd: nat,
                    tags: TagSet, text: string): string
    requires segStart <= start <= end <= segEnd <= |doc|
    requires WellFormed(tags)
  {
    if Unwraps(doc, start, end, segStart, segEnd, tags) then
      doc[..segStart] + StripTags(doc[segStart..segEnd], tags) + doc[segEnd..]
    else
      doc[..start] + (tags.open + text + tags.close) + doc[end..]
  }

  /** Unwrapping keeps everything outside the segment byte for byte and
      never lengthens the document. */
  lemma ToggleUnwrapKeepsOutside(doc: string, start: nat, end: nat, segStart: nat, segEnd: nat,
                                 tags: TagSet, text: string)
    requires segStart <= start <= end <= segEnd <= |doc|
    requires WellFormed(tags) && Unwraps(doc, start, end, segStart, segEnd, tags)
    ensures var r := ToggleAt(doc, start, end, segStart, segEnd, tags, text);
            && segStart + (|doc| - segEnd) <= |r| <= |doc|
            && r[..segStart] == doc[..segStart]
            && r[|r| - (|doc| - segEnd)..] == doc[segEnd..]
  {
    var r := ToggleAt(doc, start, end, segStart, segEnd, tags, text);
    assert r[|r| - (|doc| - segEnd)..] == doc[segEnd..];
  }

  /** Wrapping keeps everything outside the span byte for byte and adds
      exactly the two tags and the located text in place of the span. */
  lemma ToggleWrapKeepsOutside(doc: string, start: nat, end: nat, segStart: nat, segEnd: nat,
                               tags: TagSet, text: string)
    requires segStart <= start <= end <= segEnd <= |doc|
    requires WellFormed(tags) && !Unwraps(doc, start, end, segStart, segEnd, tags)
    ensures var r := ToggleAt(doc, start, end, segStart, segEnd, tags, text);
            && |r| == |doc| - (end - start) + |tags.open| + |text| + |tags.close|
            && r[..start] == doc[..start]
            && r[start..start + |tags.open| + |text| + |tags.close|] == tags.open + text + tags.close
            && r[|r| - (|doc| - end)..] == doc[end..]
  {
    var r := ToggleAt(doc, start, end, segStart, segEnd, tags, text);
    var w := tags.open + text + tags.close;
    assert r == doc[..start] + w + doc[end..];
    assert r[start..start + |w|] == w;
    assert r[|r| - (|doc| - end)..] == doc[end..];
  }

  /** When the format is not already present, toggling wraps the located
      text and the document's visible text is unchanged. */
  lemma ToggleWrapKeepsPlain(doc: string, k: nat, start: nat, end: nat, segStart: nat, segEnd: nat,
                             tags: TagSet, text: string)
    requires SpanOf(doc, k, |text|, start, end)
    requires segStart <= start && end <= segEnd <= |doc|
    requires k + |text| <= |Plain(doc)| && text == Plain(doc)[k..k + |text|]
    requires WellFormed(tags)
    requires !Unwraps(doc, start, end, segStart, segEnd, tags)
    ensures Plain(ToggleAt(doc, start, end, segStart, segEnd, tags, text)) == Plain(doc)
  {
    WrapKeepsPlain(doc, k, start, end, tags.open, tags.close, text);
  }

  /** Splicing a piece that closes every tag it opens between two parts,
      the first of which ends outside any tag, concatenates visible texts. */
  lemma SpliceVisible(pre: string, mid: string, post: string)
    requires !InTagAfter(pre) && !InTagAfter(mid)
    ensures Plain(pre + mid + post) == Plain(pre) + Plain(mid) + VisibleFrom(false, post)
  {
    WalkConcat(false, pre, mid);
    WalkConcat(false, pre + mid, post);
  }

  /** A tag pair around markup-free text shows exactly that text. */
  lemma WrappedVisible(open: string, text: string, close: string)
    requires IsTag(open) && IsTag(close) && Markupless(text)
    ensures Plain(open + text + close) == text && !InTagAfter(open + text + close)
  {
    MarkuplessIsVisible(text);
    TagIsInvisible(false, open);
    TagIsInvisible(false, close);
    WalkConcat(false, open, text);
    WalkConcat(false, open + text, close);
  }

  /** Wrapping a located span's own text in a tag pair leaves the visible
      text of the document unchanged. */
  lemma WrapKeepsPlain(doc: string, k: nat, start: nat, end: nat, open: string, close: string, text: string)
    requires SpanOf(doc, k, |text|, start, end)
    requires k + |text| <= |Plain(doc)| && text == Plain(doc)[k..k + |text|]
    requires IsTag(open) && IsTag(close)
    ensures Plain(doc[..start] + (open + text + close) + doc[end..]) == Plain(doc)
  {
    VisibleIsMarkupless(false, doc, |doc|);
    assert Markupless(text);
    WrappedVisible(open, text, close);
    ReplaceKeepsSurroundingText(doc, k, |text|, start, end, open + text + close);
    var plain := Plain(doc);
    assert plain[..k] + text + plain[k + |text|..] == plain;
  }

  /** Replacing a located span by `text`: the visible text becomes the
      visible text before the span, `text`'s own visible text, and the
      visible text after the span, provided `text` closes every tag it
      opens. */
  lemma ReplaceKeepsSurroundingText(doc: string, k: nat, len: nat, start: nat, end: nat, text: string)
    requires SpanOf(doc, k, len, start, end)
    requires k + len <= |Plain(doc)|
    requires !InTagAfter(text)
    ensures Plain(doc[..start] + text + doc[end..])
            == Plain(doc)[..k] + Plain(text) + Plain(doc)[k + len..]
  {
    SpanText(doc, k, len, start, end);
    SpanEndsOutsideTags(doc, k, len, start, end);
    WalkPrefix(false, doc[..start], doc, start);
    SpliceVisible(doc[..start], text, doc[end..]);
  }

  /** The toolbar's current selection: its text and whether a live range
      accompanies it. */
  datatype Selection = Selection(text: string, hasRange: bool)

  datatype EditOutcome =
    | Unchanged                  // nothing happens: a guard failed or the format is unknown
    | Edited(doc: string)        // the document is replaced by a new string
    | Enhanced(doc: string, message: string)  // replaced, with a success message
    | Failed(message: string)    // the document is kept and an error message is shown

  const NotFoundToFormat := "Could not find selected text to format"
  const NotFoundToReplace := "Could not find selected text to replace"

  /** Every edit needs a selection text, a live range and a document. */
  predicate Ready(doc: string, sel: Selection) {
    sel.text != [] && sel.hasRange && doc != []
  }

  /** `result` is the toggle of `tags` at the located span of `f` inside
      the segment the two widening scans produce around it. */
  ghost predicate FormattedAs(doc: string, f: Found, tags: TagSet, result: string) {
    && WellFormed(tags)
    && exists start: nat, end: nat, segStart: nat, segEnd: nat ::
         && SpanOf(doc, f.index, |f.text|, start, end)
         && BackWidened(doc, start, segStart) && ForwardWidened(doc, end, segEnd)
         && result == ToggleAt(doc, start, end, segStart, segEnd, tags, f.text)
  }

  /** The formatting edit is deterministic: the span and the segment are
      fixed by the document, so at most one result qualifies. */
  lemma FormattedAsUnique(doc: string, f: Found, tags: TagSet, r1: string, r2: string)
    requires FormattedAs(doc, f, tags, r1) && FormattedAs(doc, f, tags, r2)
    ensures r1 == r2
  {
    var s1: nat, e1: nat, a1: nat, b1: nat :|
      && SpanOf(doc, f.index, |f.text|, s1, e1)
      && BackWidened(doc, s1, a1) && ForwardWidened(doc, e1, b1)
      && r1 == ToggleAt(doc, s1, e1, a1, b1, tags, f.text);
    var s2: nat, e2: nat, a2: nat, b2: nat :|
      && SpanOf(doc, f.index, |f.text|, s2, e2)
      && BackWidened(doc, s2, a2) && ForwardWidened(doc, e2, b2)
      && r2 == ToggleAt(doc, s2, e2, a2, b2, tags, f.text);
    SpanUnique(doc, f.index, |f.text|, s1, e1, s2, e2);
    BackWidenedUnique(doc, s1, a1, a2);
    ForwardWidenedUnique(doc, e1, b1, b2);
  }

  /** `applyFormatting(format)`. */
  method ApplyFormatting(doc: string, sel: Selection, format: string) returns (outcome: EditOutcome)
    ensures !Ready(doc, sel) ==> outcome == Unchanged
    ensures Ready(doc, sel) && Lookup(doc, sel.text).None? ==> outcome == Failed(NotFoundToFormat)
    ensures Ready(doc, sel) && Lookup(doc, sel.text).Some? && TagsFor(format).None? ==> outcome == Unchanged
    ensures Ready(doc, sel) && Lookup(doc, sel.text).Some? && TagsFor(format).Some? ==>
              outcome.Edited? && FormattedAs(doc, Lookup(doc, sel.text).value, TagsFor(format).value, outcome.doc)
  {
    if !Ready(doc, sel) {
      return Unchanged;
    }
    var found := Lookup(doc, sel.text);
    if found.None? {
      return Failed(NotFoundToFormat);
    }
    var f := found.value;
    var start, end := LocateSpan(doc, f.index, |f.text|);
    var segStart := WidenBackward(doc, start);
    var segEnd := WidenForward(doc, end);
    var tags := TagsFor(format);
    if tags.None? {
      return Unchanged;
    }
    TagTableWellFormed(format);
    var newText := ToggleAt(doc, start, end, segStart, segEnd, tags.value, f.text);
    assert FormattedAs(doc, f, tags.value, newText);
    outcome := Edited(newText);
  }

  // ===========================================================================
  // AI rewriting
  // ===========================================================================

  predicate SentenceEnd(c: char) {
    c == '.' || c == '!' || c == '?'
  }

  /** The position of the last `.`, `!` or `?`, or -1. */
  function LastSentenceEnd(s: string): (r: int)
    ensures -1 <= r < |s|
    ensures r != -1 ==> SentenceEnd(s[r])
    ensures forall j :: r < j < |s| ==> !SentenceEnd(s[j])
  {
    var p := LastIndexOfChar(s, '.');
    var e := LastIndexOfChar(s, '!');
    var q := LastIndexOfChar(s, '?');
    if p >= e && p >= q then p else if e >= q then e else q
  }

  /** The text up to and including its last sentence terminator, when
      that terminator lies beyond 70% of the text
      (`lastSentenceEnd > length * 0.7`, in integers `10 * pos > 7 * length`);
      otherwise the whole text. */
  function CutAtSentence(joined: string): (r: string)
    ensures |r| <= |joined| && r == joined[..|r|]
    ensures || (r == joined && forall j :: 0 <= j < |joined| && 10 * j > 7 * |joined| ==> !SentenceEnd(joined[j]))
            || (&& |r| > 0 && SentenceEnd(r[|r| - 1]) && 10 * (|r| - 1) > 7 * |joined|
                && forall j :: |r| <= j < |joined| ==> !SentenceEnd(joined[j]))
  {
    var lastSentenceEnd := LastSentenceEnd(joined);
    if 10 * lastSentenceEnd > 7 * |joined| then joined[..lastSentenceEnd + 1] else joined
  }

  /** The length normalisation of an AI reply. With `O` words in the
      selection and `W` in the trimmed reply, a reply with `W > 1.1 * O`
      (in integers, `10W > 11O`) is cut down to its first `O` words joined
      by single blanks, then cut at a late sentence end; any other reply is
      used trimmed. */
  function NormalizeAiText(selected: string, reply: string): (r: string)
    ensures var o := |Words(Trim(selected))|;
            var words := Words(Trim(reply));
            && (10 * |words| <= 11 * o ==> r == Trim(reply))
            && (10 * |words| > 11 * o ==> o < |words| && r == CutAtSentence(Join(words[..o], " ")))
    ensures var o := |Words(Trim(selected))|;
            var words := Words(Trim(reply));
            10 * |words| > 11 * o ==>
              var joined := Join(words[..o], " ");
              |r| <= |joined| && r == joined[..|r|]
              && (r == joined || (|r| > 0 && SentenceEnd(r[|r| - 1])))
  {
    var o := |Words(Trim(selected))|;
    var text := Trim(reply);
    var words := Words(text);
    if 10 * |words| <= 11 * o then text
    else CutAtSentence(Join(words[..o], " "))
  }

  /** A shortened reply never has more words than the selection had. */
  lemma NormalizeKeepsWordBudget(selected: string, reply: string)
    ensures var o := |Words(Trim(selected))|;
            10 * |Words(Trim(reply))| > 11 * o ==> |Words(NormalizeAiText(selected, reply))| <= o
  {
    var o := |Words(Trim(selected))|;
    var words := Words(Trim(reply));
    if 10 * |words| > 11 * o {
      WordsAreWords(Trim(reply));
      var kept := words[..o];
      assert forall i :: 0 <= i < |kept| ==> kept[i] == words[i];
      WordsOfJoin(kept);
      var joined := Join(kept, " ");
      var r := CutAtSentence(joined);
      WordsPrefixMonotone(joined, |r|);
    }
  }

  /** Whether the reply is shortened: it has more than 1.1 times the
      selection's words. */
  predicate WasTrimmed(selected: string, reply: string) {
    10 * |Words(Trim(reply))| > 11 * |Words(Trim(selected))|
  }

  /** The word count the success message reports for a shortened reply,
      computed as the page does: the words of the text cut at a sentence
      end, or the selection's own count when no cut was made. */
  function ReportedWordCount(selected: string, reply: string): nat
    requires WasTrimmed(selected, reply)
  {
    var o := |Words(Trim(selected))|;
    var joined := Join(Words(Trim(reply))[..o], " ");
    var lastSentenceEnd := LastSentenceEnd(joined);
    if 10 * lastSentenceEnd > 7 * |joined| then |Words(joined[..lastSentenceEnd + 1])| else o
  }

  /** The selection's first `o` words joined by single blanks have
      exactly those `o` words. */
  lemma KeptWordsCount(reply: string, o: nat)
    requires o <= |Words(Trim(reply))|
    ensures |Words(Join(Words(Trim(reply))[..o], " "))| == o
  {
    var words := Words(Trim(reply));
    var kept := words[..o];
    WordsAreWords(Trim(reply));
    assert forall i :: 0 <= i < |kept| ==> kept[i] == words[i];
    WordsOfJoin(kept);
  }

  /** The reported count is the number of words the inserted text really
      has, and never more than the selection had. */
  lemma ReportedCountIsInsertedCount(selected: string, reply: string)
    requires WasTrimmed(selected, reply)
    ensures ReportedWordCount(selected, reply) == |Words(NormalizeAiText(selected, reply))|
    ensures ReportedWordCount(selected, reply) <= |Words(Trim(selected))|
  {
    var o := |Words(Trim(selected))|;
    var joined := Join(Words(Trim(reply))[..o], " ");
    var n := ReportedWordCount(selected, reply);
    assert n == |Words(CutAtSentence(joined))| by {
      var lastSentenceEnd := LastSentenceEnd(joined);
      if 10 * lastSentenceEnd <= 7 * |joined| {
        KeptWordsCount(reply, o);
      }
    }
    assert NormalizeAiText(selected, reply) == CutAtSentence(joined);
    NormalizeKeepsWordBudget(selected, reply);
  }

  const EnhancedWithAi := "Text enhanced with AI!"

  /** The success message: the fixed text, followed for a shortened reply
      by the number of words actually inserted. */
  function EnhanceMessage(selected: string, reply: string): (m: string)
    ensures !WasTrimmed(selected, reply) ==> m == EnhancedWithAi
    ensures WasTrimmed(selected, reply) ==>
              m == EnhancedWithAi + " (trimmed to " + NatToString(|Words(NormalizeAiText(selected, reply))|)
                   + " words to match original length)"
  {
    if WasTrimmed(selected, reply) then
      ReportedCountIsInsertedCount(selected, reply);
      EnhancedWithAi + " (trimmed to " + NatToString(ReportedWordCount(selected, reply))
      + " words to match original length)"
    else EnhancedWithAi
  }

  /** The enhancement service's answer: `{ success, data, error }`, or a
      thrown error. */
  datatype AiReply = AiReply(success: bool, data: string, error: string) | AiThrew

  const EnhanceFailed := "Failed to enhance text"
  const EnhanceThrew := "Failed to enhance text with AI"

  /** `result` is `doc` with the located span of `f` replaced by `text`. */
  ghost predicate ReplacedAs(doc: string, f: Found, text: string, result: string) {
    exists start: nat, end: nat ::
      SpanOf(doc, f.index, |f.text|, start, end) && result == doc[..start] + text + doc[end..]
  }

  /** `handleAIEnhance()` with the service's reply as a parameter. */
  method ApplyEnhancement(doc: string, sel: Selection, reply: AiReply) returns (outcome: EditOutcome)
    ensures !Ready(doc, sel) ==> outcome == Unchanged
    ensures Ready(doc, sel) && reply.AiThrew? ==> outcome == Failed(EnhanceThrew)
    ensures Ready(doc, sel) && reply.AiReply? && !(reply.success && reply.data != []) ==>
              outcome == Failed(Or(reply.error, EnhanceFailed))
    ensures Ready(doc, sel) && reply.AiReply? && reply.success && reply.data != [] ==>
              (Lookup(doc, sel.text).None? ==> outcome == Failed(NotFoundToReplace))
              && (Lookup(doc, sel.text).Some? ==>
                    outcome.Enhanced?
                    && ReplacedAs(doc, Lookup(doc, sel.text).value, NormalizeAiText(sel.text, reply.data), outcome.doc)
                    && outcome.message == EnhanceMessage(sel.text, reply.data))
  {
    if !Ready(doc, sel) {
      return Unchanged;
    }
    if reply.AiThrew? {
      return Failed(EnhanceThrew);
    }
    if !(reply.success && reply.data != []) {
      return Failed(Or(reply.error, EnhanceFailed));
    }
    var enhancedText := NormalizeAiText(sel.text, reply.data);
    var found := Lookup(doc, sel.text);
    if found.None? {
      return Failed(NotFoundToReplace);
    }
    var f := found.value;
    var start, end := LocateSpan(doc, f.index, |f.text|);
    outcome := Enhanced(doc[..start] + enhancedText + doc[end..], EnhanceMessage(sel.text, reply.data));
  }

  /** A replacement splices the new text exactly between the span's ends:
      the bytes before and after are kept and the new text sits between. */
  lemma SpliceKeepsOutside(doc: string, start: nat, end: nat, text: string)
    requires start <= end <= |doc|
    ensures var r := doc[..start] + text + doc[end..];
            r[..start] == doc[..start] && r[start..start + |text|] == text
            && r[start + |text|..] == doc[end..] && |r| == |doc| - (end - start) + |text|
  {
  }
}
