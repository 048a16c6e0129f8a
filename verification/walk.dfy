/** The tag walk of the profile editor (`applyFormatting` and
    `handleAIEnhance` in the profile display).

    A document is an HTML string. A left-to-right walk keeps one flag,
    `inTag`: `<` sets it, `>` clears it, and every other character read
    while it is clear is visible. The visible characters, in order, are the
    document's plain text. A selection found at a plain-text offset is
    mapped back to a document span by the same walk, and the span is then
    widened over nearby tags by two bounded bracket-counting scans. */
module Walk {

  // ===========================================================================
  // The walk
  // ===========================================================================

  /** The walk's `inTag` flag after reading `c`. */
  function Step(inTag: bool, c: char): bool {
    if c == '<' then true else if c == '>' then false else inTag
  }

  /** Whether the walk counts `c` as a visible character. */
  predicate Counts(inTag: bool, c: char) {
    c != '<' && c != '>' && !inTag
  }

  predicate Markupless(s: string) {
    forall i :: 0 <= i < |s| ==> s[i] != '<' && s[i] != '>'
  }

  /** The flag after walking the first `n` characters of `s` from flag `t`. */
  function WalkTo(t: bool, s: string, n: nat): bool
    requires n <= |s|
    decreases n
  {
    if n == 0 then t else Step(WalkTo(t, s, n - 1), s[n - 1])
  }

  /** The characters counted while walking the first `n` characters of `s`. */
  function VisibleTo(t: bool, s: string, n: nat): string
    requires n <= |s|
    decreases n
  {
    if n == 0 then []
    else if Counts(WalkTo(t, s, n - 1), s[n - 1]) then VisibleTo(t, s, n - 1) + [s[n - 1]]
    else VisibleTo(t, s, n - 1)
  }

  function WalkFrom(t: bool, s: string): bool {
    WalkTo(t, s, |s|)
  }

  function VisibleFrom(t: bool, s: string): string {
    VisibleTo(t, s, |s|)
  }

  /** The document's plain text (the DOM's `textContent`, without entity
      decoding). */
  function Plain(doc: string): string {
    VisibleFrom(false, doc)
  }

  /** Whether a walk from the start of `s` ends inside a tag. */
  predicate InTagAfter(s: string) {
    WalkFrom(false, s)
  }

  /** The number of visible characters before document offset `i`. */
  function CountBefore(doc: string, i: nat): nat
    requires i <= |doc|
  {
    |VisibleTo(false, doc, i)|
  }

  // ===========================================================================
  // Facts about the walk
  // ===========================================================================

  /** Visible text never holds an angle bracket. */
  lemma {:induction false} VisibleIsMarkupless(t: bool, s: string, n: nat)
    requires n <= |s|
    ensures Markupless(VisibleTo(t, s, n))
    decreases n
  {
    if n > 0 {
      VisibleIsMarkupless(t, s, n - 1);
    }
  }

  /** The walk over a prefix depends on that prefix only. */
  lemma {:induction false} WalkPrefix(t: bool, s: string, u: string, n: nat)
    requires n <= |s| && n <= |u|
    requires forall i :: 0 <= i < n ==> s[i] == u[i]
    ensures WalkTo(t, s, n) == WalkTo(t, u, n) && VisibleTo(t, s, n) == VisibleTo(t, u, n)
    decreases n
  {
    if n > 0 {
      WalkPrefix(t, s, u, n - 1);
    }
  }

  /** Walking `i + m` characters is walking `i`, then `m` more of the rest. */
  lemma {:induction false} WalkSplit(t: bool, s: string, i: nat, m: nat)
    requires i + m <= |s|
    ensures WalkTo(t, s, i + m) == WalkTo(WalkTo(t, s, i), s[i..], m)
    ensures VisibleTo(t, s, i + m) == VisibleTo(t, s, i) + VisibleTo(WalkTo(t, s, i), s[i..], m)
    decreases m
  {
    if m > 0 {
      WalkSplit(t, s, i, m - 1);
      assert s[i..][m - 1] == s[i + m - 1];
    }
  }

  /** Walking a concatenation is walking the parts one after the other. */
  lemma WalkConcat(t: bool, a: string, b: string)
    ensures WalkFrom(t, a + b) == WalkFrom(WalkFrom(t, a), b)
    ensures VisibleFrom(t, a + b) == VisibleFrom(t, a) + VisibleFrom(WalkFrom(t, a), b)
  {
    WalkPrefix(t, a + b, a, |a|);
    WalkSplit(t, a + b, |a|, |b|);
    assert (a + b)[|a|..] == b;
  }

  /** The visible text of a document up to `j` extends that up to `i`. */
  lemma VisibleGrows(doc: string, i: nat, j: nat)
    requires i <= j <= |doc|
    ensures VisibleTo(false, doc, j) == VisibleTo(false, doc, i) + VisibleTo(WalkTo(false, doc, i), doc[i..], j - i)
    ensures CountBefore(doc, i) <= CountBefore(doc, j)
  {
    WalkSplit(false, doc, i, j - i);
  }

  /** The visible text of a whole document, split at offset `i`. */
  lemma PlainSplit(doc: string, i: nat)
    requires i <= |doc|
    ensures Plain(doc) == VisibleTo(false, doc, i) + VisibleFrom(WalkTo(false, doc, i), doc[i..])
  {
    WalkSplit(false, doc, i, |doc| - i);
  }

  /** Right after a counted character the walk is outside any tag. */
  lemma CountedLeavesTag(doc: string, i: nat)
    requires 0 < i <= |doc|
    requires CountBefore(doc, i - 1) < CountBefore(doc, i)
    ensures !WalkTo(false, doc, i)
  {
  }

  /** Text without markup is all visible and leaves the walk outside tags. */
  lemma {:induction false} MarkuplessVisibleTo(s: string, n: nat)
    requires Markupless(s) && n <= |s|
    ensures VisibleTo(false, s, n) == s[..n] && !WalkTo(false, s, n)
    decreases n
  {
    if n > 0 {
      MarkuplessVisibleTo(s, n - 1);
      assert s[..n - 1] + [s[n - 1]] == s[..n];
    }
  }

  lemma MarkuplessIsVisible(s: string)
    requires Markupless(s)
    ensures Plain(s) == s && !InTagAfter(s)
  {
    MarkuplessVisibleTo(s, |s|);
    assert s[..|s|] == s;
  }

  /** A tag: `<`, then anything but angle brackets, then `>`. */
  predicate IsTag(tag: string) {
    |tag| >= 2 && tag[0] == '<' && tag[|tag| - 1] == '>'
    && forall i :: 0 < i < |tag| - 1 ==> tag[i] != '>' && tag[i] != '<'
  }

  lemma {:induction false} InsideTag(t: bool, tag: string, n: nat)
    requires IsTag(tag) && 1 <= n < |tag|
    ensures WalkTo(t, tag, n) && VisibleTo(t, tag, n) == []
    decreases n
  {
    if n > 1 {
      InsideTag(t, tag, n - 1);
    }
  }

  /** A whole tag is invisible and leaves the walk outside tags. */
  lemma TagIsInvisible(t: bool, tag: string)
    requires IsTag(tag)
    ensures VisibleFrom(t, tag) == [] && !WalkFrom(t, tag)
  {
    InsideTag(t, tag, |tag| - 1);
  }

  // ===========================================================================
  // Located spans
  // ===========================================================================

  /** `[start, end)` is the span the two walks produce for the `len` visible
      characters starting at visible offset `k`: `start` is the first offset
      with `k` visible characters before it, and `end` the first offset
      from `start` on with `k + len` before it. */
  predicate SpanOf(doc: string, k: nat, len: nat, start: nat, end: nat) {
    && start <= end <= |doc|
    && CountBefore(doc, start) == k && (start == 0 || CountBefore(doc, start - 1) < k)
    && CountBefore(doc, end) == k + len && (end == start || CountBefore(doc, end - 1) < k + len)
  }

  /** The walk is outside any tag at both ends of a located span. */
  lemma SpanEndsOutsideTags(doc: string, k: nat, len: nat, start: nat, end: nat)
    requires SpanOf(doc, k, len, start, end)
    ensures !WalkTo(false, doc, start) && !WalkTo(false, doc, end)
  {
    if start > 0 {
      CountedLeavesTag(doc, start);
    }
    if end > start {
      CountedLeavesTag(doc, end);
    }
  }

  /** The visible text before a position is the visible prefix of the
      whole document. */
  lemma PrefixText(doc: string, i: nat)
    requires i <= |doc|
    ensures Plain(doc[..i]) == VisibleTo(false, doc, i)
    ensures Plain(doc[..i]) <= Plain(doc)
  {
    WalkPrefix(false, doc[..i], doc, i);
    PlainSplit(doc, i);
  }

  /** The visible text after an offset where the walk is outside tags. */
  lemma SuffixText(doc: string, i: nat)
    requires i <= |doc| && !WalkTo(false, doc, i)
    ensures Plain(doc) == VisibleTo(false, doc, i) + Plain(doc[i..])
  {
    PlainSplit(doc, i);
  }

  /** The visible text of a segment between two offsets outside tags. */
  lemma MiddleText(doc: string, i: nat, j: nat)
    requires i <= j <= |doc| && !WalkTo(false, doc, i)
    ensures VisibleTo(false, doc, j) == VisibleTo(false, doc, i) + Plain(doc[i..j])
  {
    VisibleGrows(doc, i, j);
    WalkPrefix(false, doc[i..j], doc[i..], j - i);
  }

  /** What a span covers: exactly the visible characters `k .. k + len`;
      the visible text before and after it is untouched. */
  lemma SpanText(doc: string, k: nat, len: nat, start: nat, end: nat)
    requires SpanOf(doc, k, len, start, end)
    ensures k + len <= |Plain(doc)|
    ensures Plain(doc[..start]) == Plain(doc)[..k]
    ensures Plain(doc[start..end]) == Plain(doc)[k..k + len]
    ensures Plain(doc[end..]) == Plain(doc)[k + len..]
  {
    SpanEndsOutsideTags(doc, k, len, start, end);
    PrefixText(doc, start);
    SuffixText(doc, end);
    MiddleText(doc, start, end);
  }

  /** The first offset at or after `lo` with `m` visible characters before
      it is unique. */
  lemma FirstOffsetUnique(doc: string, m: nat, lo: nat, a: nat, b: nat)
    requires lo <= a <= |doc| && lo <= b <= |doc|
    requires CountBefore(doc, a) == m && (a == lo || CountBefore(doc, a - 1) < m)
    requires CountBefore(doc, b) == m && (b == lo || CountBefore(doc, b - 1) < m)
    ensures a == b
  {
    if a < b {
      VisibleGrows(doc, a, b - 1);
    } else if b < a {
      VisibleGrows(doc, b, a - 1);
    }
  }

  /** The span of a visible range is unique. */
  lemma SpanUnique(doc: string, k: nat, len: nat, s1: nat, e1: nat, s2: nat, e2: nat)
    requires SpanOf(doc, k, len, s1, e1) && SpanOf(doc, k, len, s2, e2)
    ensures s1 == s2 && e1 == e2
  {
    FirstOffsetUnique(doc, k, 0, s1, s2);
    FirstOffsetUnique(doc, k + len, s1, e1, e2);
  }

  /** The two walks: advance over the document until `k` visible characters
      have been passed (the start offset), then continue with the same
      `inTag` flag until `len` more have been passed (the end offset). */
  method LocateSpan(doc: string, k: nat, len: nat) returns (start: nat, end: nat)
    requires k + len <= |Plain(doc)|
    ensures SpanOf(doc, k, len, start, end)
  {
    var htmlIndex := 0;
    var plainIndex := 0;
    var inTag := false;
    var i := 0;
    while i < |doc| && plainIndex < k
      invariant 0 <= i <= |doc| && htmlIndex == i
      invariant inTag == WalkTo(false, doc, i)
      invariant plainIndex == CountBefore(doc, i) <= k
      invariant i == 0 || CountBefore(doc, i - 1) < k
    {
      if doc[i] == '<' {
        inTag := true;
      } else if doc[i] == '>' {
        inTag := false;
      } else if !inTag {
        plainIndex := plainIndex + 1;
      }
      htmlIndex := i + 1;
      i := i + 1;
    }
    start := htmlIndex;

    var endHtmlIndex := htmlIndex;
    var endPlainIndex := plainIndex;
    i := htmlIndex;
    while i < |doc| && endPlainIndex - plainIndex < len
      invariant start <= i <= |doc| && endHtmlIndex == i
      invariant inTag == WalkTo(false, doc, i)
      invariant endPlainIndex == CountBefore(doc, i) <= k + len
      invariant i == start || CountBefore(doc, i - 1) < k + len
    {
      if doc[i] == '<' {
        inTag := true;
      } else if doc[i] == '>' {
        inTag := false;
      } else if !inTag {
        endPlainIndex := endPlainIndex + 1;
      }
      endHtmlIndex := i + 1;
      i := i + 1;
    }
    end := endHtmlIndex;
  }

  // ===========================================================================
  // Widening the span over surrounding tags
  // ===========================================================================

  /** Whether a `<` at `i` starts a closing tag (`</`). */
  predicate CloserAt(doc: string, i: nat)
    requires i < |doc|
  {
    doc[i] == '<' && i + 1 < |doc| && doc[i + 1] == '/'
  }

  /** The backward scan's count change at `i`: `>` and `</` count +1, any
      other `<` counts -1. */
  function BackDelta(doc: string, i: nat): int
    requires i < |doc|
  {
    if doc[i] == '>' || CloserAt(doc, i) then 1 else if doc[i] == '<' then -1 else 0
  }

  /** The backward scan's count over `doc[i..start]`. */
  function BackBalance(doc: string, i: nat, start: nat): int
    requires i <= start <= |doc|
    decreases start - i
  {
    if i == start then 0 else BackDelta(doc, i) + BackBalance(doc, i + 1, start)
  }

  /** The backward scan's result: from `start - 1` down to `start - 200`
      (and not below 0), the segment starts at the first position where the
      count drops below zero, which is the nearest opening tag not closed
      before `start`; without one the segment starts at `start`. */
  predicate BackWidened(doc: string, start: nat, segStart: nat)
    requires start <= |doc|
  {
    && segStart <= start
    && (segStart == start ==>
          forall i :: 0 <= i < start && start - 200 <= i ==> BackBalance(doc, i, start) >= 0)
    && (segStart < start ==>
          && start - 200 <= segStart && doc[segStart] == '<'
          && BackBalance(doc, segStart, start) < 0
          && forall i :: segStart < i < start ==> BackBalance(doc, i, start) >= 0)
  }

  method WidenBackward(doc: string, start: nat) returns (segStart: nat)
    requires start <= |doc|
    ensures BackWidened(doc, start, segStart)
  {
    segStart := start;
    var bracketCount := 0;
    var i := start - 1;
    while i >= 0 && i >= start - 200
      invariant start - 201 <= i < start && -1 <= i
      invariant segStart == start
      invariant bracketCount == BackBalance(doc, i + 1, start)
      invariant forall j :: i < j < start ==> BackBalance(doc, j, start) >= 0
      decreases i
    {
      if doc[i] == '>' {
        bracketCount := bracketCount + 1;
      } else if doc[i] == '<' {
        if i + 1 < |doc| && doc[i + 1] == '/' {
          bracketCount := bracketCount + 1;
        } else {
          bracketCount := bracketCount - 1;
          if bracketCount < 0 {
            segStart := i;
            break;
          }
        }
      }
      i := i - 1;
    }
  }

  /** The forward scan's count over `doc[end..i]`: `</` counts -1, any other
      `<` counts +1. */
  function ForwardBalance(doc: string, end: nat, i: nat): int
    requires end <= i <= |doc|
    decreases i - end
  {
    if i == end then 0
    else
      var d := if CloserAt(doc, i - 1) then -1 else if doc[i - 1] == '<' then 1 else 0;
      ForwardBalance(doc, end, i - 1) + d
  }

  /** A closing tag at `i` that brings the forward count back to zero. */
  predicate ClosesSegment(doc: string, end: nat, i: nat)
    requires end <= i < |doc|
  {
    CloserAt(doc, i) && ForwardBalance(doc, end, i + 1) == 0
  }

  /** The first closing tag within 200 characters of `end` that brings the
      forward count back to zero. */
  predicate FirstCloserAt(doc: string, end: nat, i: nat) {
    && end <= i < |doc| && i < end + 200 && ClosesSegment(doc, end, i)
    && forall j :: end <= j < i ==> !ClosesSegment(doc, end, j)
  }

  /** The forward scan's result: the segment ends just after the first `>`
      at or after the first zero-balance closing tag; when there is no such
      tag, or no `>` follows it, the segment ends at `end`. */
  predicate ForwardWidened(doc: string, end: nat, segEnd: nat) {
    && end <= segEnd <= |doc|
    && ((forall i :: end <= i < |doc| && i < end + 200 ==> !ClosesSegment(doc, end, i)) ==> segEnd == end)
    && forall i :: end <= i < |doc| && FirstCloserAt(doc, end, i) ==>
         || (segEnd == end && forall m :: i <= m < |doc| ==> doc[m] != '>')
         || (&& i < segEnd && doc[segEnd - 1] == '>'
             && forall m :: i <= m < segEnd - 1 ==> doc[m] != '>')
  }

  method WidenForward(doc: string, end: nat) returns (segEnd: nat)
    requires end <= |doc|
    ensures ForwardWidened(doc, end, segEnd)
  {
    segEnd := end;
    var bracketCount := 0;
    var i := end;
    while i < |doc| && i < end + 200
      invariant end <= i <= |doc|
      invariant segEnd == end
      invariant bracketCount == ForwardBalance(doc, end, i)
      invariant forall j :: end <= j < i ==> !ClosesSegment(doc, end, j)
    {
      if doc[i] == '<' {
        if i + 1 < |doc| && doc[i + 1] == '/' {
          bracketCount := bracketCount - 1;
          if bracketCount == 0 {
            assert ClosesSegment(doc, end, i);
            var j := i;
            while j < |doc|
              invariant i <= j <= |doc|
              invariant segEnd == end
              invariant forall m :: i <= m < j ==> doc[m] != '>'
            {
              if doc[j] == '>' {
                segEnd := j + 1;
                break;
              }
              j := j + 1;
            }
            return;
          }
        } else {
          bracketCount := bracketCount + 1;
        }
      }
      i := i + 1;
    }
  }

  /** The backward scan's result is determined by the document. */
  lemma BackWidenedUnique(doc: string, start: nat, a: nat, b: nat)
    requires start <= |doc| && BackWidened(doc, start, a) && BackWidened(doc, start, b)
    ensures a == b
  {
  }

  /** When some closing tag in range brings the count to zero, a first one
      does. */
  lemma {:induction false} FirstCloserExists(doc: string, end: nat, i: nat)
    requires end <= i < |doc| && i < end + 200 && ClosesSegment(doc, end, i)
    ensures exists f :: end <= f < |doc| && FirstCloserAt(doc, end, f)
    decreases i
  {
    if FirstCloserAt(doc, end, i) {
    } else {
      var j :| end <= j < i && ClosesSegment(doc, end, j);
      FirstCloserExists(doc, end, j);
    }
  }

  /** The forward scan's result is determined by the document. */
  lemma ForwardWidenedUnique(doc: string, end: nat, a: nat, b: nat)
    requires end <= |doc| && ForwardWidened(doc, end, a) && ForwardWidened(doc, end, b)
    ensures a == b
  {
    if exists i :: end <= i < |doc| && i < end + 200 && ClosesSegment(doc, end, i) {
      var i :| end <= i < |doc| && i < end + 200 && ClosesSegment(doc, end, i);
      FirstCloserExists(doc, end, i);
      var f :| end <= f < |doc| && FirstCloserAt(doc, end, f);
    }
  }
}
