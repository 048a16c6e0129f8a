/** The report page's derived values: the total of the interest scores
    shown in the donut chart, the three-month roadmap parsed from the
    report's `roadmap90Days`, and the guard and payload of "enhance
    profile". */
module Report {
  import opened Js
  import opened Strings

  // ===========================================================================
  // Interest total
  // ===========================================================================

  /** The left-to-right sum `reduce((sum, val) => sum + val, 0)` of the
      first `n` scores. */
  function SumTo(xs: seq<real>, n: nat): real
    requires n <= |xs|
  {
    if n == 0 then 0.0 else SumTo(xs, n - 1) + xs[n - 1]
  }

  function Sum(xs: seq<real>): real {
    SumTo(xs, |xs|)
  }

  /** `Math.round(x)`: the nearest integer, halves rounded up. */
  function Round(x: real): (r: int)
    ensures x - 0.5 < r as real <= x + 0.5
  {
    (x + 0.5).Floor
  }

  /** `totalInterestScore`: 100 when the report has no interests object,
      otherwise the rounded sum of its scores. */
  function TotalInterestScore(interests: Option<seq<real>>): (r: int)
    ensures interests.None? ==> r == 100
    ensures interests.Some? ==> Sum(interests.value) - 0.5 < r as real <= Sum(interests.value) + 0.5
  {
    match interests
    case None => 100
    case Some(scores) => Round(Sum(scores))
  }

  /** The sum of non-negative scores is non-negative. */
  lemma {:induction false} SumToNonNegative(xs: seq<real>, n: nat)
    requires n <= |xs|
    requires forall i :: 0 <= i < |xs| ==> xs[i] >= 0.0
    ensures SumTo(xs, n) >= 0.0
  {
    if n > 0 {
      SumToNonNegative(xs, n - 1);
    }
  }

  /** The sum of whole-number scores is a whole number. */
  lemma {:induction false} SumToWhole(xs: seq<real>, n: nat)
    requires n <= |xs|
    requires forall i :: 0 <= i < |xs| ==> xs[i] == xs[i].Floor as real
    ensures SumTo(xs, n) == SumTo(xs, n).Floor as real
  {
    if n > 0 {
      SumToWhole(xs, n - 1);
      var a := SumTo(xs, n - 1).Floor;
      var b := xs[n - 1].Floor;
      assert SumTo(xs, n) == (a + b) as real;
    }
  }

  /** Rounding a whole number gives it back. */
  lemma RoundWhole(k: int)
    ensures Round(k as real) == k
  {
    var r := Round(k as real);
    assert (r - k) as real > -1.0 && (r - k) as real < 1.0;
  }

  /** With whole-number scores the total is their exact sum. */
  lemma TotalOfWholeScores(scores: seq<real>)
    requires forall i :: 0 <= i < |scores| ==> scores[i] == scores[i].Floor as real
    ensures TotalInterestScore(Some(scores)) as real == Sum(scores)
  {
    SumToWhole(scores, |scores|);
    RoundWhole(Sum(scores).Floor);
  }

  /** With non-negative scores the total is never negative. */
  lemma TotalOfNonNegativeScores(scores: seq<real>)
    requires forall i :: 0 <= i < |scores| ==> scores[i] >= 0.0
    ensures TotalInterestScore(Some(scores)) >= 0
  {
    SumToNonNegative(scores, |scores|);
  }

  /** An interests object without scores totals 0, unlike a missing one,
      which totals 100. */
  lemma TotalOfNoScores()
    ensures TotalInterestScore(Some([])) == 0
    ensures TotalInterestScore(None) == 100
  {
    RoundWhole(0);
  }

  // ===========================================================================
  // Roadmap
  // ===========================================================================

  /** One month of the roadmap card. */
  datatype Month = Month(title: string, description: string)

  /** The report's `roadmap90Days`: absent (or `null`), an object (with or
      without a `months` list), or text. */
  datatype RoadmapValue = NoRoadmap | Plan(months: Option<seq<Month>>) | Text(text: string)

  /** What `String(x)` gives for a plain object. */
  const ObjectText: string := "[object Object]"

  /** The titles of the three months of a parsed roadmap. */
  const Titles: seq<string> := ["Month 1: Foundation", "Month 2: Application", "Month 3: Refinement"]

  /** The longest description shown (`substring(0, 150)`). */
  const DescriptionCap: nat := 150

  /** The characters the regular expression `.` does not match. */
  predicate IsLineTerminator(c: char) {
    c == '\n' || c == '\r' || c == '\U{2028}' || c == '\U{2029}'
  }

  /** `month\s*<d>`, case-insensitively, at position `i`: the position
      after the digit, if the marker is there. */
  function MarkerEnd(s: string, i: nat, d: char): (r: Option<nat>)
    ensures r.Some? ==> i + 5 < r.value <= |s|
  {
    if i + 5 <= |s| && Lower(s[i..i + 5]) == "month" then
      var j := SkipSpaces(s, i + 5);
      if j < |s| && s[j] == d then Some(j + 1) else None
    else None
  }

  predicate IsColonOrSpace(c: char) {
    c == ':' || IsSpace(c)
  }

  /** The end of the run `[:\s]*` that starts at `i`. */
  function SkipColonSpaces(s: string, i: nat): (r: nat)
    requires i <= |s|
    ensures i <= r <= |s|
    decreases |s| - i
  {
    if i < |s| && IsColonOrSpace(s[i]) then SkipColonSpaces(s, i + 1) else i
  }

  /** The look-ahead `(?=month\s*<stop>|$)` at `p`; `stop` is `None` for
      the third month, whose pattern ends in `$` alone. */
  predicate Lookahead(s: string, p: nat, stop: Option<char>) {
    p == |s| || (stop.Some? && MarkerEnd(s, p, stop.value).Some?)
  }

  /** Where the lazy group `(.*?)` begun at `e` stops: the first position
      where the look-ahead holds, unless a line terminator comes first. */
  function GroupEnd(s: string, e: nat, stop: Option<char>): (r: Option<nat>)
    requires e <= |s|
    ensures r.Some? ==> e <= r.value <= |s|
    decreases |s| - e
  {
    if Lookahead(s, e, stop) then Some(e)
    else if IsLineTerminator(s[e]) then None
    else GroupEnd(s, e + 1, stop)
  }

  /** The group ends at the first look-ahead position and crosses no line
      terminator. */
  lemma {:induction false} GroupEndSound(s: string, e: nat, stop: Option<char>)
    requires e <= |s|
    requires GroupEnd(s, e, stop).Some?
    ensures Lookahead(s, GroupEnd(s, e, stop).value, stop)
    ensures forall p :: e <= p < GroupEnd(s, e, stop).value ==> !IsLineTerminator(s[p]) && !Lookahead(s, p, stop)
    decreases |s| - e
  {
    if !Lookahead(s, e, stop) {
      GroupEndSound(s, e + 1, stop);
    }
  }

  /** A line terminator at `p` with no look-ahead position from `e` up to
      it. */
  ghost predicate BlockedAt(s: string, e: nat, p: nat, stop: Option<char>) {
    e <= p < |s| && IsLineTerminator(s[p]) && forall k :: e <= k <= p ==> !Lookahead(s, k, stop)
  }

  /** The group fails to close exactly when a line terminator comes before
      any look-ahead position. */
  lemma {:induction false} GroupEndFails(s: string, e: nat, stop: Option<char>)
    requires e <= |s|
    ensures GroupEnd(s, e, stop).None? <==> exists p :: BlockedAt(s, e, p, stop)
    decreases |s| - e
  {
    if Lookahead(s, e, stop) {
      assert forall p :: !BlockedAt(s, e, p, stop);
    } else if IsLineTerminator(s[e]) {
      assert BlockedAt(s, e, e, stop);
    } else {
      GroupEndFails(s, e + 1, stop);
      if GroupEnd(s, e, stop).None? {
        var p :| BlockedAt(s, e + 1, p, stop);
        assert BlockedAt(s, e, p, stop);
      } else {
        forall p | BlockedAt(s, e, p, stop)
          ensures false
        {
          assert BlockedAt(s, e + 1, p, stop);
        }
      }
    }
  }

  /** Whether `/month\s*<d>[:\s]*(.*?)(?=month\s*<stop>|$)/i` matches
      at `p`: the marker is there and the group after it closes. The greedy
      `[:\s]*` never gives characters back: a group starting earlier would
      start on `:` or white space, where the look-ahead fails, and would
      then meet the same line terminator. */
  predicate MatchAt(s: string, p: nat, d: char, stop: Option<char>)
    requires p <= |s|
  {
    var m := MarkerEnd(s, p, d);
    m.Some? && GroupEnd(s, SkipColonSpaces(s, m.value), stop).Some?
  }

  /** The bounds of the group captured by the match at `p`. */
  function GroupAt(s: string, p: nat, d: char, stop: Option<char>): (r: (nat, nat))
    requires p <= |s| && MatchAt(s, p, d, stop)
    ensures r.0 <= r.1 <= |s|
  {
    var q := SkipColonSpaces(s, MarkerEnd(s, p, d).value);
    (q, GroupEnd(s, q, stop).value)
  }

  /** `text.match(...)` searching from `i`: the group of the leftmost match. */
  function MatchFrom(s: string, i: nat, d: char, stop: Option<char>): (r: Option<(nat, nat)>)
    requires i <= |s|
    ensures r.Some? ==> r.value.0 <= r.value.1 <= |s|
    decreases |s| - i
  {
    if i == |s| then None
    else if MatchAt(s, i, d, stop) then Some(GroupAt(s, i, d, stop))
    else MatchFrom(s, i + 1, d, stop)
  }

  /** A match at `p` with none before it from `i` on. */
  ghost predicate LeftmostAt(s: string, i: nat, p: nat, d: char, stop: Option<char>) {
    i <= p < |s| && MatchAt(s, p, d, stop) && forall k :: i <= k < p ==> !MatchAt(s, k, d, stop)
  }

  /** When `p` is the leftmost start with a match, the search returns the
      group of the match at `p`. */
  lemma {:induction false} MatchFromLeftmost(s: string, i: nat, d: char, stop: Option<char>, p: nat)
    requires i <= |s|
    requires LeftmostAt(s, i, p, d, stop)
    ensures MatchFrom(s, i, d, stop) == Some(GroupAt(s, p, d, stop))
    decreases |s| - i
  {
    if p != i {
      assert !MatchAt(s, i, d, stop);
      assert LeftmostAt(s, i + 1, p, d, stop);
      MatchFromLeftmost(s, i + 1, d, stop, p);
    }
  }

  /** No match is found exactly when no start from `i` on has one. */
  lemma {:induction false} MatchFromNone(s: string, i: nat, d: char, stop: Option<char>)
    requires i <= |s|
    ensures MatchFrom(s, i, d, stop).None? <==> forall k :: i <= k <= |s| ==> !MatchAt(s, k, d, stop)
    decreases |s| - i
  {
    if i < |s| && !MatchAt(s, i, d, stop) {
      MatchFromNone(s, i + 1, d, stop);
    }
  }

  /** `text.trim().substring(0, 150)`. */
  function Describe(text: string): (r: string)
    ensures |r| <= DescriptionCap
  {
    var t := Trim(text);
    if |t| <= DescriptionCap then t else t[..DescriptionCap]
  }

  /** The description taken from a match, empty without one. */
  function DescribeMatch(s: string, m: Option<(nat, nat)>): (r: string)
    requires m.Some? ==> m.value.0 <= m.value.1 <= |s|
  {
    if m.Some? then Describe(s[m.value.0..m.value.1]) else ""
  }

  /** The three months with the given descriptions. */
  function ThreeMonths(a: string, b: string, c: string): (r: seq<Month>)
    ensures |r| == 3
    ensures r[0] == Month(Titles[0], a) && r[1] == Month(Titles[1], b) && r[2] == Month(Titles[2], c)
  {
    [Month(Titles[0], a), Month(Titles[1], b), Month(Titles[2], c)]
  }

  /** The fallback without month markers: the text cut at `floor(n / 3)`
      and twice that. */
  function Thirds(s: string): seq<Month> {
    var third := |s| / 3;
    ThreeMonths(Describe(s[..third]), Describe(s[third..2 * third]), Describe(s[2 * third..]))
  }

  /** The groups of the three month patterns, searched over the whole text. */
  function Month1Match(s: string): Option<(nat, nat)> { MatchFrom(s, 0, '1', Some('2')) }
  function Month2Match(s: string): Option<(nat, nat)> { MatchFrom(s, 0, '2', Some('3')) }
  function Month3Match(s: string): Option<(nat, nat)> { MatchFrom(s, 0, '3', None) }

  /** The three months parsed from roadmap text: each month's description
      from its pattern's match, or, when none of the three patterns matches,
      the text cut into thirds. */
  function ParseRoadmapText(s: string): (r: seq<Month>)
    ensures |r| == 3
    ensures r == ThreeMonths(r[0].description, r[1].description, r[2].description)
    ensures |r[0].description| <= DescriptionCap && |r[1].description| <= DescriptionCap
            && |r[2].description| <= DescriptionCap
  {
    var m1 := Month1Match(s);
    var m2 := Month2Match(s);
    var m3 := Month3Match(s);
    if m1.None? && m2.None? && m3.None? then Thirds(s)
    else ThreeMonths(DescribeMatch(s, m1), DescribeMatch(s, m2), DescribeMatch(s, m3))
  }

  /** `roadmapMonths`: nothing without a roadmap, a structured plan's months
      as they are, otherwise the months parsed from the value as text. */
  function RoadmapMonths(v: RoadmapValue): (r: Option<seq<Month>>)
    ensures r.None? <==> v.NoRoadmap? || v == Text("")
    ensures v.Plan? && v.months.Some? ==> r == v.months
    ensures v.Text? && v.text != [] ==> r.Some? && |r.value| == 3
    ensures v.Plan? && v.months.None? ==> r.Some? && |r.value| == 3
  {
    match v
    case NoRoadmap => None
    case Plan(months) => if months.Some? then months else Some(ParseRoadmapText(ObjectText))
    case Text(text) => if text == [] then None else Some(ParseRoadmapText(text))
  }

  /** A description is the piece of its text after the leading white space. */
  lemma DescribeAfterLead(t: string)
    ensures Lead(t) + |Describe(t)| <= |t|
    ensures Describe(t) == t[Lead(t)..Lead(t) + |Describe(t)|]
  {
    TrimIsInfix(t);
  }

  /** A description is a piece of the text it was cut from. */
  lemma DescribeIsInfix(s: string, a: nat, b: nat)
    requires a <= b <= |s|
    ensures Contains(s, Describe(s[a..b]))
  {
    var t := s[a..b];
    DescribeAfterLead(t);
    assert OccursAt(t, Describe(t), Lead(t));
    ContainsInSlice(s, a, b, Describe(t));
  }

  /** The description of a match is a piece of the text. */
  lemma DescribeMatchIsInfix(s: string, m: Option<(nat, nat)>)
    requires m.Some? ==> m.value.0 <= m.value.1 <= |s|
    ensures Contains(s, DescribeMatch(s, m))
  {
    if m.Some? {
      DescribeIsInfix(s, m.value.0, m.value.1);
    } else {
      assert OccursAt(s, "", 0);
    }
  }

  /** Each third is a piece of the text. */
  lemma ThirdsFromText(s: string)
    ensures var r := Thirds(s);
            Contains(s, r[0].description) && Contains(s, r[1].description) && Contains(s, r[2].description)
  {
    var third := |s| / 3;
    DescribeIsInfix(s, 0, third);
    DescribeIsInfix(s, third, 2 * third);
    DescribeIsInfix(s, 2 * third, |s|);
    assert s[..third] == s[0..third] && s[2 * third..] == s[2 * third..|s|];
  }

  /** Every description of a parsed roadmap is a piece of the roadmap text. */
  lemma ParsedDescriptionsFromText(s: string)
    ensures var r := ParseRoadmapText(s);
            Contains(s, r[0].description) && Contains(s, r[1].description) && Contains(s, r[2].description)
  {
    var m1 := Month1Match(s);
    var m2 := Month2Match(s);
    var m3 := Month3Match(s);
    if m1.None? && m2.None? && m3.None? {
      ThirdsFromText(s);
    } else {
      DescribeMatchIsInfix(s, m1);
      DescribeMatchIsInfix(s, m2);
      DescribeMatchIsInfix(s, m3);
    }
  }

  /** A marker spells "month" in the lower-cased text. */
  lemma MarkerSpellsMonth(s: string, i: nat, d: char)
    requires MarkerEnd(s, i, d).Some?
    ensures Contains(Lower(s), "month")
  {
    LowerSlice(s, i, i + 5);
    assert OccursAt(Lower(s), "month", i);
  }

  /** Text that never mentions "month" (in any letter case) is cut into
      thirds: the first two of `floor(n / 3)` characters and the rest. */
  lemma RoadmapWithoutMonthsIsThirds(s: string)
    requires !Contains(Lower(s), "month")
    ensures var third := |s| / 3;
            ParseRoadmapText(s) == ThreeMonths(Describe(s[..third]), Describe(s[third..2 * third]), Describe(s[2 * third..]))
  {
    NoMatchWithoutMonth(s, 0, '1', Some('2'));
    NoMatchWithoutMonth(s, 0, '2', Some('3'));
    NoMatchWithoutMonth(s, 0, '3', None);
  }

  lemma {:induction false} NoMatchWithoutMonth(s: string, i: nat, d: char, stop: Option<char>)
    requires i <= |s|
    requires !Contains(Lower(s), "month")
    ensures MatchFrom(s, i, d, stop).None?
    decreases |s| - i
  {
    if i < |s| {
      if MarkerEnd(s, i, d).Some? {
        MarkerSpellsMonth(s, i, d);
      }
      NoMatchWithoutMonth(s, i + 1, d, stop);
    }
  }

  // ===========================================================================
  // Enhance profile
  // ===========================================================================

  /** A profile record as the page holds it: its template type (`""` when
      missing) and its other fields. */
  datatype ProfileRecord = ProfileRecord(templateType: string, fields: map<string, Value>)

  /** The page's `profileData`: either the record itself or a wrapper whose
      `profile` holds it, with a template type of its own. */
  datatype ProfileData = ProfileData(templateType: string, profile: Option<ProfileRecord>, fields: map<string, Value>)

  /** What is sent to regenerate the profile. */
  datatype EnhancePayload = EnhancePayload(
    templateId: string, formData: ProfileRecord,
    chatAnswers: map<string, string>, reportData: map<string, Value>)

  /** The start of `handleEnhanceProfile`: refused with a notice, or a
      regenerate request. */
  datatype EnhanceStart = Refused(notice: string) | Requested(payload: EnhancePayload)

  const CompleteChatbotFirst: string := "Please complete the chatbot first."
  const DefaultTemplate: string := "professional"

  /** `profileData?.profile?.templateType || profileData?.templateType || 'professional'`. */
  function TemplateTypeOf(data: Option<ProfileData>): string {
    var nested := if data.Some? && data.value.profile.Some? then data.value.profile.value.templateType else "";
    var outer := if data.Some? then data.value.templateType else "";
    Or(Or(nested, outer), DefaultTemplate)
  }

  /** `profileData?.profile || profileData || {}`. */
  function FormDataOf(data: Option<ProfileData>): ProfileRecord {
    match data
    case None => ProfileRecord("", map[])
    case Some(d) => if d.profile.Some? then d.profile.value else ProfileRecord(d.templateType, d.fields)
  }

  /** `handleEnhanceProfile` up to the regenerate call. */
  function StartEnhance(answers: Option<map<string, string>>, data: Option<ProfileData>,
                        reportData: Option<map<string, Value>>): (r: EnhanceStart)
    ensures r.Refused? <==> answers.None? || |answers.value| == 0
    ensures r.Refused? ==> r.notice == CompleteChatbotFirst
    ensures r.Requested? ==>
              && r.payload.chatAnswers == answers.value
              && r.payload.templateId != []
              && r.payload.reportData == (if reportData.Some? then reportData.value else map[])
  {
    if answers.None? || |answers.value| == 0 then Refused(CompleteChatbotFirst)
    else
      Requested(EnhancePayload(
        TemplateTypeOf(data), FormDataOf(data), answers.value,
        if reportData.Some? then reportData.value else map[]))
  }

  /** The template id and form data follow the precedence of the page: the
      nested profile over the wrapper, the wrapper over the defaults. */
  lemma EnhancePayloadPrecedence(answers: map<string, string>, data: Option<ProfileData>,
                                 reportData: Option<map<string, Value>>)
    requires |answers| > 0
    ensures var p := StartEnhance(Some(answers), data, reportData).payload;
            && (data.Some? && data.value.profile.Some? ==> p.formData == data.value.profile.value)
            && (data.Some? && data.value.profile.None? ==> p.formData.fields == data.value.fields)
            && (data.None? ==> p.formData == ProfileRecord("", map[]))
    ensures var p := StartEnhance(Some(answers), data, reportData).payload;
            var nested := if data.Some? && data.value.profile.Some? then data.value.profile.value.templateType else "";
            var outer := if data.Some? then data.value.templateType else "";
            && (nested != [] ==> p.templateId == nested)
            && (nested == [] && outer != [] ==> p.templateId == outer)
            && (nested == [] && outer == [] ==> p.templateId == DefaultTemplate)
  {
  }

  /** The reply of the regenerate call: its `success` flag, its `data` and
      its `error` text (`""` when missing), or a thrown error. */
  datatype RegenerateReply = Reply(success: bool, data: Option<map<string, Value>>, error: string) | Threw

  /** What the page does with the reply: go to the enhance page with the
      new profile after a success toast, or show an error notice. */
  datatype EnhanceEnd = GoToEnhance(toast: string, profileData: map<string, Value>, fromReport: bool) | Notice(message: string)

  const EnhancedToast: string := "Profile enhanced successfully!"
  const EnhanceFailed: string := "Failed to enhance profile"
  const EnhanceThrew: string := "Failed to enhance profile. Please try again."

  /** The end of `handleEnhanceProfile`, once the regenerate call is back. */
  function FinishEnhance(reply: RegenerateReply): (r: EnhanceEnd)
    ensures r.GoToEnhance? <==> reply.Reply? && reply.success && reply.data.Some?
    ensures r.GoToEnhance? ==> r.toast == EnhancedToast && r.profileData == reply.data.value && r.fromReport
    ensures reply.Threw? ==> r == Notice(EnhanceThrew)
    ensures reply.Reply? && !(reply.success && reply.data.Some?) ==>
              r.Notice? && (reply.error != [] ==> r.message == reply.error)
              && (reply.error == [] ==> r.message == EnhanceFailed)
  {
    match reply
    case Threw => Notice(EnhanceThrew)
    case Reply(success, data, error) =>
      if success && data.Some? then GoToEnhance(EnhancedToast, data.value, true)
      else Notice(Or(error, EnhanceFailed))
  }

  /** Every notice is non-empty and tells its cause: a thrown call, a
      failure without a message and a failure with one show different
      texts, and a failure's own message is shown exactly as sent. */
  lemma EnhanceNoticeTellsCause(reply: RegenerateReply)
    ensures var r := FinishEnhance(reply);
            && (r.Notice? ==> r.message != [])
            && (r.Notice? && r.message == EnhanceThrew && reply.Reply? ==> reply.error == EnhanceThrew)
            && (r.Notice? && r.message == EnhanceFailed && reply.Reply? ==> reply.error in {[], EnhanceFailed})
            && (r.Notice? && reply.Reply? && r.message !in {EnhanceThrew, EnhanceFailed} ==> r.message == reply.error)
  {
  }
}
