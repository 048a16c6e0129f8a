/** Text shaping in the template displays: phone and date-suffix
    formatting and the cover-letter segmentation of `CoverLetterDisplay`,
    and the derived fields of `DesignerPortraitDisplay`. */
module TemplateDisplays {
  import opened Js
  import opened Strings
  import Seqs

  // ===========================================================================
  // Phone numbers and ordinal suffixes
  // ===========================================================================

  /** The decimal digits of `s`, in order (`s.replace(/\D/g, '')`). */
  function DigitsOf(s: string): (r: string)
    ensures forall i :: 0 <= i < |r| ==> IsDigit(r[i])
  {
    Seqs.Filter(s, IsDigit)
  }

  /** `formatPhone(phone)`: empty stays empty; a number with exactly ten
      digits is shown as `(ddd) ddd-dddd`; anything else is kept. */
  function FormatPhone(phone: string): (r: string)
    ensures phone == [] ==> r == []
    ensures |DigitsOf(phone)| != 10 ==> r == phone
    ensures |DigitsOf(phone)| == 10 ==>
              && |r| == 14 && r[0] == '(' && r[4] == ')' && r[5] == ' ' && r[9] == '-'
              && r[1..4] == DigitsOf(phone)[..3] && r[6..9] == DigitsOf(phone)[3..6]
              && r[10..] == DigitsOf(phone)[6..]
  {
    if phone == [] then []
    else
      var digits := DigitsOf(phone);
      if |digits| == 10 then "(" + digits[..3] + ") " + digits[3..6] + "-" + digits[6..]
      else phone
  }

  /** The digits of `s` followed by those of `t`. */
  lemma DigitsOfConcat(s: string, t: string)
    ensures DigitsOf(s + t) == DigitsOf(s) + DigitsOf(t)
  {
    Seqs.FilterConcat(s, t, IsDigit);
  }

  lemma AllDigits(s: string)
    requires forall i :: 0 <= i < |s| ==> IsDigit(s[i])
    ensures DigitsOf(s) == s
  {
    Seqs.FilterAll(s, IsDigit);
  }

  lemma NoDigits(s: string)
    requires forall i :: 0 <= i < |s| ==> !IsDigit(s[i])
    ensures DigitsOf(s) == []
  {
    Seqs.FilterNone(s, IsDigit);
  }

  /** Digits, then a piece without digits, then digits. */
  lemma DigitsAround(x: string, sep: string, y: string)
    requires forall i :: 0 <= i < |sep| ==> !IsDigit(sep[i])
    ensures DigitsOf(x + sep + y) == DigitsOf(x) + DigitsOf(y)
  {
    NoDigits(sep);
    DigitsOfConcat(x, sep);
    DigitsOfConcat(x + sep, y);
  }

  /** The head `(ddd) ddd` of the formatted shape. */
  lemma DigitsOfHead(a: string, b: string)
    requires forall i :: 0 <= i < |a| ==> IsDigit(a[i])
    requires forall i :: 0 <= i < |b| ==> IsDigit(b[i])
    ensures DigitsOf("(" + a + ") " + b) == a + b
  {
    AllDigits(a);
    AllDigits(b);
    DigitsAround("", "(", a);
    assert "" + "(" + a == "(" + a;
    DigitsAround("(" + a, ") ", b);
  }

  /** The formatted shape of ten digits holds exactly those digits. */
  lemma DigitsOfShape(d: string)
    requires |d| == 10 && forall i :: 0 <= i < |d| ==> IsDigit(d[i])
    ensures DigitsOf("(" + d[..3] + ") " + d[3..6] + "-" + d[6..]) == d
  {
    var head := "(" + d[..3] + ") " + d[3..6];
    DigitsOfHead(d[..3], d[3..6]);
    AllDigits(d[6..]);
    DigitsAround(head, "-", d[6..]);
    assert d[..3] + d[3..6] + d[6..] == d;
  }

  /** Formatting keeps the digit sequence, so formatting a formatted
      number changes nothing more. */
  lemma FormatPhoneKeepsDigits(phone: string)
    ensures DigitsOf(FormatPhone(phone)) == DigitsOf(phone)
    ensures FormatPhone(FormatPhone(phone)) == FormatPhone(phone)
  {
    var d := DigitsOf(phone);
    if phone != [] && |d| == 10 {
      DigitsOfShape(d);
    }
  }

  /** JavaScript's `n % d` for positive `d`: truncating, so the remainder
      takes the sign of `n`. */
  function JsRem(n: int, d: int): (r: int)
    requires d > 0
    ensures n >= 0 ==> r == n % d
    ensures -d < r < d
  {
    if n >= 0 then n % d else -((-n) % d)
  }

  /** `getOrdinalSuffix(n)`. */
  function OrdinalSuffix(n: int): (r: string)
    ensures r in {"st", "nd", "rd", "th"}
  {
    if n > 3 && n < 21 then "th"
    else
      var m := JsRem(n, 10);
      if m == 1 then "st" else if m == 2 then "nd" else if m == 3 then "rd" else "th"
  }

  /** For the days of a month: 1, 21 and 31 take `st`, 2 and 22 `nd`,
      3 and 23 `rd`, and every other day (11, 12 and 13 included) `th`. */
  lemma OrdinalSuffixOfDays(day: int)
    requires 1 <= day <= 31
    ensures OrdinalSuffix(day) == "st" <==> day == 1 || day == 21 || day == 31
    ensures OrdinalSuffix(day) == "nd" <==> day == 2 || day == 22
    ensures OrdinalSuffix(day) == "rd" <==> day == 3 || day == 23
    ensures OrdinalSuffix(day) == "th" <==> !(day in {1, 2, 3, 21, 22, 23, 31})
  {
    assert "st" != "th" && "nd" != "th" && "rd" != "th" && "st" != "nd" && "st" != "rd" && "nd" != "rd";
  }

  // ===========================================================================
  // Cover-letter segmentation
  // ===========================================================================

  /** The non-blank lines of a text, trimmed, in order
      (`split('\n').map(trim).filter(...)`). */
  function Lines(text: string): (r: seq<string>)
    ensures forall i :: 0 <= i < |r| ==> r[i] != [] && Trim(r[i]) == r[i]
    ensures Seqs.IsSubsequence(r, TrimAll(Split(text, '\n')))
    ensures forall x :: multiset(r)[x] == if x != [] then multiset(TrimAll(Split(text, '\n')))[x] else 0
  {
    TrimmedNonEmpty(Split(text, '\n'))
  }

  predicate IsSalutation(line: string) {
    StartsWith(Lower(line), "dear")
  }

  /** A closing line mentions "regards" or "sincerely", in any case. */
  predicate IsClosing(line: string) {
    var l := Lower(line);
    Contains(l, "regards") || Contains(l, "sincerely") || (Contains(l, "best") && Contains(l, "regards"))
  }

  /** The parts a cover letter is shown in. `salutationIndex` and
      `closingIndex` are positions in the lines, -1 when absent; the body
      starts at `bodyStart`. */
  datatype CoverLetter = CoverLetter(
    companyInfo: string,
    companyAddress: string,
    salutationIndex: int,
    salutation: string,
    bodyStart: nat,
    closingIndex: int,
    body: seq<string>,
    closing: string,
    signature: seq<string>)

  /** The segmentation in `CoverLetterDisplay`, applied to the letter's
      `Lines`. */
  function SegmentCoverLetter(lines: seq<string>): (c: CoverLetter)
    ensures c.companyInfo == (if |lines| > 0 then lines[0] else "")
    ensures c.companyAddress == (if |lines| > 1 && !IsSalutation(lines[1]) then lines[1] else "")
  {
    var companyInfo := if |lines| > 0 then lines[0] else "";
    var companyAddress := if |lines| > 1 && !IsSalutation(lines[1]) then lines[1] else "";
    var salutationIdx := Seqs.FindFrom(lines, IsSalutation, 0);
    var salutation := if salutationIdx != -1 then lines[salutationIdx] else "";
    var bodyStart: nat := if salutationIdx != -1 then salutationIdx + 1 else if companyAddress != "" then 2 else 1;
    var closingIndex := Seqs.FindFrom(lines, IsClosing, bodyStart);
    var bodyEnd: nat := if closingIndex != -1 then closingIndex else |lines|;
    CoverLetter(
      companyInfo, companyAddress, salutationIdx, salutation, bodyStart, closingIndex,
      Seqs.Slice(lines, bodyStart, bodyEnd),
      if closingIndex != -1 then lines[closingIndex] else "",
      if closingIndex != -1 then lines[closingIndex + 1..] else [])
  }

  /** The salutation is the first line starting with "dear" (any case) and
      the body starts right after it; without one the body starts after
      the company lines. */
  lemma SalutationAndBodyStart(lines: seq<string>)
    ensures var c := SegmentCoverLetter(lines);
            && (c.salutationIndex != -1 ==>
                  && 0 <= c.salutationIndex < |lines| && IsSalutation(lines[c.salutationIndex])
                  && c.salutation == lines[c.salutationIndex] && c.bodyStart == c.salutationIndex + 1
                  && forall j :: 0 <= j < c.salutationIndex ==> !IsSalutation(lines[j]))
            && (c.salutationIndex == -1 ==>
                  && c.salutation == ""
                  && (forall j :: 0 <= j < |lines| ==> !IsSalutation(lines[j]))
                  && c.bodyStart == (if c.companyAddress != [] then 2 else 1))
  {
  }

  /** The closing is the first closing line at or after the body start. */
  lemma ClosingIsFirst(lines: seq<string>)
    ensures var c := SegmentCoverLetter(lines);
            && (c.closingIndex != -1 ==>
                  && c.bodyStart <= c.closingIndex < |lines| && IsClosing(lines[c.closingIndex])
                  && c.closing == lines[c.closingIndex]
                  && forall j :: c.bodyStart <= j < c.closingIndex ==> !IsClosing(lines[j]))
            && (c.closingIndex == -1 ==>
                  c.closing == "" && c.signature == [] && forall j :: c.bodyStart <= j < |lines| ==> !IsClosing(lines[j]))
  {
  }

  /** Where the body, closing and signature sit in the lines. */
  lemma SegmentBounds(lines: seq<string>)
    ensures var c := SegmentCoverLetter(lines);
            && (c.closingIndex != -1 ==>
                  && c.bodyStart <= c.closingIndex < |lines|
                  && c.body == lines[c.bodyStart..c.closingIndex]
                  && c.closing == lines[c.closingIndex] && c.signature == lines[c.closingIndex + 1..])
            && (c.closingIndex == -1 ==>
                  && c.signature == []
                  && c.body == (if c.bodyStart <= |lines| then lines[c.bodyStart..] else []))
  {
    ClosingIsFirst(lines);
  }

  /** The lines from the body start on are the body, then (when there is
      one) the closing line and the signature: the parts are disjoint and
      cover the rest of the letter. */
  lemma CoverLetterPartition(lines: seq<string>)
    ensures var c := SegmentCoverLetter(lines);
            && (c.closingIndex != -1 ==> lines[c.bodyStart..] == c.body + [c.closing] + c.signature)
            && (c.closingIndex == -1 && c.bodyStart <= |lines| ==> lines[c.bodyStart..] == c.body)
            && (c.bodyStart > |lines| ==> c.body == [] && c.closingIndex == -1)
  {
    var c := SegmentCoverLetter(lines);
    SegmentBounds(lines);
    if c.closingIndex != -1 {
      SplitAround(lines, c.bodyStart, c.closingIndex);
    }
  }

  lemma SplitAround<T>(s: seq<T>, b: nat, k: nat)
    requires b <= k < |s|
    ensures s[b..] == s[b..k] + [s[k]] + s[k + 1..]
  {
  }

  /** No body line is a closing line. */
  lemma BodyHasNoClosing(lines: seq<string>)
    ensures var c := SegmentCoverLetter(lines);
            forall j :: 0 <= j < |c.body| ==> !IsClosing(c.body[j])
  {
    var c := SegmentCoverLetter(lines);
    ClosingIsFirst(lines);
    var bodyEnd: nat := if c.closingIndex != -1 then c.closingIndex else |lines|;
    Seqs.NoneInSlice(lines, IsClosing, c.bodyStart, bodyEnd);
  }

  // ===========================================================================
  // Designer portrait fields
  // ===========================================================================

  /** The profile fields the portrait reads; a missing field is empty. */
  datatype Profile = Profile(
    name: string, currentDegree: string, branch: string, institute: string, city: string,
    phone: string, email: string, linkedin: string, achievements: string,
    technicalSkills: string, certifications: string, profileImage: string)

  /** `name.split(' ').filter(Boolean)`, or `['Your', 'Name']` without a name. */
  function NameParts(name: string): (r: seq<string>)
    ensures name == [] ==> r == ["Your", "Name"]
    ensures name != [] ==> forall i :: 0 <= i < |r| ==> r[i] != [] && ' ' !in r[i]
    ensures name != [] ==> Seqs.IsSubsequence(r, Split(name, ' '))
    ensures name != [] ==> forall x :: multiset(r)[x] == if x != [] then multiset(Split(name, ' '))[x] else 0
  {
    if name == [] then ["Your", "Name"]
    else
      Seqs.FilterIsSubsequence(Split(name, ' '), NonEmpty);
      Seqs.FilterCounts(Split(name, ' '), NonEmpty);
      Seqs.Filter(Split(name, ' '), NonEmpty)
  }

  /** A name without blanks is its own single part; a name of blanks only
      has no parts at all (it is not replaced by the placeholder). */
  lemma NamePartsOfWord(name: string)
    ensures name != [] && ' ' !in name ==> NameParts(name) == [name]
    ensures name != [] && (forall i :: 0 <= i < |name| ==> name[i] == ' ') ==> NameParts(name) == []
  {
    if name != [] && ' ' !in name {
      SplitWithoutSeparator(name, ' ');
    }
    if name != [] && forall i :: 0 <= i < |name| ==> name[i] == ' ' {
      SplitOfSeparators(name, ' ');
      var r := Split(name, ' ');
      Seqs.FilterIsSubsequence(r, NonEmpty);
      var f := Seqs.Filter(r, NonEmpty);
    }
  }

  lemma {:induction false} SplitWithoutSeparator(s: string, sep: char)
    requires s != [] && sep !in s
    ensures Split(s, sep) == [s]
    decreases |s|
  {
    if |s| == 1 {
      assert s[1..] == [];
      assert Split(s, sep) == [[s[0]] + []];
      assert [s[0]] == s;
    } else {
      assert sep !in s[1..] by {
        forall j | 0 <= j < |s| - 1 ensures s[1..][j] != sep { assert s[1..][j] == s[j + 1]; }
      }
      SplitWithoutSeparator(s[1..], sep);
      assert [s[0]] + s[1..] == s;
    }
  }

  lemma {:induction false} SplitOfSeparators(s: string, sep: char)
    requires forall i :: 0 <= i < |s| ==> s[i] == sep
    ensures forall i :: 0 <= i < |Split(s, sep)| ==> Split(s, sep)[i] == []
    decreases |s|
  {
    if |s| > 0 {
      SplitOfSeparators(s[1..], sep);
      assert Split(s, sep) == [[]] + Split(s[1..], sep);
    }
  }

  /** The separator between degree and branch, as the component writes it. */
  const DegreeSeparator := " Â· "

  /** The portrait's tagline. */
  function DegreeLine(p: Profile): (r: string)
    ensures p.currentDegree != [] && p.branch != [] ==> r == p.currentDegree + DegreeSeparator + p.branch
    ensures p.currentDegree != [] && p.branch == [] ==> r == p.currentDegree
    ensures p.currentDegree == [] ==> r == (if p.branch != [] then p.branch else "Creative Professional")
    ensures r != []
  {
    if p.currentDegree != [] then p.currentDegree + (if p.branch != [] then DegreeSeparator + p.branch else "")
    else Or(p.branch, "Creative Professional")
  }

  datatype Contact = Contact(caption: string, value: string)

  /** A contact row when its value is present (`value && {...}`). */
  function RowIf(caption: string, value: string): seq<Contact> {
    if value != [] then [Contact(caption, value)] else []
  }

  /** Position of a caption in the fixed contact order. */
  function Rank(caption: string): nat {
    if caption == "Phone" then 0 else if caption == "Email" then 1 else if caption == "LinkedIn" then 2 else 3
  }

  /** The contact rows (`[phone && {...}, ...].filter(Boolean)`). */
  function ContactItems(p: Profile): seq<Contact> {
    RowIf("Phone", p.phone) + RowIf("Email", p.email) + RowIf("LinkedIn", p.linkedin)
    + RowIf("Location", Or(p.institute, p.city))
  }

  /** Every row shown has a value, and rows keep the fixed order Phone,
      Email, LinkedIn, Location. */
  lemma ContactItemsOrdered(p: Profile)
    ensures var r := ContactItems(p);
            && (forall i :: 0 <= i < |r| ==> r[i].value != [])
            && forall i, j :: 0 <= i < j < |r| ==> Rank(r[i].caption) < Rank(r[j].caption)
  {
  }

  /** A row is shown exactly when its value is present; the location is
      the institute, else the city. */
  lemma ContactItemsShown(p: Profile)
    ensures var r := ContactItems(p);
            && (Contact("Phone", p.phone) in r <==> p.phone != [])
            && (Contact("Email", p.email) in r <==> p.email != [])
            && (Contact("LinkedIn", p.linkedin) in r <==> p.linkedin != [])
            && (Contact("Location", Or(p.institute, p.city)) in r <==> Or(p.institute, p.city) != [])
  {
  }

  /** The portfolio text: the highlights and focus-area sentences that
      apply, joined by `. `. */
  function PortfolioText(p: Profile): (r: string)
    ensures p.achievements == [] && p.technicalSkills == [] ==> r == []
    ensures p.achievements != [] && p.technicalSkills == [] ==> r == "Recent highlights: " + p.achievements
    ensures p.achievements == [] && p.technicalSkills != [] ==> r == "Focus areas: " + p.technicalSkills
    ensures p.achievements != [] && p.technicalSkills != [] ==>
              r == "Recent highlights: " + p.achievements + ". " + "Focus areas: " + p.technicalSkills
  {
    var parts := (if p.achievements != [] then ["Recent highlights: " + p.achievements] else [])
                 + (if p.technicalSkills != [] then ["Focus areas: " + p.technicalSkills] else []);
    assert |parts| == 2 ==> parts[1..] == [parts[1]] && Join(parts[1..], ". ") == parts[1];
    Join(parts, ". ")
  }

  const PlaceholderPhoto := "https://via.placeholder.com/420x520.png?text=Profile"

  /** The portrait photo: the profile image unless it is blank. */
  function Photo(p: Profile): (r: string)
    ensures AllSpace(p.profileImage) ==> r == PlaceholderPhoto
    ensures !AllSpace(p.profileImage) ==> r == p.profileImage
  {
    TrimEmptyIff(p.profileImage);
    if Trim(p.profileImage) != [] then p.profileImage else PlaceholderPhoto
  }
}
