/** The record both the report page and the chatbot prepare before opening
    the psychometric test (`handleTakePsychometricTest`): the age derived
    from the date of birth (`calculateAge`), the degree mapped onto the
    test's five options (`mapDegree`) and the fixed fallback of every other
    field. The two components carry identical copies of this code; it is
    modelled once. */
module Psychometric {
  import opened Js
  import opened Strings

  // ===========================================================================
  // Age
  // ===========================================================================

  /** A calendar date as `Date` reports it: `getFullYear`, `getMonth`
      (0 to 11) and `getDate`. */
  datatype Date = Date(year: int, month: int, day: int)

  /** Whether `a` falls on or before `b` in calendar order. */
  predicate OnOrBefore(a: Date, b: Date) {
    || a.year < b.year
    || (a.year == b.year && (a.month < b.month || (a.month == b.month && a.day <= b.day)))
  }

  /** The `n`-th anniversary of `birth`. */
  function Anniversary(birth: Date, n: int): Date {
    Date(birth.year + n, birth.month, birth.day)
  }

  /** The age of `calculateAge` before its fallback: the difference of the
      years, one less when today's month and day come before the birthday's. */
  function YearsBetween(birth: Date, today: Date): int {
    var age := today.year - birth.year;
    var monthDiff := today.month - birth.month;
    if monthDiff < 0 || (monthDiff == 0 && today.day < birth.day) then age - 1 else age
  }

  /** Completed years are exactly the anniversaries already reached: the
      `n`-th has passed and the next has not, and no other count has that
      property. */
  lemma YearsBetweenCountsAnniversaries(birth: Date, today: Date)
    ensures OnOrBefore(Anniversary(birth, YearsBetween(birth, today)), today)
    ensures !OnOrBefore(Anniversary(birth, YearsBetween(birth, today) + 1), today)
    ensures forall n :: OnOrBefore(Anniversary(birth, n), today) && !OnOrBefore(Anniversary(birth, n + 1), today)
                        ==> n == YearsBetween(birth, today)
  {
  }

  /** The age used when none can be derived. */
  const DefaultAge: int := 25

  /** `calculateAge(dob)`. The text `dob` is parsed by `new Date(dob)`,
      which is outside the model: `birth` is what it yields, `None` for an
      invalid date (whose fields are NaN, so that no comparison holds). */
  function CalculateAge(dob: string, birth: Option<Date>, today: Date): (r: int)
    ensures r > 0
    ensures dob == [] || birth.None? ==> r == DefaultAge
  {
    if dob == [] then DefaultAge
    else match birth
      case None => DefaultAge
      case Some(b) =>
        var age := YearsBetween(b, today);
        if age > 0 then age else DefaultAge
  }

  /** A parsed date of birth at least one year back yields the number of
      birthdays reached; a later one (or one in the future) yields the
      default. */
  lemma CalculateAgeCountsBirthdays(dob: string, b: Date, today: Date)
    requires dob != []
    ensures OnOrBefore(Anniversary(b, 1), today) ==>
              && OnOrBefore(Anniversary(b, CalculateAge(dob, Some(b), today)), today)
              && !OnOrBefore(Anniversary(b, CalculateAge(dob, Some(b), today) + 1), today)
    ensures !OnOrBefore(Anniversary(b, 1), today) ==> CalculateAge(dob, Some(b), today) == DefaultAge
  {
    YearsBetweenCountsAnniversaries(b, today);
  }

  // ===========================================================================
  // Degree
  // ===========================================================================

  /** One rule of `mapDegree`: the option chosen when the lower-cased
      degree contains any of the keywords. */
  datatype DegreeRule = DegreeRule(keywords: seq<string>, option: string)

  /** The rules of `mapDegree`, in the order they are tried. */
  const DegreeRules: seq<DegreeRule> := [
    DegreeRule(["b.tech", "btech", "bachelor of technology"], "B.Tech"),
    DegreeRule(["bba", "bachelor of business"], "BBA"),
    DegreeRule(["b.com", "bcom", "bachelor of commerce"], "B.Com"),
    DegreeRule(["mba", "master of business"], "MBA")
  ]

  /** The options of the psychometric form's degree field. */
  const DegreeOptions: set<string> := {"B.Tech", "BBA", "B.Com", "MBA", "Other"}

  /** Whether any of the keywords occurs in `text`. */
  predicate AnyOccurs(text: string, keywords: seq<string>) {
    |keywords| > 0 && (Contains(text, keywords[0]) || AnyOccurs(text, keywords[1..]))
  }

  predicate RuleMatches(rule: DegreeRule, text: string) {
    AnyOccurs(text, rule.keywords)
  }

  /** `mapDegree(profileDegree)`. */
  function MapDegree(degree: string): (r: string)
    ensures r in DegreeOptions
    ensures degree == [] ==> r == "B.Tech"
  {
    if degree == [] then "B.Tech"
    else
      var d := Lower(degree);
      if Contains(d, "b.tech") || Contains(d, "btech") || Contains(d, "bachelor of technology") then "B.Tech"
      else if Contains(d, "bba") || Contains(d, "bachelor of business") then "BBA"
      else if Contains(d, "b.com") || Contains(d, "bcom") || Contains(d, "bachelor of commerce") then "B.Com"
      else if Contains(d, "mba") || Contains(d, "master of business") then "MBA"
      else "Other"
  }

  /** The option of the first rule that matches `text`, `Other` when none does. */
  function FirstRuleOption(rules: seq<DegreeRule>, text: string): string {
    if |rules| == 0 then "Other"
    else if RuleMatches(rules[0], text) then rules[0].option
    else FirstRuleOption(rules[1..], text)
  }

  /** The first matching rule decides, and a table whose options are not
      `Other` yields `Other` exactly when no rule matches. */
  lemma {:induction false} FirstRuleOptionSpec(rules: seq<DegreeRule>, text: string)
    ensures forall i :: 0 <= i < |rules| && RuleMatches(rules[i], text)
                        && (forall j :: 0 <= j < i ==> !RuleMatches(rules[j], text))
                        ==> FirstRuleOption(rules, text) == rules[i].option
    ensures (forall i :: 0 <= i < |rules| ==> rules[i].option != "Other") ==>
              (FirstRuleOption(rules, text) == "Other" <==> forall i :: 0 <= i < |rules| ==> !RuleMatches(rules[i], text))
  {
    if |rules| > 0 {
      FirstRuleOptionSpec(rules[1..], text);
      assert forall i :: 1 <= i < |rules| ==> rules[i] == rules[1..][i - 1];
    }
  }

  /** `mapDegree` tries its rules in order: the first rule whose keywords
      occur in the lower-cased degree decides, `Other` when none does. */
  lemma MapDegreeFirstRule(degree: string)
    requires degree != []
    ensures MapDegree(degree) == FirstRuleOption(DegreeRules, Lower(degree))
  {
    var d := Lower(degree);
    var rules := DegreeRules;
    Keywords3(d, "b.tech", "btech", "bachelor of technology");
    if !RuleMatches(rules[0], d) {
      var rest := rules[1..];
      Keywords2(d, "bba", "bachelor of business");
      if !RuleMatches(rest[0], d) {
        var rest2 := rest[1..];
        Keywords3(d, "b.com", "bcom", "bachelor of commerce");
        if !RuleMatches(rest2[0], d) {
          var rest3 := rest2[1..];
          Keywords2(d, "mba", "master of business");
          assert rest3[1..] == [];
          assert FirstRuleOption(rest3[1..], d) == "Other";
          assert FirstRuleOption(rest2, d) == FirstRuleOption(rest3, d);
        }
        assert FirstRuleOption(rest, d) == FirstRuleOption(rest2, d);
      }
      assert FirstRuleOption(rules, d) == FirstRuleOption(rest, d);
    }
  }

  lemma Keywords1(text: string, a: string)
    ensures AnyOccurs(text, [a]) <==> Contains(text, a)
  {
    assert [a][1..] == [];
    assert !AnyOccurs(text, []);
  }

  lemma Keywords2(text: string, a: string, b: string)
    ensures AnyOccurs(text, [a, b]) <==> Contains(text, a) || Contains(text, b)
  {
    assert [a, b][1..] == [b];
    Keywords1(text, b);
  }

  lemma Keywords3(text: string, a: string, b: string, c: string)
    ensures AnyOccurs(text, [a, b, c]) <==> Contains(text, a) || Contains(text, b) || Contains(text, c)
  {
    assert [a, b, c][1..] == [b, c];
    Keywords2(text, b, c);
  }

  // ===========================================================================
  // The prepared record
  // ===========================================================================

  /** The profile fields the preparation reads; a missing or empty field
      is `""`. */
  datatype UserProfile = UserProfile(
    name: string, email: string, phone: string, dob: string,
    currentDegree: string, degree: string, branch: string, specialization: string,
    interests: string, goals: string, certifications: string, achievements: string,
    technicalSkills: string, softSkills: string, hobbies: string)

  /** The session data handed to the psychometric test. */
  datatype TestProfile = TestProfile(
    name: string, email: string, phone: string, age: int, degree: string,
    specialization: string, careerInterest: string, certifications: string,
    achievements: string, technicalSkills: string, softSkills: string,
    interests: string, hobbies: string)

  /** The record `handleTakePsychometricTest` stores: every field is the
      profile's value when present, else its fixed default. */
  function PrepareTestProfile(p: UserProfile, birth: Option<Date>, today: Date): (r: TestProfile)
    ensures r.age > 0 && r.degree in DegreeOptions
    ensures r.name != [] && r.email != [] && r.phone != [] && r.specialization != []
            && r.careerInterest != [] && r.certifications != [] && r.achievements != []
            && r.technicalSkills != [] && r.softSkills != [] && r.interests != [] && r.hobbies != []
  {
    TestProfile(
      Or(p.name, "User"),
      Or(p.email, "user@example.com"),
      Or(p.phone, "0000000000"),
      CalculateAge(p.dob, birth, today),
      MapDegree(Or(p.currentDegree, p.degree)),
      Or(Or(p.branch, p.specialization), "General"),
      Or(Or(p.interests, p.goals), "Career Development"),
      Or(p.certifications, "None"),
      Or(p.achievements, "None"),
      Or(p.technicalSkills, "General Skills"),
      Or(p.softSkills, "Communication, Teamwork"),
      Or(Or(p.interests, p.goals), "Learning and Development"),
      Or(p.hobbies, "Reading, Learning"))
  }

  /** An empty profile yields the defaults throughout. */
  lemma PrepareEmptyProfile(birth: Option<Date>, today: Date)
    ensures PrepareTestProfile(UserProfile("", "", "", "", "", "", "", "", "", "", "", "", "", "", ""), birth, today)
            == TestProfile("User", "user@example.com", "0000000000", DefaultAge, "B.Tech", "General",
                           "Career Development", "None", "None", "General Skills",
                           "Communication, Teamwork", "Learning and Development", "Reading, Learning")
  {
  }

  /** A field the profile supplies is taken over unchanged; the preferred
      source wins over its alternative (current degree over degree, branch
      over specialization, interests over goals), and the career interest
      equals the interests whenever either source is present. */
  lemma PrepareKeepsSupplied(p: UserProfile, birth: Option<Date>, today: Date)
    ensures var r := PrepareTestProfile(p, birth, today);
            && (p.name != [] ==> r.name == p.name)
            && (p.email != [] ==> r.email == p.email)
            && (p.phone != [] ==> r.phone == p.phone)
            && (p.currentDegree != [] ==> r.degree == MapDegree(p.currentDegree))
            && (p.branch != [] ==> r.specialization == p.branch)
            && (p.branch == [] && p.specialization != [] ==> r.specialization == p.specialization)
            && (p.interests != [] ==> r.interests == p.interests && r.careerInterest == p.interests)
            && (p.interests == [] && p.goals != [] ==> r.interests == p.goals && r.careerInterest == p.goals)
            && (p.certifications != [] ==> r.certifications == p.certifications)
            && (p.achievements != [] ==> r.achievements == p.achievements)
            && (p.technicalSkills != [] ==> r.technicalSkills == p.technicalSkills)
            && (p.softSkills != [] ==> r.softSkills == p.softSkills)
            && (p.hobbies != [] ==> r.hobbies == p.hobbies)
  {
  }
}
