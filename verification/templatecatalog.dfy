/** The template picker: loading the catalogue without deprecated
    templates, ordering it (the curated order first, the rest by name),
    filling in display defaults, searching, scrolling the carousel and
    routing a click. */
module TemplateCatalog {
  import opened Js
  import opened Strings
  import Seqs
  import Sorting

  /** A template of the catalogue; missing text fields are `""`. */
  datatype Template = Template(id: string, name: string, description: string, icon: string, previewImageUrl: string)

  /** The curated order of `TEMPLATE_ORDER`. */
  const TemplateOrder: seq<string> :=
    ["professional", "bio", "modern-professional", "story", "executive", "professional-profile", "cover", "industry"]

  /** Templates that are no longer offered. */
  const DeprecatedIds: set<string> := {"formal-letter", "portfolio"}

  // ===========================================================================
  // Loading
  // ===========================================================================

  predicate Offered(t: Template) {
    t.id !in DeprecatedIds
  }

  /** The catalogue as loaded: the fetched templates without the deprecated
      ones, in their order. */
  function LoadTemplates(fetched: seq<Template>): (r: seq<Template>)
    ensures forall i :: 0 <= i < |r| ==> r[i].id !in DeprecatedIds
    ensures forall i :: 0 <= i < |fetched| && fetched[i].id !in DeprecatedIds ==> fetched[i] in r
    ensures Seqs.IsSubsequence(r, fetched)
    ensures forall t :: multiset(r)[t] == if t.id !in DeprecatedIds then multiset(fetched)[t] else 0
  {
    Seqs.FilterIsSubsequence(fetched, Offered);
    Seqs.FilterCounts(fetched, Offered);
    Seqs.Filter(fetched, Offered)
  }

  /** The fields of a failed fetch's response body (`""` when missing) and
      the error's own message. */
  datatype FetchError = FetchError(bodyMessage: string, bodyError: string, bodyData: string, message: string)

  const LoadFailed: string := "Unable to load templates right now. Please try again."

  /** The error shown when the fetch fails: the first of the body's
      `message`, `error` and `data`, the error's message, the default. */
  function LoadErrorMessage(e: FetchError): (r: string)
    ensures r != []
    ensures e.bodyMessage != [] ==> r == e.bodyMessage
    ensures e.bodyMessage == [] && e.bodyError != [] ==> r == e.bodyError
    ensures e.bodyMessage == [] && e.bodyError == [] && e.bodyData != [] ==> r == e.bodyData
    ensures e.bodyMessage == [] && e.bodyError == [] && e.bodyData == [] && e.message != [] ==> r == e.message
    ensures e.bodyMessage == [] && e.bodyError == [] && e.bodyData == [] && e.message == [] ==> r == LoadFailed
  {
    Or(Or(Or(Or(e.bodyMessage, e.bodyError), e.bodyData), e.message), LoadFailed)
  }

  // ===========================================================================
  // Ordering
  // ===========================================================================

  /** `TEMPLATE_ORDER.indexOf(id)`, with unlisted ids after every listed one. */
  function Rank(id: string): (r: nat)
    ensures r <= |TemplateOrder|
    ensures r < |TemplateOrder| <==> id in TemplateOrder
    ensures r < |TemplateOrder| ==> TemplateOrder[r] == id
  {
    var k := Seqs.FindFrom(TemplateOrder, (x: string) => x == id, 0);
    if k == -1 then |TemplateOrder| else k
  }

  /** Code-point order on names, standing in for `localeCompare`. */
  predicate NameLe(a: string, b: string)
    decreases |a|
  {
    |a| == 0 || (|b| > 0 && (a[0] < b[0] || (a[0] == b[0] && NameLe(a[1..], b[1..]))))
  }

  lemma {:induction false} NameLeTotal(a: string, b: string)
    ensures NameLe(a, b) || NameLe(b, a)
    decreases |a|
  {
    if |a| > 0 && |b| > 0 && a[0] == b[0] {
      NameLeTotal(a[1..], b[1..]);
    }
  }

  lemma {:induction false} NameLeTransitive(a: string, b: string, c: string)
    requires NameLe(a, b) && NameLe(b, c)
    ensures NameLe(a, c)
    decreases |a|
  {
    if |a| > 0 && a[0] == b[0] && b[0] == c[0] {
      NameLeTransitive(a[1..], b[1..], c[1..]);
    }
  }

  /** The comparator of the sort, as "`a` may come before `b`": listed ids
      by their position, listed before unlisted, unlisted ones by name. */
  predicate Le(a: Template, b: Template) {
    var ra := Rank(a.id);
    var rb := Rank(b.id);
    if ra == |TemplateOrder| && rb == |TemplateOrder| then NameLe(a.name, b.name)
    else ra <= rb
  }

  lemma LeTotal(a: Template, b: Template)
    ensures Le(a, b) || Le(b, a)
  {
    NameLeTotal(a.name, b.name);
  }

  lemma LeTransitive(a: Template, b: Template, c: Template)
    requires Le(a, b) && Le(b, c)
    ensures Le(a, c)
  {
    if Rank(a.id) == |TemplateOrder| && Rank(c.id) == |TemplateOrder| {
      NameLeTransitive(a.name, b.name, c.name);
    }
  }

  /** The comparator is a total preorder, as the sort needs. */
  lemma LeIsTotalPreorder()
    ensures Sorting.TotalPreorder(Le)
  {
    forall a, b
      ensures Le(a, b) || Le(b, a)
    {
      LeTotal(a, b);
    }
    forall a, b, c | Le(a, b) && Le(b, c)
      ensures Le(a, c)
    {
      LeTransitive(a, b, c);
    }
  }

  /** The sorted catalogue (`[...templates].sort(...)`). */
  function SortTemplates(s: seq<Template>): (r: seq<Template>)
    ensures |r| == |s|
    ensures multiset(r) == multiset(s)
    ensures forall i :: 0 <= i < |r| - 1 ==> Le(r[i], r[i + 1])
  {
    LeIsTotalPreorder();
    Sorting.SortByCorrect(s, Le);
    Sorting.SortBy(s, Le)
  }

  /** The sort orders the catalogue and only reorders it. */
  lemma SortTemplatesCorrect(s: seq<Template>)
    ensures forall i, j :: 0 <= i < j < |SortTemplates(s)| ==> Le(SortTemplates(s)[i], SortTemplates(s)[j])
    ensures multiset(SortTemplates(s)) == multiset(s)
  {
    LeIsTotalPreorder();
    Sorting.SortByCorrect(s, Le);
  }

  /** In the sorted catalogue listed templates come first, in the curated
      order, and unlisted ones follow by name. */
  lemma SortedOrder(s: seq<Template>)
    ensures var r := SortTemplates(s);
            forall i, j :: 0 <= i < j < |r| ==>
              && (r[j].id in TemplateOrder ==> r[i].id in TemplateOrder && Rank(r[i].id) <= Rank(r[j].id))
              && (r[i].id !in TemplateOrder && r[j].id !in TemplateOrder ==> NameLe(r[i].name, r[j].name))
  {
    SortTemplatesCorrect(s);
  }

  // ===========================================================================
  // Display defaults
  // ===========================================================================

  /** An entry of `TEMPLATE_ICONS`. */
  datatype IconStyle = IconStyle(icon: string, bgColor: string, iconColor: string)

  function IconTable(id: string): Option<IconStyle> {
    if id == "professional" then Some(IconStyle("\U{1F4BC}", "#EEF2FF", "#4F46E5"))
    else if id == "bio" then Some(IconStyle("\U{2728}", "#FEF3C7", "#D97706"))
    else if id == "modern-professional" then Some(IconStyle("\U{1F464}", "#D1FAE5", "#059669"))
    else if id == "story" then Some(IconStyle("\U{1F4D6}", "#D1FAE5", "#059669"))
    else if id == "executive" then Some(IconStyle("\U{2699}\U{FE0F}", "#FCE7F3", "#DB2777"))
    else if id == "professional-profile" then Some(IconStyle("\U{1F4F7}", "#DBEAFE", "#2563EB"))
    else if id == "cover" then Some(IconStyle("\U{1F33F}", "#FFEDD5", "#EA580C"))
    else if id == "industry" then Some(IconStyle("\U{1F4CA}", "#FEE2E2", "#DC2626"))
    else None
  }

  const FallbackIcon: string := "\U{1F9FE}"
  const DefaultDescription: string := "Personalized profile template"
  const DefaultBgColor: string := "#F3F4F6"
  const DefaultIconColor: string := "#6B7280"

  /** A template with what the card shows. */
  datatype Resolved = Resolved(
    template: Template, displayName: string, displayDescription: string,
    displayIcon: string, iconBgColor: string, iconColor: string)

  function Resolve(t: Template): (r: Resolved)
    ensures r.template == t
    ensures r.displayDescription != [] && r.displayIcon != [] && r.iconBgColor != [] && r.iconColor != []
    ensures t.name != [] ==> r.displayName == t.name
    ensures t.name == [] ==> r.displayName == t.id
    ensures t.description != [] ==> r.displayDescription == t.description
    ensures t.description == [] ==> r.displayDescription == DefaultDescription
    ensures IconTable(t.id).Some? ==>
              && r.displayIcon == IconTable(t.id).value.icon
              && r.iconBgColor == IconTable(t.id).value.bgColor
              && r.iconColor == IconTable(t.id).value.iconColor
    ensures IconTable(t.id).None? ==>
              && (t.icon != [] ==> r.displayIcon == t.icon)
              && (t.icon == [] ==> r.displayIcon == FallbackIcon)
              && r.iconBgColor == DefaultBgColor && r.iconColor == DefaultIconColor
  {
    var style := IconTable(t.id);
    Resolved(t, Or(t.name, t.id), Or(t.description, DefaultDescription),
             if style.Some? then style.value.icon else Or(t.icon, FallbackIcon),
             if style.Some? then style.value.bgColor else DefaultBgColor,
             if style.Some? then style.value.iconColor else DefaultIconColor)
  }

  /** Every curated template has its own icon style, so only unlisted
      templates fall back to the fetched icon. */
  lemma ListedHaveStyles(id: string)
    ensures IconTable(id).Some? <==> id in TemplateOrder
  {
  }

  /** `resolvedTemplates`. */
  function ResolveAll(templates: seq<Template>): (r: seq<Resolved>)
    ensures |r| == |templates|
    ensures forall i :: 0 <= i < |r| ==> r[i] == Resolve(SortTemplates(templates)[i])
  {
    var sorted := SortTemplates(templates);
    seq(|sorted|, i requires 0 <= i < |sorted| => Resolve(sorted[i]))
  }

  // ===========================================================================
  // Search
  // ===========================================================================

  /** Whether a card answers the lower-cased query. */
  predicate Answers(t: Resolved, query: string) {
    Contains(Lower(t.displayName), query) || Contains(Lower(t.displayDescription), query)
  }

  /** `filteredTemplates`: all cards for a blank query, otherwise those whose
      lower-cased name or description contains the lower-cased query (which
      is not trimmed). */
  function Search(cards: seq<Resolved>, searchQuery: string): (r: seq<Resolved>)
    ensures AllSpace(searchQuery) ==> r == cards
    ensures !AllSpace(searchQuery) ==>
              && Seqs.IsSubsequence(r, cards)
              && (forall i :: 0 <= i < |r| ==> Answers(r[i], Lower(searchQuery)))
              && (forall i :: 0 <= i < |cards| && Answers(cards[i], Lower(searchQuery)) ==> cards[i] in r)
              && (forall t :: multiset(r)[t] == if Answers(t, Lower(searchQuery)) then multiset(cards)[t] else 0)
  {
    TrimEmptyIff(searchQuery);
    if Trim(searchQuery) == [] then cards
    else
      var query := Lower(searchQuery);
      var answers := (t: Resolved) => Answers(t, query);
      Seqs.FilterIsSubsequence(cards, answers);
      Seqs.FilterCounts(cards, answers);
      Seqs.Filter(cards, answers)
  }

  // ===========================================================================
  // Carousel and clicks
  // ===========================================================================

  const ScrollAmount: int := 320

  /** `handleScroll(direction)`: without the carousel nothing moves;
      `left` moves back, never below 0, anything else moves forward. */
  function Scroll(position: int, direction: string, hasCarousel: bool): (r: int)
    ensures !hasCarousel ==> r == position
    ensures hasCarousel && direction == "left" ==>
              r >= 0 && r >= position - ScrollAmount && (r == 0 || r == position - ScrollAmount)
    ensures hasCarousel && direction != "left" ==> r == position + ScrollAmount
    ensures position >= 0 ==> r >= 0
  {
    if !hasCarousel then position
    else if direction == "left" then (if position - ScrollAmount > 0 then position - ScrollAmount else 0)
    else position + ScrollAmount
  }

  /** Scrolling right and then left comes back; so does left then right
      from at least one step in. */
  lemma ScrollInverse(position: int)
    requires position >= 0
    ensures Scroll(Scroll(position, "right", true), "left", true) == position
    ensures position >= ScrollAmount ==> Scroll(Scroll(position, "left", true), "right", true) == position
  {
  }

  /** The callback a click calls (callbacks are optional). */
  datatype ClickCall = NoCall | CoverLetterCall | SelectCall(id: string)

  /** `handleTemplateClick`: the selection and the callback. The cover
      card goes to the cover-letter flow and never selects a template; any
      other card hands its own id to the selection callback. */
  function Click(id: string, hasCoverCallback: bool, hasSelectCallback: bool): (r: (string, ClickCall))
    ensures r.0 == id
    ensures r.1.CoverLetterCall? <==> id == "cover" && hasCoverCallback
    ensures r.1.SelectCall? <==> id != "cover" && hasSelectCallback
    ensures r.1.SelectCall? ==> r.1.id == id
  {
    if id == "cover" then (id, if hasCoverCallback then CoverLetterCall else NoCall)
    else (id, if hasSelectCallback then SelectCall(id) else NoCall)
  }
}
