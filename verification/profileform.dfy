/** The profile form's record handling in the profile display: the value
    normalisation and cleaning applied before a form is saved
    (`normalizeFormValue`, `cleanFormData`) and the field update on input
    (`handleInputChange`). A form is a map from field names to JSON-shaped
    values; the key order of the JavaScript object is not modelled. */
module ProfileForm {
  import opened Js
  import opened Strings

  /** The fields whose comma-separated text becomes a list. */
  const ArrayFields: set<string> :=
    {"technicalSkills", "softSkills", "certifications", "achievements", "hobbies", "interests"}

  /** A list of strings as a JSON array. */
  function StrArr(items: seq<string>): (r: seq<Value>)
    ensures |r| == |items|
    ensures forall i :: 0 <= i < |r| ==> r[i] == Str(items[i])
  {
    seq(|items|, i requires 0 <= i < |items| => Str(items[i]))
  }

  /** The list an array field's text becomes: `split(',')`, each item
      trimmed, empty items dropped. */
  function CommaList(s: string): (r: seq<string>)
    ensures Seqs.IsSubsequence(r, TrimAll(Split(s, ',')))
    ensures forall x :: multiset(r)[x] == if x != [] then multiset(TrimAll(Split(s, ',')))[x] else 0
  {
    TrimmedNonEmpty(Split(s, ','))
  }

  /** `normalizeFormValue(key, value)`: arrays are kept as they are; text in
      an array field becomes its comma list; anything else is kept. */
  function NormalizeFormValue(key: string, v: Value): (r: Value)
    ensures r.Arr? <==> v.Arr? || (key in ArrayFields && v.Str?)
    ensures !(key in ArrayFields && v.Str?) ==> r == v
    ensures key in ArrayFields && v.Str? ==> r.items == StrArr(CommaList(v.s))
    ensures key in ArrayFields && v.Str? ==>
              forall i :: 0 <= i < |r.items| ==>
                r.items[i].Str? && r.items[i].s != [] && Trim(r.items[i].s) == r.items[i].s
                && ',' !in r.items[i].s
  {
    if v.Arr? then v
    else if key in ArrayFields && v.Str? then
      CommaListItems(v.s);
      Arr(StrArr(CommaList(v.s)))
    else v
  }

  /** The items of a comma list are trimmed, non-empty and comma-free. */
  lemma CommaListItems(s: string)
    ensures forall i :: 0 <= i < |CommaList(s)| ==>
              CommaList(s)[i] != [] && Trim(CommaList(s)[i]) == CommaList(s)[i] && ',' !in CommaList(s)[i]
  {
    var parts := Split(s, ',');
    var r := CommaList(s);
    forall i | 0 <= i < |r|
      ensures ',' !in r[i]
    {
      var j :| 0 <= j < |parts| && TrimAll(parts)[j] == r[i];
      TrimIsInfix(parts[j]);
    }
  }

  /** Every character of `s` is white space or the separator. */
  predicate BlankList(s: string, sep: char) {
    forall c :: c in s ==> IsSpace(c) || c == sep
  }

  /** A text is blank apart from separators exactly when every piece of
      its split is blank. */
  lemma SplitBlank(s: string, sep: char)
    ensures BlankList(s, sep) <==> AllBlank(Split(s, sep))
  {
    var r := Split(s, sep);
    SplitPiecesFromText(s, sep);
    SplitTextInPieces(s, sep);
    if BlankList(s, sep) {
      forall i | 0 <= i < |r|
        ensures AllSpace(r[i])
      {
        forall m | 0 <= m < |r[i]|
          ensures IsSpace(r[i][m])
        {
          assert r[i][m] in r[i];
          assert r[i][m] in s;
        }
      }
      assert forall i :: 0 <= i < |r| ==> AllSpace(r[i]);
    } else {
      var c :| c in s && !IsSpace(c) && c != sep;
      var i :| 0 <= i < |r| && c in r[i];
      var m :| 0 <= m < |r[i]| && r[i][m] == c;
      assert !AllSpace(r[i]);
      assert !AllBlank(r);
    }
    assert r == Split(s, sep);
  }

  /** An array field's text yields an empty list exactly when it holds
      nothing but white space and commas. */
  lemma CommaListEmptyIff(s: string)
    ensures CommaList(s) == [] <==> BlankList(s, ',')
  {
    var parts := Split(s, ',');
    SplitBlank(s, ',');
    TrimmedNonEmptyEmptyIff(parts);
  }

  /** The cleaned value of one entry: normalised, and trimmed when text. */
  function CleanValue(key: string, v: Value): Value {
    var n := NormalizeFormValue(key, v);
    if n.Str? then Str(Trim(n.s)) else n
  }

  /** Whether `cleanFormData` keeps an entry: not `undefined` or `null`,
      not blank text, not an empty list. */
  predicate Kept(key: string, v: Value) {
    var c := CleanValue(key, v);
    !v.Undefined? && !v.Null? && !(c.Str? && c.s == []) && !(c.Arr? && c.items == [])
  }

  /** When an entry survives, stated on the input value alone. */
  predicate Meaningful(key: string, v: Value) {
    match v
    case Undefined => false
    case Null => false
    case Bool(_) => true
    case Num(_) => true
    case Str(s) => if key in ArrayFields then !BlankList(s, ',') else !AllSpace(s)
    case Arr(items) => items != []
  }

  /** `cleanFormData(source)`. */
  function CleanFormData(source: map<string, Value>): (r: map<string, Value>)
    ensures r.Keys <= source.Keys
    ensures forall k :: k in r ==>
              && !r[k].Undefined? && !r[k].Null?
              && (r[k].Str? ==> r[k].s != [] && Trim(r[k].s) == r[k].s)
              && (r[k].Arr? ==> r[k].items != [])
  {
    var r := map k | k in source && Kept(k, source[k]) :: CleanValue(k, source[k]);
    assert forall k :: k in r && r[k].Str? ==> Trim(r[k].s) == r[k].s by {
      forall k | k in r && r[k].Str? ensures Trim(r[k].s) == r[k].s {
        TrimIdempotent(NormalizeFormValue(k, source[k]).s);
      }
    }
    r
  }

  /** An entry is kept exactly when it is meaningful, and a kept entry is
      its input with text trimmed and array-field text split into items. */
  lemma CleanFormDataKeeps(source: map<string, Value>, k: string)
    requires k in source
    ensures k in CleanFormData(source) <==> Meaningful(k, source[k])
    ensures k in CleanFormData(source) && source[k].Str? && k !in ArrayFields ==>
              CleanFormData(source)[k] == Str(Trim(source[k].s))
    ensures k in CleanFormData(source) && source[k].Str? && k in ArrayFields ==>
              CleanFormData(source)[k] == Arr(StrArr(CommaList(source[k].s)))
    ensures k in CleanFormData(source) && !source[k].Str? ==> CleanFormData(source)[k] == source[k]
  {
    var v := source[k];
    if v.Str? {
      if k in ArrayFields {
        CommaListEmptyIff(v.s);
      } else {
        TrimEmptyIff(v.s);
      }
    }
  }

  /** Cleaning a cleaned form changes nothing. */
  lemma CleanFormDataIdempotent(source: map<string, Value>)
    ensures CleanFormData(CleanFormData(source)) == CleanFormData(source)
  {
    var c := CleanFormData(source);
    forall k | k in c
      ensures k in CleanFormData(c) && CleanFormData(c)[k] == c[k]
    {
      CleanFormDataKeeps(source, k);
      CleanFormDataKeeps(c, k);
      var v := c[k];
      if v.Str? {
        assert k !in ArrayFields;
        TrimEmptyIff(v.s);
      }
    }
  }

  // ===========================================================================
  // Input changes
  // ===========================================================================

  /** An input's change event: a checkbox reports `checked`, any other
      input its text `value`. */
  datatype InputEvent = Checkbox(name: string, checked: bool) | Field(name: string, value: string)

  /** The detail field a checkbox clears when it is unchecked. */
  function DetailsOf(name: string): Option<string> {
    if name == "hasInternship" then Some("internshipDetails")
    else if name == "hasExperience" then Some("experienceDetails")
    else None
  }

  /** `handleInputChange(event)` on the form values: the changed field takes
      the event's value; unchecking an internship or experience checkbox
      also empties its details; every other field is unchanged. */
  function HandleInputChange(form: map<string, Value>, ev: InputEvent): (r: map<string, Value>)
    ensures r.Keys == form.Keys + {ev.name} + (if ev.Checkbox? && !ev.checked && DetailsOf(ev.name).Some?
                                                then {DetailsOf(ev.name).value} else {})
    ensures r[ev.name] == (if ev.Checkbox? then Bool(ev.checked) else Str(ev.value))
    ensures ev.Checkbox? && !ev.checked && ev.name == "hasInternship" ==> r["internshipDetails"] == Str("")
    ensures ev.Checkbox? && !ev.checked && ev.name == "hasExperience" ==> r["experienceDetails"] == Str("")
    ensures forall k :: (k in form && k != ev.name
                         && !(ev.Checkbox? && !ev.checked && DetailsOf(ev.name) == Some(k))) ==> r[k] == form[k]
  {
    match ev
    case Field(name, value) => form[name := Str(value)]
    case Checkbox(name, checked) =>
      var r := form[name := Bool(checked)];
      if !checked && DetailsOf(name).Some? then r[DetailsOf(name).value := Str("")] else r
  }
}
