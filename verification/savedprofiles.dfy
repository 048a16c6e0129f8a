/** The saved-profiles page: each card's avatar initials, the name, the
    degree line and the created date shown for a saved profile. */
module SavedProfiles {
  import opened Js
  import opened Strings

  // ===========================================================================
  // Initials
  // ===========================================================================

  const Unnamed: string := "UN"

  function Min(a: nat, b: nat): nat {
    if a <= b then a else b
  }

  /** The pieces of a trimmed name split on single blanks begin with a
      letter of the name: the first with its first character, the last
      with the character after its last blank. */
  lemma TrimmedPieces(t: string)
    requires t != [] && !IsSpace(t[0]) && !IsSpace(t[|t| - 1])
    ensures var words := Split(t, ' ');
            && words[0] != [] && words[0][0] == t[0]
            && LastIndexOfChar(t, ' ') + 1 < |t|
            && words[|words| - 1] != [] && words[|words| - 1][0] == t[LastIndexOfChar(t, ' ') + 1]
  {
    SplitFirstPiece(t, ' ');
    SplitLastPiece(t, ' ');
  }

  /** The first letters of the first and last pieces of a trimmed name
      that holds a blank, upper-cased. */
  function FirstAndLast(t: string): (r: string)
    requires t != [] && !IsSpace(t[0]) && !IsSpace(t[|t| - 1])
    requires |Split(t, ' ')| >= 2
    ensures |r| == 2
  {
    var words := Split(t, ' ');
    TrimmedPieces(t);
    Upper([words[0][0], words[|words| - 1][0]])
  }

  /** `getInitials` as written: a missing name gives `UN`; a name whose
      trimmed text splits on blanks into several words gives the first
      letters of the first and last words; any other name gives its first
      two characters, counted in the name as given, before trimming. */
  function InitialsAsWritten(name: string): (r: string)
    ensures |r| <= 2
    ensures name == [] ==> r == Unnamed
  {
    if name == [] then Unnamed
    else if |Split(Trim(name), ' ')| >= 2 then FirstAndLast(Trim(name))
    else Upper(name[..Min(2, |name|)])
  }

  /** A name with a leading blank and a single word: its initials begin
      with the blank, where the trimmed name gives two letters. */
  lemma LeadingBlankInitials()
    ensures InitialsAsWritten(" ann") == " A"
    ensures IsSpace(InitialsAsWritten(" ann")[0])
    ensures Initials(" ann") == "AN"
  {
    var name := " ann";
    assert SkipSpaces(name, 1) == 1;
    assert SkipSpaces(name, 0) == 1;
    assert SkipSpacesBack(name, 1, 4) == 4;
    assert Trim(name) == "ann";
    var t := "ann";
    assert t[0] != ' ' && t[1] != ' ' && t[2] != ' ';
    SplitOnePiece(t, ' ');
  }

  /** `getInitials` with the single-word case read from the trimmed name,
      and a blank name treated as a missing one. */
  function Initials(name: string): (r: string)
    ensures 1 <= |r| <= 2
  {
    var t := Trim(name);
    if t == [] then Unnamed
    else if |Split(t, ' ')| >= 2 then FirstAndLast(t)
    else Upper(t[..Min(2, |t|)])
  }

  /** The initials begin with the name's first visible character,
      upper-cased; when the name holds a blank they end with the first
      character after its last blank, otherwise with its second visible
      character if there is one. A blank or missing name gives `UN`. */
  lemma InitialsFromName(name: string)
    ensures var t := Trim(name);
            var r := Initials(name);
            && (t == [] ==> r == Unnamed)
            && (t != [] ==> r[0] == UpperChar(t[0]))
            && (t != [] && LastIndexOfChar(t, ' ') != -1 ==>
                  |r| == 2 && r[1] == UpperChar(t[LastIndexOfChar(t, ' ') + 1]))
            && (t != [] && LastIndexOfChar(t, ' ') == -1 ==> r == Upper(t[..Min(2, |t|)]))
  {
    var t := Trim(name);
    if t != [] {
      SplitOnePiece(t, ' ');
      TrimmedPieces(t);
    }
  }

  /** The initials never start with white space. */
  lemma InitialsStartVisible(name: string)
    ensures !IsSpace(Initials(name)[0])
  {
    var t := Trim(name);
    if t != [] {
      InitialsFromName(name);
      assert !IsSpace(t[0]);
    }
  }

  /** On a name without leading or trailing white space the page's
      initials and the corrected ones agree. */
  lemma InitialsAgreeOnTrimmedNames(name: string)
    requires name != [] && Trim(name) == name
    ensures InitialsAsWritten(name) == Initials(name)
  {
  }

  // ===========================================================================
  // The card's text
  // ===========================================================================

  /** A profile field as the page receives it: absent, `null`, or text. */
  datatype Field = Absent | NullField | Text(s: string)

  predicate FieldTruthy(f: Field) {
    f.Text? && f.s != []
  }

  /** A field interpolated into a template literal. */
  function Interpolated(f: Field): string {
    match f
    case Absent => "undefined"
    case NullField => "null"
    case Text(s) => s
  }

  const Separator: string := " - "

  /** The degree row of a card: with a branch, the interpolated degree, a
      dash and the branch; without one, the degree alone; no row when that
      is empty or missing. */
  function DegreeRow(currentDegree: Field, branch: Field): (r: Option<string>)
    ensures r.Some? <==> FieldTruthy(currentDegree) || FieldTruthy(branch)
    ensures FieldTruthy(branch) ==> r == Some(Interpolated(currentDegree) + Separator + branch.s)
    ensures !FieldTruthy(branch) && FieldTruthy(currentDegree) ==> r == Some(currentDegree.s)
  {
    if FieldTruthy(branch) then Some(Interpolated(currentDegree) + Separator + branch.s)
    else if FieldTruthy(currentDegree) then Some(currentDegree.s)
    else None
  }

  /** A degree in which no blank is followed by a dash is read back from
      its row as the text before the first separator, and the branch as
      the text after it. */
  lemma DegreeRowReadBack(degree: string, branch: string)
    requires branch != [] && !Contains(degree, " -")
    ensures var row := DegreeRow(Text(degree), Text(branch)).value;
            var k := IndexOf(row, Separator);
            && k == |degree|
            && row[..k] == degree
            && row[k + |Separator|..] == branch
  {
    var row := DegreeRow(Text(degree), Text(branch)).value;
    assert row == degree + Separator + branch;
    assert OccursAt(row, Separator, |degree|) by {
      assert row[|degree|..|degree| + 3] == Separator;
    }
    forall i | 0 <= i < |degree|
      ensures !OccursAt(row, Separator, i)
    {
      if i + 2 <= |degree| {
        assert !OccursAt(degree, " -", i);
        assert degree[i..i + 2][0] == degree[i] && degree[i..i + 2][1] == degree[i + 1];
        assert degree[i] != ' ' || degree[i + 1] != '-';
        assert row[i] == degree[i] && row[i + 1] == degree[i + 1];
      } else {
        assert row[i + 1] == Separator[0];
      }
      assert i + 3 <= |row| ==> row[i..i + 3][0] == row[i] && row[i..i + 3][1] == row[i + 1];
    }
    assert row[..|degree|] == degree;
    assert row[|degree| + 3..] == branch;
  }

  /** The name shown on a card. */
  function NameShown(name: string): (r: string)
    ensures r != []
    ensures name != [] ==> r == name
    ensures name == [] ==> r == "Unnamed Profile"
  {
    Or(name, "Unnamed Profile")
  }

  /** `text.replace(',', ', ')`: a blank inserted after the first comma,
      if there is one. */
  function BlankAfterFirstComma(text: string): (r: string)
    ensures !Contains(text, ",") ==> r == text
    ensures Contains(text, ",") ==>
              var k := IndexOf(text, ",");
              && |r| == |text| + 1
              && r[..k + 1] == text[..k + 1] && r[k + 1] == ' ' && r[k + 2..] == text[k + 1..]
  {
    var k := IndexOf(text, ",");
    if k == -1 then text else text[..k + 1] + " " + text[k + 1..]
  }

  /** The inserted blank does not move the first comma, and taking it out
      again gives back the text as it was. */
  lemma BlankAfterFirstCommaInverse(text: string)
    requires Contains(text, ",")
    ensures var r := BlankAfterFirstComma(text);
            var k := IndexOf(text, ",");
            && IndexOf(r, ",") == k
            && r[..k + 1] + r[k + 2..] == text
  {
    var r := BlankAfterFirstComma(text);
    var k := IndexOf(text, ",");
    assert OccursAt(r, ",", k);
    forall j | 0 <= j < k
      ensures !OccursAt(r, ",", j)
    {
      assert !OccursAt(text, ",", j);
      assert r[j] == text[j];
    }
    assert text == text[..k + 1] + text[k + 1..];
  }

  /** `formatDate`: `N/A` for a missing date; otherwise the date formatted
      for the `en-US` locale (the `toLocaleDateString` text, a parameter)
      with a blank inserted after its first comma. */
  function CreatedShown(createdAt: string, localeText: string): (r: string)
    ensures createdAt == [] ==> r == "N/A"
    ensures createdAt != [] && !Contains(localeText, ",") ==> r == localeText
    ensures createdAt != [] && Contains(localeText, ",") ==>
              var k := IndexOf(localeText, ",");
              && |r| == |localeText| + 1 && r[k + 1] == ' '
              && IndexOf(r, ",") == k && r[..k + 1] + r[k + 2..] == localeText
  {
    if createdAt == [] then "N/A"
    else
      assert Contains(localeText, ",") ==> IndexOf(BlankAfterFirstComma(localeText), ",") == IndexOf(localeText, ",")
        by {
          if Contains(localeText, ",") {
            BlankAfterFirstCommaInverse(localeText);
          }
        }
      BlankAfterFirstComma(localeText)
  }
}
