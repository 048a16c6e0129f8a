/** Text helpers standing in for the JavaScript string built-ins the
    front-end uses: `trim`, `toLowerCase`/`toUpperCase` (ASCII letters only),
    `indexOf`/`includes`/`startsWith`, `split` on one character, `join`,
    whitespace-run collapsing and word splitting on `/\s+/`. */
module Strings {
  import Seqs

  /** The characters JavaScript's `\s` class and `String.prototype.trim`
      treat as white space (WhiteSpace and LineTerminator of ECMA-262). */
  predicate IsSpace(c: char) {
    || c == ' ' || c == '\t' || c == '\n' || c == '\r' || c == '\U{000B}' || c == '\U{000C}'
    || c == '\U{00A0}' || c == '\U{1680}' || ('\U{2000}' <= c <= '\U{200A}')
    || c == '\U{2028}' || c == '\U{2029}' || c == '\U{202F}' || c == '\U{205F}'
    || c == '\U{3000}' || c == '\U{FEFF}'
  }

  predicate NoSpace(s: string) {
    forall i :: 0 <= i < |s| ==> !IsSpace(s[i])
  }

  predicate AllSpace(s: string) {
    forall i :: 0 <= i < |s| ==> IsSpace(s[i])
  }

  predicate IsDigit(c: char) {
    '0' <= c <= '9'
  }

  // ---------------------------------------------------------------------------
  // Case mapping (ASCII letters only)
  // ---------------------------------------------------------------------------

  function LowerChar(c: char): char {
    if 'A' <= c <= 'Z' then (c as int + 32) as char else c
  }

  function UpperChar(c: char): char {
    if 'a' <= c <= 'z' then (c as int - 32) as char else c
  }

  function Lower(s: string): (r: string)
    ensures |r| == |s|
    ensures forall i :: 0 <= i < |s| ==> r[i] == LowerChar(s[i])
  {
    seq(|s|, i requires 0 <= i < |s| => LowerChar(s[i]))
  }

  function Upper(s: string): (r: string)
    ensures |r| == |s|
    ensures forall i :: 0 <= i < |s| ==> r[i] == UpperChar(s[i])
  {
    seq(|s|, i requires 0 <= i < |s| => UpperChar(s[i]))
  }

  /** Lower-casing commutes with slicing, which lets a match found in the
      lower-cased text be read back at the same offsets of the original. */
  lemma LowerSlice(s: string, i: int, j: int)
    requires 0 <= i <= j <= |s|
    ensures Lower(s[i..j]) == Lower(s)[i..j]
  {
  }

  /** Lower-casing neither makes nor unmakes white space. */
  lemma LowerCharSpace(c: char)
    ensures IsSpace(LowerChar(c)) <==> IsSpace(c)
  {
  }

  /** Lower-casing a trimmed text leaves it trimmed. */
  lemma LowerOfTrimmed(s: string)
    requires s == [] || (!IsSpace(s[0]) && !IsSpace(s[|s| - 1]))
    ensures var l := Lower(s); l == [] || (!IsSpace(l[0]) && !IsSpace(l[|l| - 1]))
  {
    if s != [] {
      LowerCharSpace(s[0]);
      LowerCharSpace(s[|s| - 1]);
    }
  }

  // ---------------------------------------------------------------------------
  // Searching
  // ---------------------------------------------------------------------------

  predicate OccursAt(hay: string, needle: string, i: int) {
    0 <= i && i + |needle| <= |hay| && hay[i..i + |needle|] == needle
  }

  predicate StartsWith(s: string, prefix: string) {
    OccursAt(s, prefix, 0)
  }

  /** `hay.indexOf(needle, from)`: the first occurrence at or after `from`,
      or -1. */
  function IndexOfFrom(hay: string, needle: string, from: nat): (r: int)
    ensures r == -1 || (from <= r && OccursAt(hay, needle, r))
    ensures r == -1 ==> forall j :: from <= j ==> !OccursAt(hay, needle, j)
    ensures r != -1 ==> forall j :: from <= j < r ==> !OccursAt(hay, needle, j)
    decreases |hay| - from
  {
    if from + |needle| > |hay| then -1
    else if hay[from..from + |needle|] == needle then from
    else IndexOfFrom(hay, needle, from + 1)
  }

  /** `hay.indexOf(needle)`. */
  function IndexOf(hay: string, needle: string): (r: int)
    ensures r == -1 || OccursAt(hay, needle, r)
    ensures r == -1 ==> forall j :: !OccursAt(hay, needle, j)
    ensures r != -1 ==> forall j :: 0 <= j < r ==> !OccursAt(hay, needle, j)
  {
    IndexOfFrom(hay, needle, 0)
  }

  /** `hay.includes(needle)`. */
  predicate Contains(hay: string, needle: string) {
    IndexOf(hay, needle) != -1
  }

  lemma ContainsIff(hay: string, needle: string)
    ensures Contains(hay, needle) <==> exists j :: OccursAt(hay, needle, j)
  {
  }

  /** An occurrence in a slice is an occurrence in the whole string. */
  lemma ContainsInSlice(s: string, i: int, j: int, needle: string)
    requires 0 <= i <= j <= |s|
    requires Contains(s[i..j], needle)
    ensures Contains(s, needle)
  {
    var k := IndexOf(s[i..j], needle);
    assert OccursAt(s[i..j], needle, k);
    assert 0 <= k && k + |needle| <= j - i;
    forall x | 0 <= x < |needle|
      ensures s[i + k + x] == needle[x]
    {
      assert s[i..j][k..k + |needle|][x] == needle[x];
    }
    assert s[i + k..i + k + |needle|] == needle;
    assert OccursAt(s, needle, i + k);
  }

  /** Case-insensitive `includes`, as `a.toLowerCase().includes(b.toLowerCase())`. */
  predicate ContainsIgnoreCase(hay: string, needle: string) {
    Contains(Lower(hay), Lower(needle))
  }

  /** The position of the last occurrence of `c` before `n`, or -1. */
  function LastIndexBefore(s: string, c: char, n: nat): (r: int)
    requires n <= |s|
    ensures -1 <= r < n
    ensures r != -1 ==> s[r] == c
    ensures forall j :: r < j < n ==> s[j] != c
    decreases n
  {
    if n == 0 then -1
    else if s[n - 1] == c then n - 1
    else LastIndexBefore(s, c, n - 1)
  }

  /** `s.lastIndexOf(c)` for one character. */
  function LastIndexOfChar(s: string, c: char): (r: int)
    ensures -1 <= r < |s|
    ensures r != -1 ==> s[r] == c
    ensures forall j :: r < j < |s| ==> s[j] != c
  {
    LastIndexBefore(s, c, |s|)
  }

  // ---------------------------------------------------------------------------
  // Trimming and white-space normalisation
  // ---------------------------------------------------------------------------

  /** The first position at or after `i` that does not hold white space
      (or `|s|`). */
  function SkipSpaces(s: string, i: nat): (r: nat)
    requires i <= |s|
    ensures i <= r <= |s| && (r == |s| || !IsSpace(s[r]))
    ensures forall k :: i <= k < r ==> IsSpace(s[k])
    decreases |s| - i
  {
    if i < |s| && IsSpace(s[i]) then SkipSpaces(s, i + 1) else i
  }

  /** The end of `s[lo..j]` once its trailing white space is dropped. */
  function SkipSpacesBack(s: string, lo: nat, j: nat): (r: nat)
    requires lo <= j <= |s|
    ensures lo <= r <= j && (r == lo || !IsSpace(s[r - 1]))
    ensures forall k :: r <= k < j ==> IsSpace(s[k])
    decreases j
  {
    if j > lo && IsSpace(s[j - 1]) then SkipSpacesBack(s, lo, j - 1) else j
  }

  /** The length of the leading white-space run of `s`. */
  function Lead(s: string): nat
  {
    SkipSpaces(s, 0)
  }

  /** `s.trim()`: leading and trailing white space removed. */
  function Trim(s: string): (r: string)
    ensures |r| <= |s|
    ensures r == [] || (!IsSpace(r[0]) && !IsSpace(r[|r| - 1]))
  {
    var a := SkipSpaces(s, 0);
    s[a..SkipSpacesBack(s, a, |s|)]
  }

  /** What trimming keeps is the infix of `s` between a white-space prefix
      and a white-space suffix. */
  lemma TrimIsInfix(s: string)
    ensures Lead(s) + |Trim(s)| <= |s|
    ensures Trim(s) == s[Lead(s)..Lead(s) + |Trim(s)|]
    ensures AllSpace(s[..Lead(s)]) && AllSpace(s[Lead(s) + |Trim(s)|..])
  {
  }

  /** A string already free of leading and trailing white space is its own trim. */
  lemma TrimOfTrimmed(s: string)
    requires s == [] || (!IsSpace(s[0]) && !IsSpace(s[|s| - 1]))
    ensures Trim(s) == s
  {
    if s != [] {
      assert SkipSpaces(s, 0) == 0;
      assert SkipSpacesBack(s, 0, |s|) == |s|;
    }
  }

  /** Trimming twice is trimming once. */
  lemma TrimIdempotent(s: string)
    ensures Trim(Trim(s)) == Trim(s)
  {
    TrimOfTrimmed(Trim(s));
  }

  /** A string is blank after trimming exactly when it is all white space. */
  lemma TrimEmptyIff(s: string)
    ensures Trim(s) == [] <==> AllSpace(s)
  {
    var a := SkipSpaces(s, 0);
    if AllSpace(s) {
      assert a == |s|;
    }
  }

  /** `s.replace(/\s+/g, ' ')` applied to `s[i..]`: every run of white
      space becomes one blank. */
  function CollapseFrom(s: string, i: nat): (r: string)
    requires i <= |s|
    decreases |s| - i
  {
    if i == |s| then []
    else if IsSpace(s[i]) then [' '] + CollapseFrom(s, SkipSpaces(s, i + 1))
    else [s[i]] + CollapseFrom(s, i + 1)
  }

  function CollapseSpaces(s: string): string {
    CollapseFrom(s, 0)
  }

  /** No white space but single blanks. */
  predicate Collapsed(r: string) {
    && (forall i :: 0 <= i < |r| && IsSpace(r[i]) ==> r[i] == ' ')
    && (forall i :: 0 <= i < |r| - 1 ==> !(IsSpace(r[i]) && IsSpace(r[i + 1])))
  }

  /** A collapsed suffix starts with white space exactly when the input does. */
  lemma CollapseFromHead(s: string, i: nat)
    requires i < |s|
    ensures |CollapseFrom(s, i)| > 0 && (IsSpace(CollapseFrom(s, i)[0]) <==> IsSpace(s[i]))
  {
  }

  /** Collapsing leaves no white space but single blanks. */
  lemma {:induction false} CollapseFromCollapsed(s: string, i: nat)
    requires i <= |s|
    ensures Collapsed(CollapseFrom(s, i))
    decreases |s| - i
  {
    if i < |s| {
      var r := CollapseFrom(s, i);
      if IsSpace(s[i]) {
        var j := SkipSpaces(s, i + 1);
        var rest := CollapseFrom(s, j);
        CollapseFromCollapsed(s, j);
        if j < |s| {
          CollapseFromHead(s, j);
        }
        assert r == [' '] + rest;
        assert forall k :: 1 <= k < |r| ==> r[k] == rest[k - 1];
      } else {
        var rest := CollapseFrom(s, i + 1);
        CollapseFromCollapsed(s, i + 1);
        assert r == [s[i]] + rest;
        assert forall k :: 1 <= k < |r| ==> r[k] == rest[k - 1];
      }
    }
  }

  /** Already-collapsed text is left as it is. */
  lemma {:induction false} CollapsedUnchanged(r: string, i: nat)
    requires Collapsed(r) && i <= |r|
    ensures CollapseFrom(r, i) == r[i..]
    decreases |r| - i
  {
    if i < |r| {
      if IsSpace(r[i]) {
        assert i + 1 == |r| || !IsSpace(r[i + 1]);
        assert SkipSpaces(r, i + 1) == i + 1;
      }
      CollapsedUnchanged(r, i + 1);
      assert r[i..] == [r[i]] + r[i + 1..];
    }
  }

  /** Inside a run of white space, collapsing from one character or the
      next gives the same text. */
  lemma CollapseInsideRun(x: string, i: nat, c: char, d: char)
    requires i + 1 < |x| && x[i] == c && x[i + 1] == d && IsSpace(c) && IsSpace(d)
    ensures CollapseFrom(x, i) == CollapseFrom(x, i + 1)
  {
    assert SkipSpaces(x, i + 1) == SkipSpaces(x, i + 2);
  }

  /** At the last character of a run of white space, collapsing emits one
      blank and carries on with the next character. */
  lemma CollapseEndOfRun(x: string, i: nat, c: char)
    requires i < |x| && x[i] == c && IsSpace(c)
    requires i + 1 == |x| || !IsSpace(x[i + 1])
    ensures CollapseFrom(x, i) == [' '] + CollapseFrom(x, i + 1)
  {
    assert SkipSpaces(x, i + 1) == i + 1;
  }

  /** At any other character, collapsing keeps it. */
  lemma CollapseAtOther(x: string, i: nat, c: char)
    requires i < |x| && x[i] == c && !IsSpace(c)
    ensures CollapseFrom(x, i) == [c] + CollapseFrom(x, i + 1)
  {
  }

  /** Collapsing a suffix is collapsing the whole string from there on. */
  lemma {:induction false} CollapseShift(s: string, j: nat, i: nat)
    requires j + i <= |s|
    ensures CollapseFrom(s[j..], i) == CollapseFrom(s, j + i)
    decreases |s| - j - i
  {
    if j + i < |s| {
      CollapseShift(s, j, i + 1);
      CollapseShiftStep(s, j, i);
    }
  }

  /** One step of `CollapseShift`, given the result from the next position. */
  lemma CollapseShiftStep(s: string, j: nat, i: nat)
    requires j + i < |s|
    requires CollapseFrom(s[j..], i + 1) == CollapseFrom(s, j + i + 1)
    ensures CollapseFrom(s[j..], i) == CollapseFrom(s, j + i)
  {
    var t := s[j..];
    var c := t[i];
    assert s[j + i] == c;
    if !IsSpace(c) {
      CollapseAtOther(t, i, c);
      CollapseAtOther(s, j + i, c);
    } else if j + i + 1 < |s| && IsSpace(t[i + 1]) {
      CollapseRunStep(s, j, i, c, t[i + 1]);
    } else {
      assert j + i + 1 < |s| ==> s[j + i + 1] == t[i + 1];
      CollapseEndOfRun(t, i, c);
      CollapseEndOfRun(s, j + i, c);
    }
  }

  /** The step inside a run of white space, where both positions collapse
      to the same text as the next one. */
  lemma CollapseRunStep(s: string, j: nat, i: nat, c: char, d: char)
    requires j + i + 1 < |s| && s[j + i] == c && s[j + i + 1] == d && IsSpace(c) && IsSpace(d)
    requires CollapseFrom(s[j..], i + 1) == CollapseFrom(s, j + i + 1)
    ensures CollapseFrom(s[j..], i) == CollapseFrom(s, j + i)
  {
    var t := s[j..];
    assert t[i] == c && t[i + 1] == d;
    CollapseInsideRun(t, i, c, d);
    CollapseInsideRun(s, j + i, c, d);
  }

  /** `a` ends `b`. */
  predicate IsSuffix(a: string, b: string) {
    |a| <= |b| && b[|b| - |a|..] == a
  }

  /** Inside a run of white space, skipping ends where the run ends. */
  lemma {:induction false} SkipSpacesInRun(s: string, m: nat, k: nat)
    requires m <= k <= |s|
    requires forall x :: m <= x < k ==> IsSpace(s[x])
    requires k == |s| || !IsSpace(s[k])
    ensures SkipSpaces(s, m) == k
    decreases k - m
  {
    if m < k {
      SkipSpacesInRun(s, m + 1, k);
    }
  }

  /** Putting a character in front keeps a suffix a suffix. */
  lemma SuffixOfCons(x: char, c: string, a: string)
    requires IsSuffix(a, c)
    ensures IsSuffix(a, [x] + c)
  {
    assert ([x] + c)[|c| + 1 - |a|..] == c[|c| - |a|..];
  }

  /** Every string ends itself. */
  lemma SuffixOfSelf(a: string)
    ensures IsSuffix(a, a)
  {
    assert a[0..] == a;
  }

  /** Collapsing from anywhere inside a run of white space gives the same
      text as collapsing from its start. */
  lemma CollapseInRun(s: string, i: nat, j: nat)
    requires i < j < |s| && IsSpace(s[i]) && j < SkipSpaces(s, i + 1)
    ensures CollapseFrom(s, j) == CollapseFrom(s, i)
  {
    var k := SkipSpaces(s, i + 1);
    assert IsSpace(s[j]);
    assert SkipSpaces(s, j + 1) == k by {
      SkipSpacesInRun(s, j + 1, k);
    }
    assert CollapseFrom(s, j) == [' '] + CollapseFrom(s, k);
  }

  /** Collapsing from a later position gives a suffix of collapsing from
      an earlier one: a later start only drops output from the front. */
  lemma {:induction false} CollapseFromSuffix(s: string, i: nat, j: nat)
    requires i <= j <= |s|
    ensures IsSuffix(CollapseFrom(s, j), CollapseFrom(s, i))
    decreases j - i
  {
    if i == j {
      SuffixOfSelf(CollapseFrom(s, j));
    } else if IsSpace(s[i]) {
      var k := SkipSpaces(s, i + 1);
      if j >= k {
        CollapseFromSuffix(s, k, j);
        SuffixOfCons(' ', CollapseFrom(s, k), CollapseFrom(s, j));
      } else {
        CollapseInRun(s, i, j);
        SuffixOfSelf(CollapseFrom(s, j));
      }
    } else {
      CollapseFromSuffix(s, i + 1, j);
      SuffixOfCons(s[i], CollapseFrom(s, i + 1), CollapseFrom(s, j));
    }
  }

  /** Collapsing is idempotent. */
  lemma CollapseIdempotent(s: string)
    ensures CollapseSpaces(CollapseSpaces(s)) == CollapseSpaces(s)
  {
    CollapseFromCollapsed(s, 0);
    CollapsedUnchanged(CollapseSpaces(s), 0);
  }

  // ---------------------------------------------------------------------------
  // Splitting and joining
  // ---------------------------------------------------------------------------

  /** `s.split(sep)` for a one-character separator: never empty, no piece
      holds the separator. */
  function Split(s: string, sep: char): (r: seq<string>)
    ensures |r| >= 1
    ensures forall i :: 0 <= i < |r| ==> sep !in r[i]
    decreases |s|
  {
    if |s| == 0 then [[]]
    else if s[0] == sep then [[]] + Split(s[1..], sep)
    else
      var rest := Split(s[1..], sep);
      [[s[0]] + rest[0]] + rest[1..]
  }

  /** `parts.join(sep)`. */
  function Join(parts: seq<string>, sep: string): string
    decreases |parts|
  {
    if |parts| == 0 then []
    else if |parts| == 1 then parts[0]
    else parts[0] + sep + Join(parts[1..], sep)
  }

  /** Joining the pieces of a split with the same separator gives the
      string back. */
  lemma {:induction false} SplitJoin(s: string, sep: char)
    ensures Join(Split(s, sep), [sep]) == s
    decreases |s|
  {
    if |s| > 0 {
      SplitJoin(s[1..], sep);
      var rest := Split(s[1..], sep);
      if s[0] == sep {
        assert Split(s, sep) == [[]] + rest;
        assert ([[]] + rest)[1..] == rest;
      } else {
        var r := Split(s, sep);
        assert r == [[s[0]] + rest[0]] + rest[1..];
        if |rest| == 1 {
          assert r == [[s[0]] + rest[0]];
        } else {
          assert r[1..] == rest[1..];
          assert Join(rest, [sep]) == rest[0] + [sep] + Join(rest[1..], [sep]);
        }
      }
    }
  }

  /** Every character of a piece comes from the split text. */
  lemma {:induction false} SplitPiecesFromText(s: string, sep: char)
    ensures forall i, c :: 0 <= i < |Split(s, sep)| && c in Split(s, sep)[i] ==> c in s
    decreases |s|
  {
    if |s| > 0 {
      SplitPiecesFromText(s[1..], sep);
      var rest := Split(s[1..], sep);
      var r := Split(s, sep);
      forall i, c | 0 <= i < |r| && c in r[i]
        ensures c in s
      {
        var j :| 0 <= j < |r[i]| && r[i][j] == c;
        if s[0] == sep {
          if i > 0 {
            assert r[i] == rest[i - 1];
            assert c in s[1..];
          }
        } else if i == 0 {
          assert r[0] == [s[0]] + rest[0];
          if j > 0 {
            assert rest[0][j - 1] == c;
            assert c in s[1..];
          }
        } else {
          assert r[i] == rest[i];
          assert c in s[1..];
        }
      }
    }
  }

  /** Every character of the split text other than the separator lands in
      some piece. */
  lemma {:induction false} SplitTextInPieces(s: string, sep: char)
    ensures forall c :: c in s && c != sep ==> exists i :: 0 <= i < |Split(s, sep)| && c in Split(s, sep)[i]
    decreases |s|
  {
    if |s| > 0 {
      SplitTextInPieces(s[1..], sep);
      var rest := Split(s[1..], sep);
      var r := Split(s, sep);
      forall c | c in s && c != sep
        ensures exists i :: 0 <= i < |r| && c in r[i]
      {
        if c == s[0] {
          assert r[0] == [s[0]] + rest[0];
          assert r[0][0] == c && c in r[0];
        } else {
          var j :| 0 <= j < |s| && s[j] == c;
          assert s[1..][j - 1] == c;
          assert c in s[1..];
          var i :| 0 <= i < |rest| && c in rest[i];
          var m :| 0 <= m < |rest[i]| && rest[i][m] == c;
          if s[0] == sep {
            assert r == [[]] + rest;
            assert r[i + 1][m] == c && c in r[i + 1];
          } else if i == 0 {
            assert r[0] == [s[0]] + rest[0];
            assert r[0][m + 1] == c && c in r[0];
          } else {
            assert r == [[s[0]] + rest[0]] + rest[1..];
            assert r[i][m] == c && c in r[i];
          }
        }
      }
      assert forall c :: c in s && c != sep ==> exists i :: 0 <= i < |r| && c in r[i];
      assert r == Split(s, sep);
    }
  }

  /** The last occurrence of `c` in `s`, read from the one in `s[1..]`. */
  lemma LastIndexOfCharTail(s: string, c: char)
    requires s != []
    ensures LastIndexOfChar(s[1..], c) != -1 ==> LastIndexOfChar(s, c) == LastIndexOfChar(s[1..], c) + 1
    ensures LastIndexOfChar(s[1..], c) == -1 ==> LastIndexOfChar(s, c) == (if s[0] == c then 0 else -1)
  {
    var k := LastIndexOfChar(s[1..], c);
    var r := LastIndexOfChar(s, c);
    if r > 0 {
      assert s[1..][r - 1] == s[r];
    }
    if k != -1 {
      assert s[k + 1] == s[1..][k];
    }
  }

  /** The first piece of a split starts with the text's first character
      when that is not the separator. */
  lemma SplitFirstPiece(s: string, sep: char)
    requires s != [] && s[0] != sep
    ensures Split(s, sep)[0] != [] && Split(s, sep)[0][0] == s[0]
  {
  }

  /** There is one piece exactly when the separator does not occur. */
  lemma {:induction false} SplitOnePiece(s: string, sep: char)
    ensures |Split(s, sep)| == 1 <==> LastIndexOfChar(s, sep) == -1
    decreases |s|
  {
    if |s| > 0 {
      SplitOnePiece(s[1..], sep);
      LastIndexOfCharTail(s, sep);
    }
  }

  /** The last piece of a split of `s`, read from the last piece of the
      split of `s[1..]`. */
  lemma SplitLastStep(s: string, sep: char)
    requires s != []
    requires Split(s[1..], sep)[|Split(s[1..], sep)| - 1] == s[1..][LastIndexOfChar(s[1..], sep) + 1..]
    ensures Split(s, sep)[|Split(s, sep)| - 1] == s[LastIndexOfChar(s, sep) + 1..]
  {
    var t := s[1..];
    var rest := Split(t, sep);
    SplitOnePiece(t, sep);
    LastIndexOfCharTail(s, sep);
    if s[0] != sep && |rest| == 1 {
      assert s == [s[0]] + t;
      assert Split(s, sep) == [[s[0]] + rest[0]];
    } else {
      SuffixOfTail(s, LastIndexOfChar(t, sep));
      SplitUnfold(s, sep);
    }
  }

  lemma SuffixOfTail<T>(s: seq<T>, k: int)
    requires -1 <= k < |s| - 1
    ensures s[k + 2..] == s[1..][k + 1..]
  {
  }

  /** One step of `Split`, with the last piece of the rest kept last when
      the first character is a separator or the rest has several pieces. */
  lemma SplitUnfold(s: string, sep: char)
    requires s != []
    ensures var rest := Split(s[1..], sep);
            var r := Split(s, sep);
            (s[0] == sep || |rest| > 1) ==> r[|r| - 1] == rest[|rest| - 1]
  {
    var rest := Split(s[1..], sep);
    var r := Split(s, sep);
    if s[0] == sep {
      assert r == [[]] + rest;
    } else if |rest| > 1 {
      assert r == [[s[0]] + rest[0]] + rest[1..];
    }
  }

  /** The last piece of a split is the text after the separator's last
      occurrence. */
  lemma {:induction false} SplitLastPiece(s: string, sep: char)
    ensures Split(s, sep)[|Split(s, sep)| - 1] == s[LastIndexOfChar(s, sep) + 1..]
    decreases |s|
  {
    if |s| == 0 {
      assert Split(s, sep) == [[]];
      assert LastIndexOfChar(s, sep) == -1;
      assert s[0..] == [];
    } else {
      SplitLastPiece(s[1..], sep);
      SplitLastStep(s, sep);
    }
  }

  /** Joining a list grown by one element appends the separator and it. */
  lemma {:induction false} JoinSnoc(parts: seq<string>, w: string, sep: string)
    requires |parts| >= 1
    ensures Join(parts + [w], sep) == Join(parts, sep) + sep + w
    decreases |parts|
  {
    if |parts| == 1 {
      assert parts + [w] == [parts[0], w];
    } else {
      assert (parts + [w])[1..] == parts[1..] + [w];
      JoinSnoc(parts[1..], w, sep);
    }
  }

  /** Every piece trimmed: `.map((x) => x.trim())`. */
  function TrimAll(parts: seq<string>): (r: seq<string>)
    ensures |r| == |parts|
    ensures forall i :: 0 <= i < |parts| ==> r[i] == Trim(parts[i])
  {
    seq(|parts|, i requires 0 <= i < |parts| => Trim(parts[i]))
  }

  predicate NonEmpty(s: string) {
    s != []
  }

  /** Trimmed, non-blank pieces, in order: `.map(trim).filter(Boolean)`. */
  function TrimmedNonEmpty(parts: seq<string>): (r: seq<string>)
    ensures forall i :: 0 <= i < |r| ==> r[i] != [] && Trim(r[i]) == r[i]
    ensures forall i :: 0 <= i < |parts| && !AllSpace(parts[i]) ==> Trim(parts[i]) in r
    ensures forall i :: 0 <= i < |r| ==> r[i] in TrimAll(parts)
    ensures Seqs.IsSubsequence(r, TrimAll(parts))
    ensures forall x :: multiset(r)[x] == if x != [] then multiset(TrimAll(parts))[x] else 0
  {
    var t := TrimAll(parts);
    var r := Seqs.Filter(t, NonEmpty);
    Seqs.FilterIsSubsequence(t, NonEmpty);
    Seqs.FilterCounts(t, NonEmpty);
    KeptAreTrimmed(parts, r);
    NonBlankAreKept(parts, r);
    r
  }

  /** Every piece is blank. */
  predicate AllBlank(parts: seq<string>) {
    forall i :: 0 <= i < |parts| ==> AllSpace(parts[i])
  }

  /** Nothing survives exactly when every piece is blank. */
  lemma TrimmedNonEmptyEmptyIff(parts: seq<string>)
    ensures TrimmedNonEmpty(parts) == [] <==> AllBlank(parts)
  {
    var r := TrimmedNonEmpty(parts);
    if exists i :: 0 <= i < |parts| && !AllSpace(parts[i]) {
      var i :| 0 <= i < |parts| && !AllSpace(parts[i]);
      assert Trim(parts[i]) in r;
    } else if r != [] {
      assert r[0] in TrimAll(parts);
      var j :| 0 <= j < |parts| && TrimAll(parts)[j] == r[0];
      TrimEmptyIff(parts[j]);
    }
  }

  lemma KeptAreTrimmed(parts: seq<string>, r: seq<string>)
    requires r == Seqs.Filter(TrimAll(parts), NonEmpty)
    ensures forall i :: 0 <= i < |r| ==> Trim(r[i]) == r[i]
  {
    var t := TrimAll(parts);
    forall i | 0 <= i < |r|
      ensures Trim(r[i]) == r[i]
    {
      assert r[i] in t;
      var j :| 0 <= j < |t| && t[j] == r[i];
      TrimIdempotent(parts[j]);
    }
  }

  lemma NonBlankAreKept(parts: seq<string>, r: seq<string>)
    requires r == Seqs.Filter(TrimAll(parts), NonEmpty)
    ensures forall i :: 0 <= i < |parts| && !AllSpace(parts[i]) ==> Trim(parts[i]) in r
  {
    var t := TrimAll(parts);
    forall i | 0 <= i < |parts| && !AllSpace(parts[i])
      ensures Trim(parts[i]) in r
    {
      TrimEmptyIff(parts[i]);
      assert t[i] == Trim(parts[i]) && NonEmpty(t[i]);
    }
  }

  // ---------------------------------------------------------------------------
  // Words: `s.split(/\s+/).filter(w => w.length > 0)`
  // ---------------------------------------------------------------------------

  /** The maximal runs of non-white-space characters of `s[..n]`, in order. */
  function WordsTo(s: string, n: nat): (r: seq<string>)
    requires n <= |s|
    ensures n > 0 && !IsSpace(s[n - 1]) ==> |r| > 0
    decreases n
  {
    if n == 0 then []
    else
      var w := WordsTo(s, n - 1);
      var c := s[n - 1];
      if IsSpace(c) then w
      else if n >= 2 && !IsSpace(s[n - 2]) then w[..|w| - 1] + [w[|w| - 1] + [c]]
      else w + [[c]]
  }

  function Words(s: string): seq<string> {
    WordsTo(s, |s|)
  }

  /** Every word is non-empty and free of white space. */
  lemma {:induction false} WordsToAreWords(s: string, n: nat)
    requires n <= |s|
    ensures forall i :: 0 <= i < |WordsTo(s, n)| ==> WordsTo(s, n)[i] != [] && NoSpace(WordsTo(s, n)[i])
    decreases n
  {
    if n > 0 {
      WordsToAreWords(s, n - 1);
    }
  }

  lemma WordsAreWords(s: string)
    ensures forall i :: 0 <= i < |Words(s)| ==> Words(s)[i] != [] && NoSpace(Words(s)[i])
  {
    WordsToAreWords(s, |s|);
  }

  /** The words of a prefix depend on the prefix only. */
  lemma {:induction false} WordsToPrefix(s: string, t: string, n: nat)
    requires n <= |s| && n <= |t| && s[..n] == t[..n]
    ensures WordsTo(s, n) == WordsTo(t, n)
    decreases n
  {
    if n > 0 {
      assert s[..n - 1] == s[..n][..n - 1] && t[..n - 1] == t[..n][..n - 1];
      assert s[n - 1] == s[..n][n - 1] && t[n - 1] == t[..n][n - 1];
      if n >= 2 {
        assert s[n - 2] == s[..n][n - 2] && t[n - 2] == t[..n][n - 2];
      }
      WordsToPrefix(s, t, n - 1);
    }
  }

  /** A word count never drops when the text grows at its end. */
  lemma {:induction false} WordsToMonotone(s: string, n: nat, m: nat)
    requires n <= m <= |s|
    ensures |WordsTo(s, n)| <= |WordsTo(s, m)|
    decreases m - n
  {
    if n < m {
      WordsToMonotone(s, n + 1, m);
    }
  }

  /** A prefix never has more words than the whole text. */
  lemma WordsPrefixMonotone(s: string, n: nat)
    requires n <= |s|
    ensures |Words(s[..n])| <= |Words(s)|
  {
    WordsToPrefix(s[..n], s, n);
    WordsToMonotone(s, n, |s|);
  }

  /** Reading a word after a blank appends it letter by letter. */
  lemma {:induction false} WordsAppendWordTo(x: string, w: string, k: nat)
    requires NoSpace(w) && 1 <= k <= |w|
    ensures WordsTo(x + " " + w, |x| + 1 + k) == Words(x) + [w[..k]]
    decreases k
  {
    var s := x + " " + w;
    assert s[|x| + k] == w[k - 1];
    if k == 1 {
      assert s[|x|] == ' ';
      assert s[..|x|] == x[..|x|];
      WordsToPrefix(s, x, |x|);
      assert WordsTo(s, |x| + 1) == Words(x);
      assert w[..1] == [w[0]];
    } else {
      WordsAppendWordTo(x, w, k - 1);
      var prev := WordsTo(s, |x| + k);
      assert s[|x| + k - 1] == w[k - 2];
      assert prev[..|prev| - 1] == Words(x) && prev[|prev| - 1] == w[..k - 1];
      assert w[..k - 1] + [w[k - 1]] == w[..k];
    }
  }

  /** Appending a blank and a word appends exactly that word. */
  lemma WordsAppendWord(x: string, w: string)
    requires w != [] && NoSpace(w)
    ensures Words(x + " " + w) == Words(x) + [w]
  {
    WordsAppendWordTo(x, w, |w|);
    assert w[..|w|] == w;
  }

  /** A single word is its own word list. */
  lemma {:induction false} WordsOfWordTo(w: string, k: nat)
    requires NoSpace(w) && 1 <= k <= |w|
    ensures WordsTo(w, k) == [w[..k]]
    decreases k
  {
    if k > 1 {
      WordsOfWordTo(w, k - 1);
      assert w[..k - 1] + [w[k - 1]] == w[..k];
    } else {
      assert w[..1] == [w[0]];
    }
  }

  lemma WordsOfWord(w: string)
    requires w != [] && NoSpace(w)
    ensures Words(w) == [w]
  {
    WordsOfWordTo(w, |w|);
    assert w[..|w|] == w;
  }

  /** Words joined by single blanks split back into the same words. */
  lemma {:induction false} WordsOfJoin(ws: seq<string>)
    requires forall i :: 0 <= i < |ws| ==> ws[i] != [] && NoSpace(ws[i])
    ensures Words(Join(ws, " ")) == ws
    decreases |ws|
  {
    if |ws| == 1 {
      WordsOfWord(ws[0]);
    } else if |ws| > 1 {
      var init := ws[..|ws| - 1];
      WordsOfJoin(init);
      JoinSnoc(init, ws[|ws| - 1], " ");
      assert init + [ws[|ws| - 1]] == ws;
      WordsAppendWord(Join(init, " "), ws[|ws| - 1]);
    }
  }

  // ---------------------------------------------------------------------------
  // Decimal rendering of naturals (template literals with a number)
  // ---------------------------------------------------------------------------

  function DigitChar(d: nat): char
    requires d < 10
  {
    "0123456789"[d]
  }

  function NatToString(n: nat): (r: string)
    ensures |r| >= 1
    ensures forall i :: 0 <= i < |r| ==> IsDigit(r[i])
    ensures r[0] == '0' ==> n == 0
    decreases n
  {
    if n < 10 then [DigitChar(n)] else NatToString(n / 10) + [DigitChar(n % 10)]
  }

  function DigitValue(c: char): nat
    requires IsDigit(c)
  {
    c as int - '0' as int
  }

  function DigitsValue(s: string): nat
    requires forall i :: 0 <= i < |s| ==> IsDigit(s[i])
    decreases |s|
  {
    if |s| == 0 then 0
    else 10 * DigitsValue(s[..|s| - 1]) + DigitValue(s[|s| - 1])
  }

  /** Rendering a number in decimal and reading it back gives the number. */
  lemma {:induction false} NatToStringRoundTrip(n: nat)
    ensures DigitsValue(NatToString(n)) == n
    decreases n
  {
    if n >= 10 {
      NatToStringRoundTrip(n / 10);
      var s := NatToString(n);
      assert s[..|s| - 1] == NatToString(n / 10);
    }
  }
}
