/** `src/utils/slugify.ts`: turning a title into a URL slug and a slug back into a title. The
    Unicode classes `\p{Letter}` and `\p{Number}` and the case mappings are parameters, one
    character to one character. */
module Slugify {
  import opened Strings

  /** The character classes and case mappings the regular expressions and `toLowerCase` /
      `toUpperCase` use. */
  datatype CharClasses = CharClasses(
    isLetter: char -> bool,
    isNumber: char -> bool,
    lower: char -> char,
    upper: char -> char)

  /** `\p{Letter}` or `\p{Number}` */
  predicate IsWordChar(cc: CharClasses, c: char) {
    cc.isLetter(c) || cc.isNumber(c)
  }

  /** `[\p{Letter}\p{Number}-]`: the characters a slug keeps. */
  predicate IsSlugChar(cc: CharClasses, c: char) {
    IsWordChar(cc, c) || c == '-'
  }

  /** `[\s_]` */
  predicate IsSep(c: char) {
    IsSpace(c) || c == '_'
  }

  /** The character classes behave as Unicode's do on the characters involved: lower case is
      stable, the hyphen is its own lower case, and letters and numbers are neither white
      space, `_` nor `-`. */
  ghost predicate Coherent(cc: CharClasses) {
    && (forall c :: cc.lower(cc.lower(c)) == cc.lower(c))
    && cc.lower('-') == '-'
    && (forall c :: IsWordChar(cc, c) ==> !IsSep(c) && c != '-')
  }

  /** On top of `Coherent`, for the characters of the slug `s`: the space is its own lower case,
      and each character other than `-`, upper-cased as `unslugify` may do, is not white space
      and lowers back to itself. JavaScript's case maps break this for some letters: `ı`
      upper-cases to `I`, which lowers to `i`. */
  ghost predicate RoundTrips(cc: CharClasses, s: string) {
    && Coherent(cc)
    && cc.lower(' ') == ' '
    && (forall i :: 0 <= i < |s| && s[i] != '-' ==>
          !IsSpace(UpperFirst(cc, s[i])) && cc.lower(UpperFirst(cc, s[i])) == s[i])
  }

  /** No `--` anywhere. */
  predicate NoDoubleHyphen(s: string) {
    forall i :: 0 <= i < |s| - 1 ==> !(s[i] == '-' && s[i + 1] == '-')
  }

  /** Every character is its own lower case. */
  predicate Lowered(cc: CharClasses, s: string) {
    forall i :: 0 <= i < |s| ==> cc.lower(s[i]) == s[i]
  }

  /** What `slugify` promises about its result. */
  predicate IsSlug(cc: CharClasses, s: string) {
    && (forall i :: 0 <= i < |s| ==> IsSlugChar(cc, s[i]))
    && NoDoubleHyphen(s)
    && (|s| > 0 ==> s[0] != '-' && s[|s| - 1] != '-')
    && Lowered(cc, s)
  }

  /** `.toLowerCase()`, character by character. */
  function LowerAll(cc: CharClasses, s: string): (r: string)
    ensures |r| == |s|
    ensures forall i :: 0 <= i < |s| ==> r[i] == cc.lower(s[i])
  {
    seq(|s|, i requires 0 <= i < |s| => cc.lower(s[i]))
  }

  /** The two run-collapsing replacements: `/[\s_]+/g` and `/--+/g`, both by `-`. */
  datatype RunKind = Separators | Hyphens

  predicate InRun(k: RunKind, c: char) {
    if k == Separators then IsSep(c) else c == '-'
  }

  /** Each maximal run of `k` characters becomes one `-` (a single `-` for `--+` stays as it
      is, which is the same). `inRun` says the character before `s` was part of a run. */
  function CollapseRuns(s: string, k: RunKind, inRun: bool): (r: string)
    ensures forall c :: c in r ==> c == '-' || (!InRun(k, c) && c in s)
    ensures k == Hyphens ==> NoDoubleHyphen(r) && (inRun && |r| > 0 ==> r[0] != '-')
    decreases |s|
  {
    if |s| == 0 then ""
    else
      assert forall c :: c in s[1..] ==> c in s;
      var rest := CollapseRuns(s[1..], k, InRun(k, s[0]));
      if InRun(k, s[0]) then (if inRun then rest else "-" + rest)
      else [s[0]] + rest
  }

  /** `.replace(/[^\p{Letter}\p{Number}-]+/gu, '')`: every other character is dropped. */
  function KeepSlugChars(cc: CharClasses, s: string): (r: string)
    ensures forall c :: c in r <==> c in s && IsSlugChar(cc, c)
    decreases |s|
  {
    if |s| == 0 then ""
    else
      assert forall c :: c in s <==> c == s[0] || c in s[1..];
      var rest := KeepSlugChars(cc, s[1..]);
      if IsSlugChar(cc, s[0]) then [s[0]] + rest else rest
  }

  /** `.replace(/^-|-$/g, '')`: one leading and one trailing hyphen go. */
  function StripEdgeHyphens(s: string): (r: string)
    ensures forall c :: c in r ==> c in s
    ensures NoDoubleHyphen(s) ==> NoDoubleHyphen(r) && (|r| > 0 ==> r[0] != '-' && r[|r| - 1] != '-')
    ensures |s| == 0 || (s[0] != '-' && s[|s| - 1] != '-') ==> r == s
  {
    if |s| == 0 then s
    else
      var a := if s[0] == '-' then 1 else 0;
      var b := if |s| > a && s[|s| - 1] == '-' then |s| - 1 else |s|;
      var r := s[a..b];
      assert forall c :: c in r ==> c in s;
      assert forall i :: 0 <= i < |r| ==> r[i] == s[a + i];
      r
  }

  /** `slugify(value)` */
  function Slugify(cc: CharClasses, value: string): (r: string)
    ensures forall i :: 0 <= i < |r| ==> IsSlugChar(cc, r[i])
    ensures NoDoubleHyphen(r)
    ensures |r| > 0 ==> r[0] != '-' && r[|r| - 1] != '-'
  {
    var kept := KeepSlugChars(cc, CollapseRuns(LowerAll(cc, Trim(value)), Separators, false));
    assert forall c :: c in kept ==> IsSlugChar(cc, c);
    CollapseHyphens(cc, kept)
  }

  /** The last two replacements of `slugify`: hyphen runs collapse, edge hyphens go. */
  function CollapseHyphens(cc: CharClasses, kept: string): (r: string)
    requires forall c :: c in kept ==> IsSlugChar(cc, c)
    ensures forall c :: c in r ==> c == '-' || c in kept
    ensures forall i :: 0 <= i < |r| ==> IsSlugChar(cc, r[i])
    ensures NoDoubleHyphen(r)
    ensures |r| > 0 ==> r[0] != '-' && r[|r| - 1] != '-'
  {
    var hy := CollapseRuns(kept, Hyphens, false);
    assert forall c :: c in hy ==> IsSlugChar(cc, c);
    var r := StripEdgeHyphens(hy);
    assert forall c :: c in r ==> IsSlugChar(cc, c);
    assert forall i :: 0 <= i < |r| ==> r[i] in r;
    r
  }

  /** With coherent character classes the result is in lower case, so it is a slug. */
  lemma SlugifyIsSlug(cc: CharClasses, value: string)
    requires Coherent(cc)
    ensures IsSlug(cc, Slugify(cc, value))
  {
    var low := LowerAll(cc, Trim(value));
    var sep := CollapseRuns(low, Separators, false);
    var kept := KeepSlugChars(cc, sep);
    var r := CollapseHyphens(cc, kept);
    assert r == Slugify(cc, value);
    assert forall c :: c in low ==> cc.lower(c) == c;
    assert forall c :: c in sep ==> cc.lower(c) == c;
    assert forall c :: c in kept ==> cc.lower(c) == c;
    assert forall c :: c in r ==> cc.lower(c) == c;
    forall i | 0 <= i < |r| ensures cc.lower(r[i]) == r[i] {
      assert r[i] in r;
    }
  }

  /** Lower-casing a lower-case string changes nothing. */
  lemma LowerAllUnchanged(cc: CharClasses, s: string)
    requires Lowered(cc, s)
    ensures LowerAll(cc, s) == s
  {
  }

  /** Collapsing runs in a string that has none (a single leading hyphen after a run aside)
      changes nothing. */
  lemma {:induction false} CollapseRunsUnchanged(s: string, k: RunKind, inRun: bool)
    requires k == Separators ==> forall i :: 0 <= i < |s| ==> !IsSep(s[i])
    requires k == Hyphens ==> NoDoubleHyphen(s) && !(inRun && |s| > 0 && s[0] == '-')
    ensures CollapseRuns(s, k, inRun) == s
    decreases |s|
  {
    if |s| > 0 {
      CollapseRunsUnchanged(s[1..], k, InRun(k, s[0]));
      assert [s[0]] + s[1..] == s;
    }
  }

  /** Keeping the slug characters of a string made of them changes nothing. */
  lemma {:induction false} KeepSlugCharsUnchanged(cc: CharClasses, s: string)
    requires forall i :: 0 <= i < |s| ==> IsSlugChar(cc, s[i])
    ensures KeepSlugChars(cc, s) == s
    decreases |s|
  {
    if |s| > 0 {
      KeepSlugCharsUnchanged(cc, s[1..]);
      assert [s[0]] + s[1..] == s;
    }
  }

  /** `slugify` leaves a slug as it is. */
  lemma SlugUnchanged(cc: CharClasses, s: string)
    requires Coherent(cc) && IsSlug(cc, s)
    ensures Slugify(cc, s) == s
  {
    if |s| > 0 {
      assert !IsSpace(s[0]) && !IsSpace(s[|s| - 1]);
    }
    TrimUnchanged(s);
    LowerAllUnchanged(cc, s);
    CollapseRunsUnchanged(s, Separators, false);
    KeepSlugCharsUnchanged(cc, s);
    CollapseRunsUnchanged(s, Hyphens, false);
  }

  /** Slugifying twice is slugifying once. */
  lemma SlugifyIdempotent(cc: CharClasses, value: string)
    requires Coherent(cc)
    ensures Slugify(cc, Slugify(cc, value)) == Slugify(cc, value)
  {
    SlugifyIsSlug(cc, value);
    SlugUnchanged(cc, Slugify(cc, value));
  }

  /** `charAt(0).toUpperCase()` as a character: `charAt(0)` of an astral character is its lone
      high surrogate, which upper-casing leaves alone, so the character comes back whole. */
  function UpperFirst(cc: CharClasses, c: char): (r: char)
    ensures IsAstral(c) ==> r == c
    ensures !IsAstral(c) ==> r == cc.upper(c)
  {
    if IsAstral(c) then c else cc.upper(c)
  }

  /** `part.charAt(0).toUpperCase() + part.slice(1)` */
  function Capitalize(cc: CharClasses, part: string): (r: string)
  {
    if |part| == 0 then "" else [UpperFirst(cc, part[0])] + part[1..]
  }

  function CapitalizeAll(cc: CharClasses, parts: seq<string>): (r: seq<string>)
    ensures |r| == |parts|
    ensures forall i :: 0 <= i < |parts| ==> r[i] == Capitalize(cc, parts[i])
  {
    seq(|parts|, i requires 0 <= i < |parts| => Capitalize(cc, parts[i]))
  }

  /** `unslugify(value)`: the pieces between hyphens, capitalised, joined by spaces. */
  function Unslugify(cc: CharClasses, value: string): (r: string)
    ensures |r| == |value|
  {
    UnslugifySpaced(cc, value);
    Join(CapitalizeAll(cc, Split(value, '-')), " ")
  }

  /** The pieces of `value` with the first one capitalised when `atStart`, all others always. */
  function CapitalizeRest(cc: CharClasses, atStart: bool, parts: seq<string>): seq<string>
    requires |parts| >= 1
  {
    [if atStart then Capitalize(cc, parts[0]) else parts[0]] + CapitalizeAll(cc, parts[1..])
  }

  /** `unslugify` character by character: every hyphen becomes a space, and the character
      after a hyphen (or the first one, when `atStart`) is upper-cased. */
  function Spaced(cc: CharClasses, s: string, atStart: bool): (r: string)
    ensures |r| == |s|
    decreases |s|
  {
    if |s| == 0 then ""
    else if s[0] == '-' then " " + Spaced(cc, s[1..], true)
    else [if atStart then UpperFirst(cc, s[0]) else s[0]] + Spaced(cc, s[1..], false)
  }

  lemma JoinPrefixFirst(parts: seq<string>, p: string, sep: string)
    requires |parts| >= 1
    ensures Join([p + parts[0]] + parts[1..], sep) == p + Join(parts, sep)
  {
    var q := [p + parts[0]] + parts[1..];
    assert q[1..] == parts[1..];
  }

  /** Joining the capitalised pieces gives the character-by-character form. */
  lemma {:induction false} JoinSpaced(cc: CharClasses, s: string, atStart: bool)
    ensures Join(CapitalizeRest(cc, atStart, Split(s, '-')), " ") == Spaced(cc, s, atStart)
    decreases |s|
  {
    if |s| > 0 {
      if s[0] == '-' {
        JoinSpaced(cc, s[1..], true);
        JoinSpacedHyphen(cc, s, atStart);
      } else {
        JoinSpaced(cc, s[1..], false);
        JoinSpacedOther(cc, s, atStart);
      }
    }
  }

  /** The step of `JoinSpaced` over a leading hyphen. */
  lemma JoinSpacedHyphen(cc: CharClasses, s: string, atStart: bool)
    requires |s| > 0 && s[0] == '-'
    requires Join(CapitalizeRest(cc, true, Split(s[1..], '-')), " ") == Spaced(cc, s[1..], true)
    ensures Join(CapitalizeRest(cc, atStart, Split(s, '-')), " ") == Spaced(cc, s, atStart)
  {
    var rest := Split(s[1..], '-');
    var sp := Split(s, '-');
    assert sp == [""] + rest;
    assert sp[1..] == rest;
    var parts := CapitalizeRest(cc, atStart, sp);
    CapitalizeRestFirst(cc, rest);
    assert parts[1..] == CapitalizeRest(cc, true, rest);
    assert Join(parts, " ") == parts[0] + " " + Join(parts[1..], " ");
  }

  /** Capitalising from the start is capitalising every piece. */
  lemma CapitalizeRestFirst(cc: CharClasses, parts: seq<string>)
    requires |parts| >= 1
    ensures CapitalizeRest(cc, true, parts) == CapitalizeAll(cc, parts)
  {
    var l, r := CapitalizeRest(cc, true, parts), CapitalizeAll(cc, parts);
    assert |l| == |r|;
    forall i | 0 <= i < |l| ensures l[i] == r[i] {
      if i > 0 { assert l[i] == CapitalizeAll(cc, parts[1..])[i - 1]; }
    }
  }

  /** The step of `JoinSpaced` over a leading character other than a hyphen. */
  lemma JoinSpacedOther(cc: CharClasses, s: string, atStart: bool)
    requires |s| > 0 && s[0] != '-'
    requires Join(CapitalizeRest(cc, false, Split(s[1..], '-')), " ") == Spaced(cc, s[1..], false)
    ensures Join(CapitalizeRest(cc, atStart, Split(s, '-')), " ") == Spaced(cc, s, atStart)
  {
    var rest := Split(s[1..], '-');
    var c := if atStart then UpperFirst(cc, s[0]) else s[0];
    var tail := CapitalizeRest(cc, false, rest);
    var first := [s[0]] + rest[0];
    assert Split(s, '-') == [first] + rest[1..];
    assert Capitalize(cc, first) == [UpperFirst(cc, s[0])] + rest[0];
    assert CapitalizeRest(cc, atStart, Split(s, '-')) == [[c] + tail[0]] + tail[1..];
    JoinPrefixFirst(tail, [c], " ");
    assert Spaced(cc, s, atStart) == [c] + Spaced(cc, s[1..], false);
  }

  /** `unslugify` turns hyphens into spaces and upper-cases the first character of each piece. */
  lemma UnslugifySpaced(cc: CharClasses, s: string)
    ensures Join(CapitalizeAll(cc, Split(s, '-')), " ") == Spaced(cc, s, true)
  {
    CapitalizeRestFirst(cc, Split(s, '-'));
    JoinSpaced(cc, s, true);
  }

  /** Where the characters of `Spaced` come from. */
  lemma {:induction false} SpacedChars(cc: CharClasses, s: string, atStart: bool)
    ensures var r := Spaced(cc, s, atStart);
            forall i :: 0 <= i < |s| ==>
              (s[i] == '-' ==> r[i] == ' ')
              && (s[i] != '-' ==> r[i] == s[i] || r[i] == UpperFirst(cc, s[i]))
    decreases |s|
  {
    if |s| > 0 {
      SpacedChars(cc, s[1..], s[0] == '-');
    }
  }

  /** The hyphens of `s` as spaces, nothing else changed. */
  function Dehyphen(s: string): (r: string)
    ensures |r| == |s|
    ensures forall i :: 0 <= i < |s| ==> r[i] == (if s[i] == '-' then ' ' else s[i])
  {
    seq(|s|, i requires 0 <= i < |s| => if s[i] == '-' then ' ' else s[i])
  }

  /** Collapsing the separator runs of a slug whose hyphens became spaces gives the slug. */
  lemma {:induction false} CollapseDehyphened(cc: CharClasses, s: string, inRun: bool)
    requires Coherent(cc)
    requires forall i :: 0 <= i < |s| ==> IsSlugChar(cc, s[i])
    requires NoDoubleHyphen(s)
    requires inRun ==> |s| == 0 || s[0] != '-'
    ensures CollapseRuns(Dehyphen(s), Separators, inRun) == s
    decreases |s|
  {
    if |s| > 0 {
      var d := Dehyphen(s);
      assert d[1..] == Dehyphen(s[1..]);
      CollapseDehyphened(cc, s[1..], s[0] == '-');
      assert [s[0]] + s[1..] == s;
    }
  }

  /** `slugify(unslugify(s)) == s` for every slug `s`: a slug survives being shown as a title
      and slugified again. */
  lemma SlugifyUnslugify(cc: CharClasses, s: string)
    requires RoundTrips(cc, s) && IsSlug(cc, s)
    ensures Slugify(cc, Unslugify(cc, s)) == s
  {
    var u := Unslugify(cc, s);
    UnslugifySpaced(cc, s);
    SpacedChars(cc, s, true);
    if |s| > 0 {
      assert !IsSpace(u[0]);
      assert !IsSpace(u[|s| - 1]);
    }
    TrimUnchanged(u);
    var low := LowerAll(cc, u);
    assert low == Dehyphen(s);
    CollapseDehyphened(cc, s, false);
    KeepSlugCharsUnchanged(cc, s);
    CollapseRunsUnchanged(s, Hyphens, false);
  }

  /** A title turned into a slug reads back as a title whose slug is the same. */
  lemma UnslugifySlugify(cc: CharClasses, value: string)
    requires RoundTrips(cc, Slugify(cc, value))
    ensures var s := Slugify(cc, value);
            Slugify(cc, Unslugify(cc, s)) == s
  {
    SlugifyIsSlug(cc, value);
    SlugifyUnslugify(cc, Slugify(cc, value));
  }
}
