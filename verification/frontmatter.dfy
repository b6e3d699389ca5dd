/** `parseFrontmatter(content)` of `src/integrations/ogpImages.ts`: the light-weight
    `key: value` reader the OGP integration uses instead of a YAML parser. The regular
    expressions of the source are written out as string functions, each with a predicate
    that states what the expression matches. */
module Frontmatter {
  import opened Strings

  /** `\w` */
  predicate IsWordChar(c: char) {
    ('a' <= c <= 'z') || ('A' <= c <= 'Z') || ('0' <= c <= '9') || c == '_'
  }

  predicate AllWord(s: string) {
    forall i :: 0 <= i < |s| ==> IsWordChar(s[i])
  }

  /** Length of the longest prefix of word characters. */
  function WordPrefixLen(s: string): (n: nat)
    ensures n <= |s| && AllWord(s[..n])
    ensures n < |s| ==> !IsWordChar(s[n])
  {
    if |s| == 0 || !IsWordChar(s[0]) then 0
    else
      var n := 1 + WordPrefixLen(s[1..]);
      assert s[..n] == [s[0]] + s[1..][..n - 1];
      n
  }

  /** What `\s*(.+)$` matches: some whitespace prefix, then at least one character, none of
      them a line terminator, up to the end. */
  ghost predicate ValueRegex(rest: string) {
    exists j :: 0 <= j < |rest| && SpacesBefore(rest, j) && NoTerminatorFrom(rest, j)
  }

  predicate SpacesBefore(s: string, j: nat)
    requires j <= |s|
  {
    forall i :: 0 <= i < j ==> IsSpace(s[i])
  }

  predicate NoTerminatorFrom(s: string, j: nat)
    requires j <= |s|
  {
    forall i :: j <= i < |s| ==> !IsLineTerminator(s[i])
  }

  predicate NoLineTerminator(s: string) {
    forall i :: 0 <= i < |s| ==> !IsLineTerminator(s[i])
  }

  /** The backtracking search of `\s*(.+)$`, one leading whitespace character at a time. */
  function HasValue(rest: string): (r: bool)
    ensures r <==> ValueRegex(rest)
  {
    if |rest| == 0 then false
    else if NoLineTerminator(rest) then
      assert SpacesBefore(rest, 0) && NoTerminatorFrom(rest, 0);
      true
    else if !IsSpace(rest[0]) then
      assert !ValueRegex(rest) by {
        forall j | 0 <= j < |rest| && SpacesBefore(rest, j) ensures !NoTerminatorFrom(rest, j) {
          assert j == 0 ==> (NoTerminatorFrom(rest, j) <==> NoLineTerminator(rest));
        }
      }
      false
    else
      var r := HasValue(rest[1..]);
      assert r ==> ValueRegex(rest) by {
        if r {
          var j :| 0 <= j < |rest| - 1 && SpacesBefore(rest[1..], j) && NoTerminatorFrom(rest[1..], j);
          assert SpacesBefore(rest, j + 1);
          assert NoTerminatorFrom(rest, j + 1);
        }
      }
      assert ValueRegex(rest) ==> r by {
        if ValueRegex(rest) {
          var j :| 0 <= j < |rest| && SpacesBefore(rest, j) && NoTerminatorFrom(rest, j);
          assert NoTerminatorFrom(rest, j) && j == 0 ==> NoLineTerminator(rest);
          assert SpacesBefore(rest[1..], j - 1);
          assert NoTerminatorFrom(rest[1..], j - 1);
        }
      }
      r
  }

  /** Strips one pair of matching double or single quotes; `slice(1, -1)` of a lone quote
      is empty. */
  function Unquote(v: string): (r: string)
    ensures |r| <= |v|
    ensures (|v| >= 2 && (v[0] == v[|v| - 1] == '"' || v[0] == v[|v| - 1] == '\'')) ==> r == v[1..|v| - 1]
    ensures (|v| == 0 || (v[0] != '"' && v[0] != '\'') || v[|v| - 1] != v[0]) ==> r == v
  {
    if |v| >= 1 && ((v[0] == '"' && v[|v| - 1] == '"') || (v[0] == '\'' && v[|v| - 1] == '\'')) then
      if |v| >= 2 then v[1..|v| - 1] else ""
    else v
  }

  /** `line.replace(/\r$/, '')` */
  function CleanLine(line: string): (r: string)
    ensures EndsWith(line, "\r") ==> line == r + "\r"
    ensures !EndsWith(line, "\r") ==> r == line
  {
    if EndsWith(line, "\r") then line[..|line| - 1] else line
  }

  /** What `^(\w+):\s*(.+)$` matches on a cleaned line, with the key split off at `n`. */
  ghost predicate LineRegexAt(l: string, n: nat) {
    0 < n < |l| && AllWord(l[..n]) && l[n] == ':' && ValueRegex(l[n + 1..])
  }

  /** One line: the key and the trimmed, unquoted value, or `None` when the line does not
      have the `key: value` form. */
  function ParseLine(line: string): (r: Option<(string, string)>)
    ensures r.Some? ==> |r.value.0| > 0 && AllWord(r.value.0)
  {
    var l := CleanLine(line);
    var n := WordPrefixLen(l);
    if n == 0 || n >= |l| || l[n] != ':' || !HasValue(l[n + 1..]) then None
    else Some((l[..n], Unquote(Trim(l[n + 1..]))))
  }

  /** A line parses exactly when `^(\w+):\s*(.+)$` matches its cleaned form, and then to the
      captured key and the trimmed, unquoted value. */
  lemma ParseLineMatchesRegex(line: string)
    ensures ParseLine(line).Some? <==> exists n :: LineRegexAt(CleanLine(line), n)
    ensures forall n: nat :: LineRegexAt(CleanLine(line), n) ==>
              ParseLine(line) == Some((CleanLine(line)[..n], Unquote(Trim(CleanLine(line)[n + 1..]))))
  {
    var l := CleanLine(line);
    var n := WordPrefixLen(l);
    forall m: nat | LineRegexAt(l, m)
      ensures ParseLine(line) == Some((l[..m], Unquote(Trim(l[m + 1..]))))
    {
      ParseLineAt(line, m);
    }
    if ParseLine(line).Some? {
      assert LineRegexAt(l, n);
    }
  }

  /** A line whose cleaned form matches with the key ending at `m` parses to that key. */
  lemma ParseLineAt(line: string, m: nat)
    requires LineRegexAt(CleanLine(line), m)
    ensures ParseLine(line) == Some((CleanLine(line)[..m], Unquote(Trim(CleanLine(line)[m + 1..]))))
  {
    var l := CleanLine(line);
    KeyEndsAtColon(l, m);
    assert HasValue(l[m + 1..]);
    assert ParseLine(line) == Some((l[..m], Unquote(Trim(l[m + 1..]))));
  }

  /** The key of a matching line is its whole word-character prefix. */
  lemma KeyEndsAtColon(l: string, m: nat)
    requires LineRegexAt(l, m)
    ensures m == WordPrefixLen(l)
  {
    var n := WordPrefixLen(l);
    assert forall i :: 0 <= i < n ==> IsWordChar(l[i]) by {
      forall i | 0 <= i < n ensures IsWordChar(l[i]) { assert l[..n][i] == l[i]; }
    }
    assert forall i :: 0 <= i < m ==> IsWordChar(l[i]) by {
      forall i | 0 <= i < m ensures IsWordChar(l[i]) { assert l[..m][i] == l[i]; }
    }
    assert !IsWordChar(l[m]);
  }

  /** Any line "key: value" with a word key and a value that is free of line terminators and
      not blank parses to the key and the trimmed value (unquoted). */
  lemma ParseKeyValueLine(key: string, value: string)
    requires |key| > 0 && AllWord(key)
    requires NoLineTerminator(value) && |Trim(value)| > 0
    ensures ParseLine(key + ": " + value) == Some((key, Unquote(Trim(value))))
  {
    var line := key + ": " + value;
    var rest := " " + value;
    assert line == key + [':'] + rest;
    assert line[..|key|] == key;
    assert line[|key| + 1..] == rest;
    TrimLeadingSpace(value);
    KeyValueLineIsClean(key, value);
    KeyValueLineMatches(key, value);
    ParseLineAt(line, |key|);
  }

  lemma KeyValueLineIsClean(key: string, value: string)
    requires NoLineTerminator(value)
    ensures CleanLine(key + ": " + value) == key + ": " + value
  {
    var line := key + ": " + value;
    if |value| > 0 {
      assert line[|line| - 1] == value[|value| - 1];
    }
    assert line[|line| - 1..] == [line[|line| - 1]];
  }

  lemma KeyValueLineMatches(key: string, value: string)
    requires |key| > 0 && AllWord(key)
    requires NoLineTerminator(value) && |Trim(value)| > 0
    ensures LineRegexAt(key + ": " + value, |key|)
  {
    var line := key + ": " + value;
    var rest := " " + value;
    assert line == key + [':'] + rest;
    assert line[..|key|] == key && line[|key|] == ':' && line[|key| + 1..] == rest;
    assert SpacesBefore(rest, 1);
    assert NoTerminatorFrom(rest, 1);
  }

  /** A leading space does not change the trimmed text. */
  lemma TrimLeadingSpace(v: string)
    ensures Trim(" " + v) == Trim(v)
  {
    assert (" " + v)[1..] == v;
  }

  /** The parsed form of each line, in order. */
  function ParsedLines(lines: seq<string>): (r: seq<Option<(string, string)>>)
    ensures |r| == |lines|
    ensures forall i :: 0 <= i < |lines| ==> r[i] == ParseLine(lines[i])
  {
    seq(|lines|, i requires 0 <= i < |lines| => ParseLine(lines[i]))
  }

  /** Some entry of `ps` sets key `k`. */
  predicate SetsKey(ps: seq<Option<(string, string)>>, k: string) {
    exists i :: 0 <= i < |ps| && IsSetting(ps[i], k)
  }

  /** The one key whose assignment on a fresh object literal runs the inherited
      `Object.prototype` setter, which ignores a string value and creates no own key. */
  const PROTO_KEY := "__proto__"

  /** Entry `p` parsed with key `k`, and `k` becomes an own key of the result. */
  predicate IsSetting(p: Option<(string, string)>, k: string) {
    p.Some? && p.value.0 == k && k != PROTO_KEY
  }

  /** `result[key] = value` for each parsed line in turn. */
  function Assign(ps: seq<Option<(string, string)>>): (r: map<string, string>)
    ensures forall k :: k in r <==> SetsKey(ps, k)
    ensures PROTO_KEY !in r
    decreases |ps|
  {
    if |ps| == 0 then map[]
    else
      var init := ps[..|ps| - 1];
      var p := ps[|ps| - 1];
      var m := Assign(init);
      assert forall k :: SetsKey(ps, k) <==> SetsKey(init, k) || IsSetting(p, k) by {
        forall k ensures SetsKey(ps, k) <==> SetsKey(init, k) || IsSetting(p, k) {
          if SetsKey(init, k) {
            var i :| 0 <= i < |init| && IsSetting(init[i], k);
            assert ps[i] == init[i];
          }
          if SetsKey(ps, k) {
            var i :| 0 <= i < |ps| && IsSetting(ps[i], k);
            if i < |init| { assert init[i] == ps[i]; }
          }
        }
      }
      if p.None? || p.value.0 == PROTO_KEY then m else m[p.value.0 := p.value.1]
  }

  /** A key takes the value of the last entry that sets it; a `__proto__` entry sets nothing. */
  lemma {:induction false} AssignLastWins(ps: seq<Option<(string, string)>>, i: nat)
    requires i < |ps| && ps[i].Some?
    requires forall j :: i < j < |ps| ==> !IsSetting(ps[j], ps[i].value.0)
    ensures ps[i].value.0 != PROTO_KEY ==>
              ps[i].value.0 in Assign(ps) && Assign(ps)[ps[i].value.0] == ps[i].value.1
    ensures ps[i].value.0 == PROTO_KEY ==> ps[i].value.0 !in Assign(ps)
    decreases |ps|
  {
    var last := |ps| - 1;
    var init := ps[..last];
    if i < last {
      assert init[i] == ps[i];
      assert forall j :: i < j < |init| ==> init[j] == ps[j];
      AssignLastWins(init, i);
      assert !IsSetting(ps[last], ps[i].value.0);
    }
  }

  /** The lines in order, each parsed line setting its key. */
  function ParseLines(lines: seq<string>): (r: map<string, string>)
    ensures forall k :: k in r ==> |k| > 0 && AllWord(k)
  {
    var ps := ParsedLines(lines);
    assert forall k :: k in Assign(ps) ==> |k| > 0 && AllWord(k) by {
      forall k | k in Assign(ps) ensures |k| > 0 && AllWord(k) {
        var i :| 0 <= i < |ps| && IsSetting(ps[i], k);
        assert ps[i] == ParseLine(lines[i]);
      }
    }
    Assign(ps)
  }

  /** The keys of the result are the keys of the lines that parse. */
  lemma ParseLinesKeys(lines: seq<string>)
    ensures forall k :: k in ParseLines(lines) <==> exists i :: 0 <= i < |lines| && IsSetting(ParseLine(lines[i]), k)
  {
    var ps := ParsedLines(lines);
    assert forall k :: SetsKey(ps, k) <==> exists i :: 0 <= i < |lines| && IsSetting(ParseLine(lines[i]), k) by {
      forall k ensures SetsKey(ps, k) <==> exists i :: 0 <= i < |lines| && IsSetting(ParseLine(lines[i]), k) {
        if exists i :: 0 <= i < |lines| && IsSetting(ParseLine(lines[i]), k) {
          var i :| 0 <= i < |lines| && IsSetting(ParseLine(lines[i]), k);
          assert IsSetting(ps[i], k);
        }
      }
    }
  }

  /** A key takes the value of the last line that sets it; a `__proto__` line sets nothing. */
  lemma ParseLinesLastWins(lines: seq<string>, i: nat)
    requires i < |lines| && ParseLine(lines[i]).Some?
    requires forall j :: i < j < |lines| ==> !IsSetting(ParseLine(lines[j]), ParseLine(lines[i]).value.0)
    ensures ParseLine(lines[i]).value.0 != PROTO_KEY ==>
              && ParseLine(lines[i]).value.0 in ParseLines(lines)
              && ParseLines(lines)[ParseLine(lines[i]).value.0] == ParseLine(lines[i]).value.1
    ensures ParseLine(lines[i]).value.0 == PROTO_KEY ==> ParseLine(lines[i]).value.0 !in ParseLines(lines)
  {
    AssignLastWins(ParsedLines(lines), i);
  }

  lemma ProtoKeyIsWord()
    ensures |PROTO_KEY| > 0 && AllWord(PROTO_KEY)
  {
  }

  /** A `__proto__: <value>` line matches the line pattern, yet the result stays empty. */
  lemma ProtoLineSetsNothing(value: string)
    requires NoLineTerminator(value) && |Trim(value)| > 0
    ensures ParseLine(PROTO_KEY + ": " + value) == Some((PROTO_KEY, Unquote(Trim(value))))
    ensures ParseLines([PROTO_KEY + ": " + value]) == map[]
  {
    ProtoKeyIsWord();
    ParseKeyValueLine(PROTO_KEY, value);
    var lines := [PROTO_KEY + ": " + value];
    ParseLinesKeys(lines);
    assert forall k :: k !in ParseLines(lines) by {
      forall k ensures k !in ParseLines(lines) {
        assert forall i :: 0 <= i < |lines| ==> !IsSetting(ParseLine(lines[i]), k);
      }
    }
  }

  /** `^---\r?\n`: the length of the opening delimiter. */
  function OpenLen(c: string): (r: Option<nat>)
    ensures StartsWith(c, "---\n") ==> r == Some(4)
    ensures StartsWith(c, "---\r\n") ==> r == Some(5)
    ensures r.Some? ==> r.value <= |c|
    ensures r.None? <==> !StartsWith(c, "---\n") && !StartsWith(c, "---\r\n")
  {
    assert StartsWith(c, "---\n") ==> !StartsWith(c, "---\r\n") by {
      if StartsWith(c, "---\n") { assert c[3] == '\n'; }
    }
    if StartsWith(c, "---\n") then Some(4)
    else if StartsWith(c, "---\r\n") then Some(5)
    else None
  }

  /** Can `\r?\n---` match at position `k`? */
  predicate ClosesAt(c: string, k: nat) {
    OccursAt(c, "\n---", k) || OccursAt(c, "\r\n---", k)
  }

  /** The lazy `([\s\S]*?)` stops at the first position where the closing delimiter matches. */
  function FirstClose(c: string, from: nat): (r: Option<nat>)
    decreases |c| - from
    ensures r.Some? ==> from <= r.value <= |c| && ClosesAt(c, r.value)
    ensures r.Some? ==> forall k :: from <= k < r.value ==> !ClosesAt(c, k)
    ensures r.None? ==> forall k :: from <= k ==> !ClosesAt(c, k)
  {
    if from >= |c| then None
    else if ClosesAt(c, from) then Some(from)
    else FirstClose(c, from + 1)
  }

  /** The captured block between the delimiters, if the content has one. */
  function Block(c: string): (r: Option<string>)
    ensures r.Some? ==> exists o, k :: OpenLen(c) == Some(o) && FirstClose(c, o) == Some(k) && r.value == c[o..k]
    ensures r.None? <==> OpenLen(c).None? || FirstClose(c, OpenLen(c).value).None?
  {
    match OpenLen(c)
    case None => None
    case Some(o) =>
      match FirstClose(c, o)
      case None => None
      case Some(k) => Some(c[o..k])
  }

  /** `parseFrontmatter(content)` */
  function ParseFrontmatter(content: string): (r: map<string, string>)
    ensures Block(content).None? ==> r == map[]
    ensures forall k :: k in r ==> |k| > 0 && AllWord(k)
  {
    match Block(content)
    case None => map[]
    case Some(b) => ParseLines(Split(b, '\n'))
  }

  /** A block written as `---\n<body>\n---` is read back line by line, provided the body
      does not itself contain a closing delimiter. */
  lemma {:induction false} BlockOfDelimited(body: string, rest: string)
    requires !Contains(body, "\n---") && !EndsWith(body, "\r")
    ensures Block("---\n" + body + "\n---" + rest) == Some(body)
  {
    var c := "---\n" + body + "\n---" + rest;
    assert StartsWith(c, "---\n") by { assert c[..4] == "---\n"; }
    var e := 4 + |body|;
    assert OccursAt(c, "\n---", e) by { assert c[e..e + 4] == "\n---"; }
    forall k | 4 <= k < e ensures !ClosesAt(c, k) {
      NoCloseInsideBody(body, rest, k);
    }
    assert FirstClose(c, 4) == Some(e) by {
      FirstCloseFinds(c, 4, e);
    }
    assert c[4..e] == body;
  }

  lemma {:induction false} FirstCloseFinds(c: string, from: nat, e: nat)
    requires from <= e <= |c| && ClosesAt(c, e)
    requires forall k :: from <= k < e ==> !ClosesAt(c, k)
    ensures FirstClose(c, from) == Some(e)
    decreases e - from
  {
    if from < e {
      FirstCloseFinds(c, from + 1, e);
    }
  }

  lemma NoCloseInsideBody(body: string, rest: string, k: nat)
    requires !Contains(body, "\n---") && !EndsWith(body, "\r")
    requires 4 <= k < 4 + |body|
    ensures !ClosesAt("---\n" + body + "\n---" + rest, k)
  {
    NoLfCloseInsideBody(body, rest, k);
    NoCrLfCloseInsideBody(body, rest, k);
  }

  /** No `\n---` starts inside the body: it would lie in the body or cross its closing newline. */
  lemma NoLfCloseInsideBody(body: string, rest: string, k: nat)
    requires !Contains(body, "\n---")
    requires 4 <= k < 4 + |body|
    ensures !OccursAt("---\n" + body + "\n---" + rest, "\n---", k)
  {
    var c := "---\n" + body + "\n---" + rest;
    var e := 4 + |body|;
    if k + 4 <= e {
      assert !OccursAt(body, "\n---", k - 4);
      assert c[k..k + 4] == body[k - 4..k];
    } else {
      assert c[e] == '\n';
      assert c[e] != "\n---"[e - k];
    }
  }

  /** No `\r\n---` starts inside the body: the body holds no `\n---` and does not end in `\r`. */
  lemma NoCrLfCloseInsideBody(body: string, rest: string, k: nat)
    requires !Contains(body, "\n---") && !EndsWith(body, "\r")
    requires 4 <= k < 4 + |body|
    ensures !OccursAt("---\n" + body + "\n---" + rest, "\r\n---", k)
  {
    var c := "---\n" + body + "\n---" + rest;
    var e := 4 + |body|;
    if k + 5 <= e {
      assert !OccursAt(body, "\n---", k - 3);
      assert c[k + 1..k + 5] == body[k - 3..k + 1];
      assert c[k..k + 5][1..] == c[k + 1..k + 5];
    } else if k + 1 == e {
      assert c[k] == body[|body| - 1];
      assert body[|body| - 1..] == [body[|body| - 1]];
    } else {
      assert c[e] == '\n';
      assert c[e] != "\r\n---"[e - k];
    }
  }


  /** A content without the opening delimiter has no front-matter. */
  lemma NoOpeningNoFrontmatter(content: string)
    requires !StartsWith(content, "---\n") && !StartsWith(content, "---\r\n")
    ensures ParseFrontmatter(content) == map[]
  {
  }
}
