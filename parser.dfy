/** Field extraction of index.js (heroRegexes and the pure part of parseFile, index.js:57-78):
    the file text is trimmed at its end, then each of four patterns is searched for
    independently, and a field is absent when its pattern has no match. The four regular
    expressions are written out as scanners with the semantics of JavaScript's matcher in
    multiline mode, with '\n' as the only line terminator. */
module Parser {
  import opened Heroes

  // ---------------------------------------------------------------------------------------
  // trimEnd

  /** The characters String.prototype.trimEnd removes: ECMAScript WhiteSpace (tab, vertical
      tab, form feed, the byte order mark and every Unicode space separator) and
      LineTerminator (line feed, carriage return, line and paragraph separator). */
  predicate IsWhiteSpace(c: char) {
    c == '\t' || c == '\n' || c == '\U{000B}' || c == '\U{000C}' || c == '\r' || c == ' '
    || c == '\U{00A0}' || c == '\U{1680}' || ('\U{2000}' <= c <= '\U{200A}')
    || c == '\U{2028}' || c == '\U{2029}' || c == '\U{202F}' || c == '\U{205F}'
    || c == '\U{3000}' || c == '\U{FEFF}'
  }

  /** String.prototype.trimEnd: the longest prefix of s after which only white space
      follows and that does not itself end in white space. */
  function TrimEnd(s: string): (r: string)
    ensures |r| <= |s| && r == s[..|r|]
    ensures forall i :: |r| <= i < |s| ==> IsWhiteSpace(s[i])
    ensures |r| == 0 || !IsWhiteSpace(r[|r| - 1])
    decreases |s|
  {
    if |s| > 0 && IsWhiteSpace(s[|s| - 1]) then TrimEnd(s[..|s| - 1]) else s
  }

  /** The three properties of TrimEnd determine its result. */
  lemma TrimEndUnique(s: string, r: string)
    requires |r| <= |s| && r == s[..|r|]
    requires forall i :: |r| <= i < |s| ==> IsWhiteSpace(s[i])
    requires |r| == 0 || !IsWhiteSpace(r[|r| - 1])
    ensures TrimEnd(s) == r
  {
    var t := TrimEnd(s);
    assert |t| == |r|;
  }

  /** Trimming is idempotent. */
  lemma TrimEndIdempotent(s: string)
    ensures TrimEnd(TrimEnd(s)) == TrimEnd(s)
  {
    TrimEndUnique(TrimEnd(s), TrimEnd(s));
  }

  /** White space added at the end is trimmed away again. */
  lemma TrimEndTrailing(s: string, ws: string)
    requires forall i :: 0 <= i < |ws| ==> IsWhiteSpace(ws[i])
    ensures TrimEnd(s + ws) == TrimEnd(s)
  {
    var r := TrimEnd(s);
    assert (s + ws)[..|r|] == s[..|r|];
    forall i | |r| <= i < |s + ws|
      ensures IsWhiteSpace((s + ws)[i])
    {
      if i >= |s| {
        assert (s + ws)[i] == ws[i - |s|];
      }
    }
    TrimEndUnique(s + ws, r);
  }

  /** Text in front of a part that keeps something after trimming is not touched. */
  lemma TrimEndAppend(a: string, b: string)
    requires |TrimEnd(b)| > 0
    ensures TrimEnd(a + b) == a + TrimEnd(b)
  {
    var t := TrimEnd(b);
    var r := a + t;
    assert (a + b)[..|r|] == r by {
      assert b[..|t|] == t;
    }
    forall i | |r| <= i < |a + b|
      ensures IsWhiteSpace((a + b)[i])
    {
      assert (a + b)[i] == b[i - |a|];
    }
    assert r[|r| - 1] == t[|t| - 1];
    TrimEndUnique(a + b, r);
  }

  // ---------------------------------------------------------------------------------------
  // Lines and spaces

  /** ^ in multiline mode: the start of the text or just after a line feed. */
  predicate LineStart(s: string, p: int) {
    p == 0 || (0 < p <= |s| && s[p - 1] == '\n')
  }

  /** t holds spaces only. */
  predicate Spaces(t: string) {
    forall i :: 0 <= i < |t| ==> t[i] == ' '
  }

  /** Where $ first succeeds at or after p: the first line feed from p on, or the end. */
  function LineEnd(s: string, p: nat): (e: nat)
    requires p <= |s|
    ensures p <= e <= |s|
    ensures forall i :: p <= i < e ==> s[i] != '\n'
    ensures e == |s| || s[e] == '\n'
    decreases |s| - p
  {
    if p == |s| || s[p] == '\n' then p else LineEnd(s, p + 1)
  }

  /** Where a greedy run of spaces from p stops. */
  function SpacesEnd(s: string, p: nat): (e: nat)
    requires p <= |s|
    ensures p <= e <= |s|
    ensures forall i :: p <= i < e ==> s[i] == ' '
    ensures e == |s| || s[e] != ' '
    decreases |s| - p
  {
    if p < |s| && s[p] == ' ' then SpacesEnd(s, p + 1) else p
  }

  /** A line that runs on from p without a line feed up to q ends where the line at q ends. */
  lemma LineEndSkip(s: string, p: nat, q: nat)
    requires p <= q <= |s| && forall i :: p <= i < q ==> s[i] != '\n'
    ensures LineEnd(s, p) == LineEnd(s, q)
  {
  }

  /** The end of a run of spaces is its first non-space position. */
  lemma SpacesEndAt(s: string, p: nat, e: nat)
    requires p <= e <= |s| && (forall i :: p <= i < e ==> s[i] == ' ')
    requires e == |s| || s[e] != ' '
    ensures SpacesEnd(s, p) == e
  {
  }

  /** A slice of a prefix of u is that slice of u. */
  lemma PrefixSlice(u: string, e: nat, a: nat, b: nat)
    requires a <= b <= e <= |u|
    ensures u[..e][a..b] == u[a..b]
  {
  }

  /** A prefix of a prefix of u is a prefix of u. */
  lemma PrefixTake(u: string, e: nat, b: nat)
    requires b <= e <= |u|
    ensures u[..e][..b] == u[..b]
  {
  }

  /** The first line of u: the text before its first line feed. */
  function HeadLine(u: string): string {
    u[..LineEnd(u, 0)]
  }

  // ---------------------------------------------------------------------------------------
  // The four patterns, each tried at the start of u

  /** line is a run of spaces, then '#', then anything: the text matched by / *#.*?$/. */
  predicate SchemaShaped(line: string) {
    exists j :: 0 <= j < |line| && Spaces(line[..j]) && line[j] == '#'
  }

  /** The schema pattern /^(?<Value> *#.*?)$/ms at the start of u: spaces, '#', and then the
      lazy .*? stops at the first line end, so the value is the whole first line. */
  function SchemaHere(u: string): Option<string> {
    var q := SpacesEnd(u, 0);
    if q < |u| && u[q] == '#' then Some(u[..LineEnd(u, q + 1)]) else None
  }

  /** The schema pattern matches exactly when the first line is spaces, '#' and anything, and
      its value is then that whole line. */
  lemma SchemaHereSpec(u: string)
    ensures SchemaHere(u).Some? <==> SchemaShaped(HeadLine(u))
    ensures SchemaHere(u).Some? ==> SchemaHere(u).value == HeadLine(u)
  {
    var q := SpacesEnd(u, 0);
    if q < |u| && u[q] == '#' {
      LineEndSkip(u, 0, q + 1);
      assert HeadLine(u)[..q] == u[..q];
    } else {
      NotSchemaShaped(u);
    }
  }

  lemma NotSchemaShaped(u: string)
    requires var q := SpacesEnd(u, 0); !(q < |u| && u[q] == '#')
    ensures !SchemaShaped(HeadLine(u))
  {
    var line := HeadLine(u);
    if j :| 0 <= j < |line| && Spaces(line[..j]) && line[j] == '#' {
      assert forall i :: 0 <= i < j ==> u[i] == line[..j][i];
      SpacesEndAt(u, 0, j);
    }
  }

  /** `: *$` after a key: a colon at e and only spaces from there to the end of the line. */
  predicate ColonTail(u: string, e: int) {
    0 <= e < |u| && u[e] == ':' && Spaces(u[e + 1..LineEnd(u, e + 1)])
  }

  /** The lazy [^#]+? of the name pattern, extended one character at a time from length e. */
  function NameFrom(u: string, e: nat): Option<string>
    requires 0 < e <= |u|
    decreases |u| - e
  {
    if e == |u| then None
    else if ColonTail(u, e) then Some(u[..e])
    else if u[e] == '#' then None
    else NameFrom(u, e + 1)
  }

  /** From a '#'-free run of length e on, the lazy run stops at the first colon tail and
      fails at a '#' or at the end of the text. */
  lemma {:induction false} NameFromSpec(u: string, e: nat)
    requires 0 < e <= |u| && '#' !in u[..e]
    ensures var r := NameFrom(u, e);
            r.Some? ==> e <= |r.value| < |u| && r.value == u[..|r.value|] && '#' !in r.value
                        && ColonTail(u, |r.value|)
    ensures var r := NameFrom(u, e);
            r.Some? ==> forall f :: e <= f < |r.value| ==> !ColonTail(u, f)
    ensures NameFrom(u, e).None? ==> forall f :: e <= f < |u| && '#' !in u[..f] ==> !ColonTail(u, f)
    decreases |u| - e
  {
    if e < |u| && !ColonTail(u, e) {
      if u[e] == '#' {
        assert forall f :: e < f <= |u| ==> u[..f][e] == '#';
      } else {
        assert u[..e + 1] == u[..e] + [u[e]];
        NameFromSpec(u, e + 1);
      }
    }
  }

  /** The name pattern /^(?<Value>[^#]+?): *$/ms at the start of u: the shortest non-empty
      run without '#' (line feeds included) that is followed by a colon and then only spaces
      up to a line end. */
  function NameHere(u: string): Option<string> {
    if |u| > 0 && u[0] != '#' then NameFrom(u, 1) else None
  }

  /** A name found at the start of u is the shortest non-empty '#'-free prefix followed by a
      colon tail; none is found exactly when no such prefix exists. */
  lemma NameHereSpec(u: string)
    ensures var r := NameHere(u);
            r.Some? ==> 0 < |r.value| < |u| && r.value == u[..|r.value|] && '#' !in r.value
                        && ColonTail(u, |r.value|)
    ensures var r := NameHere(u);
            r.Some? ==> forall f :: 0 < f < |r.value| ==> !ColonTail(u, f)
    ensures NameHere(u).None? ==> forall f :: 0 < f < |u| && '#' !in u[..f] ==> !ColonTail(u, f)
  {
    if |u| > 0 && u[0] != '#' {
      assert u[..1] == [u[0]];
      NameFromSpec(u, 1);
    } else {
      assert forall f :: 0 < f <= |u| ==> u[..f][0] == '#';
    }
  }

  /** line starts with one or more spaces and then key. */
  predicate KeyPrefix(line: string, key: string) {
    exists q :: 0 < q && q + |key| <= |line| && Spaces(line[..q]) && line[q..q + |key|] == key
  }

  /** line is one or more spaces, key, and spaces only: the text matched by / +key *$/. */
  predicate KeyLine(line: string, key: string) {
    exists q :: 0 < q && q + |key| <= |line| && Spaces(line[..q]) && line[q..q + |key|] == key
                && Spaces(line[q + |key|..])
  }

  /** key occurs in u at q, after at least one character. */
  predicate KeyAt(u: string, key: string, q: int) {
    0 < q && q + |key| <= |u| && u[q..q + |key|] == key
  }

  const ColouredNameKey := "colouredName:"
  const SkillsKey := "skills:"

  /** A key that starts with a non-space sits right after the leading spaces of u. */
  lemma KeyPosition(u: string, key: string, q: int)
    requires |key| > 0 && key[0] != ' '
    requires 0 < q && q + |key| <= |u| && Spaces(u[..q]) && u[q..q + |key|] == key
    ensures q == SpacesEnd(u, 0)
  {
    assert u[q] == key[0];
    assert forall i :: 0 <= i < q ==> u[i] == u[..q][i];
    SpacesEndAt(u, 0, q);
  }

  /** The leading spaces, a key without spaces or line feeds, and the spaces after it all lie
      on the first line of u, and that part of the line is spaces, the key and spaces. */
  lemma KeyFacts(u: string, key: string, q: nat, b: nat)
    requires |key| > 0 && key[0] != ' ' && '\n' !in key
    requires q == SpacesEnd(u, 0) && KeyAt(u, key, q)
    requires b == SpacesEnd(u, q + |key|)
    ensures b <= LineEnd(u, 0) && LineEnd(u, b) == LineEnd(u, 0)
    ensures KeyLine(HeadLine(u)[..b], key) && KeyPrefix(HeadLine(u), key)
  {
    forall i | 0 <= i < b
      ensures u[i] != '\n'
    {
      if q <= i < q + |key| {
        assert u[i] == u[q..q + |key|][i - q];
      }
    }
    LineEndSkip(u, 0, b);
    var e := LineEnd(u, 0);
    assert Spaces(u[..q]);
    assert Spaces(u[q + |key|..b]);
    KeyLineOfPrefix(u, key, q, b);
    KeyPrefixOfPrefix(u, key, q, e);
    PrefixTake(u, e, b);
  }

  /** Spaces, key at q and spaces up to b make the first b characters of u a key line. */
  lemma KeyLineOfPrefix(u: string, key: string, q: nat, b: nat)
    requires KeyAt(u, key, q) && Spaces(u[..q]) && q + |key| <= b <= |u| && Spaces(u[q + |key|..b])
    ensures KeyLine(u[..b], key)
  {
    var w := u[..b];
    PrefixTake(u, b, q);
    PrefixSlice(u, b, q, q + |key|);
    assert w[q + |key|..] == u[q + |key|..b];
    assert 0 < q && q + |key| <= |w| && Spaces(w[..q]) && w[q..q + |key|] == key
           && Spaces(w[q + |key|..]);
  }

  /** Spaces and key at q make every longer prefix of u start with the key. */
  lemma KeyPrefixOfPrefix(u: string, key: string, q: nat, e: nat)
    requires KeyAt(u, key, q) && Spaces(u[..q]) && q + |key| <= e <= |u|
    ensures KeyPrefix(u[..e], key)
  {
    var line := u[..e];
    PrefixTake(u, e, q);
    PrefixSlice(u, e, q, q + |key|);
    assert 0 < q && q + |key| <= |line| && Spaces(line[..q]) && line[q..q + |key|] == key;
  }

  /** When u does not start with spaces and then key, neither does its first line. */
  lemma NoKeyPrefix(u: string, key: string)
    requires |key| > 0 && key[0] != ' '
    requires !KeyAt(u, key, SpacesEnd(u, 0))
    ensures !KeyPrefix(HeadLine(u), key)
  {
    if KeyPrefix(HeadLine(u), key) {
      KeyAfterSpaces(u, key);
    }
  }

  /** When the first line of u starts with spaces and key, the key is right after the
      leading spaces of u. */
  lemma KeyAfterSpaces(u: string, key: string)
    requires |key| > 0 && key[0] != ' ' && KeyPrefix(HeadLine(u), key)
    ensures KeyAt(u, key, SpacesEnd(u, 0))
  {
    var line := HeadLine(u);
    var q :| 0 < q && q + |key| <= |line| && Spaces(line[..q]) && line[q..q + |key|] == key;
    KeyInHeadLine(u, key, q);
  }

  /** A key after the leading spaces of the first line of u is there in u itself. */
  lemma KeyInHeadLine(u: string, key: string, q: nat)
    requires |key| > 0 && key[0] != ' '
    requires var line := HeadLine(u);
             0 < q && q + |key| <= |line| && Spaces(line[..q]) && line[q..q + |key|] == key
    ensures q == SpacesEnd(u, 0) && KeyAt(u, key, q)
  {
    var e := LineEnd(u, 0);
    PrefixSlice(u, e, 0, q);
    PrefixSlice(u, e, q, q + |key|);
    KeyPosition(u, key, q);
  }

  /** v ends line, and the part of line before it is one or more spaces, key and spaces. */
  predicate LineValue(line: string, v: string, key: string) {
    |v| <= |line| && line[|line| - |v|..] == v && KeyLine(line[..|line| - |v|], key)
  }

  /** The coloured name pattern /^ +colouredName: *(?<Value>.*?)$/ms at the start of u: the
      first line is one or more spaces, the key and spaces, and the value is the rest of that
      line, which therefore does not start with a space. */
  function ColouredNameHere(u: string): Option<string> {
    var q := SpacesEnd(u, 0);
    if KeyAt(u, ColouredNameKey, q) then
      var b := SpacesEnd(u, q + |ColouredNameKey|);
      Some(u[b..LineEnd(u, b)])
    else None
  }

  /** The coloured name pattern matches exactly when the first line starts with spaces and
      the key; the value then ends that line, holds no line feed and starts with no space. */
  lemma ColouredNameHereSpec(u: string)
    ensures ColouredNameHere(u).Some? <==> KeyPrefix(HeadLine(u), ColouredNameKey)
    ensures var r := ColouredNameHere(u);
            r.Some? ==> && LineValue(HeadLine(u), r.value, ColouredNameKey)
                        && '\n' !in r.value && (|r.value| == 0 || r.value[0] != ' ')
  {
    var q := SpacesEnd(u, 0);
    if KeyAt(u, ColouredNameKey, q) {
      ColouredNameAt(u, q, SpacesEnd(u, q + |ColouredNameKey|));
    } else {
      NoKeyPrefix(u, ColouredNameKey);
    }
  }

  /** The coloured name after the key at q and the spaces up to b. */
  lemma ColouredNameAt(u: string, q: nat, b: nat)
    requires q == SpacesEnd(u, 0) && KeyAt(u, ColouredNameKey, q)
    requires b == SpacesEnd(u, q + |ColouredNameKey|)
    ensures var v := u[b..LineEnd(u, b)];
            && KeyPrefix(HeadLine(u), ColouredNameKey) && LineValue(HeadLine(u), v, ColouredNameKey)
            && '\n' !in v && (|v| == 0 || v[0] != ' ')
  {
    var key := ColouredNameKey;
    KeyFacts(u, key, q, b);
    LineValueAt(u, key, b);
    RestOfLine(u, b);
  }

  /** The rest of the line from b, where no space is, has no line feed and does not start
      with a space. */
  lemma RestOfLine(u: string, b: nat)
    requires b <= |u| && (b == |u| || u[b] != ' ')
    ensures var v := u[b..LineEnd(u, b)]; '\n' !in v && (|v| == 0 || v[0] != ' ')
  {
    var v := u[b..LineEnd(u, b)];
    assert forall i :: 0 <= i < |v| ==> v[i] == u[b + i];
  }

  /** The rest of the first line of u after a key line that ends at b. */
  lemma LineValueAt(u: string, key: string, b: nat)
    requires b <= LineEnd(u, 0) && KeyLine(HeadLine(u)[..b], key)
    ensures LineValue(HeadLine(u), u[b..LineEnd(u, 0)], key)
  {
    var e := LineEnd(u, 0);
    var line := u[..e];
    var v := u[b..e];
    assert |line| - |v| == b;
    assert line[b..] == v;
  }

  /** The first line of u is one or more spaces, the skills key and spaces only, and a line
      feed ends it. */
  predicate SkillsLine(u: string) {
    KeyLine(HeadLine(u), SkillsKey) && LineEnd(u, 0) < |u|
  }

  /** The text after the line feed that ends the first line of u. */
  function AfterHeadLine(u: string): string
    requires LineEnd(u, 0) < |u|
  {
    u[LineEnd(u, 0) + 1..]
  }

  /** The skills pattern /^ +skills: *\n(?<Value>.*)/sm at the start of u: the first line is
      one or more spaces, the key and spaces only, a line feed ends it, and the value is all of
      the text after that line feed. */
  function SkillsHere(u: string): Option<string> {
    var q := SpacesEnd(u, 0);
    if KeyAt(u, SkillsKey, q) then
      var b := SpacesEnd(u, q + |SkillsKey|);
      if b < |u| && u[b] == '\n' then Some(u[b + 1..]) else None
    else None
  }

  /** The skills pattern matches exactly at a skills line, and its value is all of the text
      after that line. */
  lemma SkillsHereSpec(u: string)
    ensures SkillsHere(u).Some? <==> SkillsLine(u)
    ensures SkillsHere(u).Some? ==> SkillsHere(u).value == AfterHeadLine(u)
  {
    var q := SpacesEnd(u, 0);
    if KeyAt(u, SkillsKey, q) {
      var b := SpacesEnd(u, q + |SkillsKey|);
      if b < |u| && u[b] == '\n' {
        SkillsAt(u, q, b);
      } else {
        NotSkillsLine(u, q, b);
      }
    } else {
      NoKeyLine(u, SkillsKey);
    }
  }

  /** When u does not start with spaces and then key, its first line is not a key line. */
  lemma NoKeyLine(u: string, key: string)
    requires |key| > 0 && key[0] != ' '
    requires !KeyAt(u, key, SpacesEnd(u, 0))
    ensures !KeyLine(HeadLine(u), key)
  {
    if KeyLine(HeadLine(u), key) {
      KeyLinePrefix(HeadLine(u), key);
      NoKeyPrefix(u, key);
    }
  }

  /** Every character of a run of spaces is a space. */
  lemma SpacesAt(t: string, a: nat, i: nat)
    requires a <= i < |t| && Spaces(t[a..])
    ensures t[i] == ' '
  {
    assert t[a..][i - a] == t[i];
  }

  /** A key line starts with spaces and the key. */
  lemma KeyLinePrefix(line: string, key: string)
    requires KeyLine(line, key)
    ensures KeyPrefix(line, key)
  {
    var q :| 0 < q && q + |key| <= |line| && Spaces(line[..q]) && line[q..q + |key|] == key
             && Spaces(line[q + |key|..]);
  }

  /** The skills line at the start of u when a line feed follows the key at q and the spaces
      up to b. */
  lemma SkillsAt(u: string, q: nat, b: nat)
    requires q == SpacesEnd(u, 0) && KeyAt(u, SkillsKey, q)
    requires b == SpacesEnd(u, q + |SkillsKey|) && b < |u| && u[b] == '\n'
    ensures SkillsLine(u) && AfterHeadLine(u) == u[b + 1..]
  {
    KeyFacts(u, SkillsKey, q, b);
    assert HeadLine(u)[..b] == HeadLine(u);
  }

  /** When the spaces after the key at the start of u are not followed by a line feed, the
      first line of u is not a skills line. */
  lemma NotSkillsLine(u: string, q: nat, b: nat)
    requires q == SpacesEnd(u, 0) && KeyAt(u, SkillsKey, q)
    requires b == SpacesEnd(u, q + |SkillsKey|)
    requires !(b < |u| && u[b] == '\n')
    ensures !SkillsLine(u)
  {
    var key := SkillsKey;
    KeyFacts(u, key, q, b);
    var line := HeadLine(u);
    var e := LineEnd(u, 0);
    if KeyLine(line, key) && e < |u| {
      var q' :| 0 < q' && q' + |key| <= |line| && Spaces(line[..q']) && line[q'..q' + |key|] == key
                && Spaces(line[q' + |key|..]);
      KeyInHeadLine(u, key, q');
      if b < e {
        SpacesAt(line, q' + |key|, b);
      }
    }
  }

  // ---------------------------------------------------------------------------------------
  // Searching and parsing

  /** The four patterns of heroRegexes (index.js:57-62). */
  datatype Pattern = SchemaPattern | NamePattern | ColouredNamePattern | SkillsPattern

  /** The value group of pattern matched at the start of u, if it matches there. */
  function MatchHere(pattern: Pattern, u: string): Option<string> {
    match pattern
    case SchemaPattern => SchemaHere(u)
    case NamePattern => NameHere(u)
    case ColouredNamePattern => ColouredNameHere(u)
    case SkillsPattern => SkillsHere(u)
  }

  /** What the pattern yields at each position of s, from 0 to |s|: its match there when a
      line starts there, and nothing elsewhere, since every pattern begins with ^. */
  function Hits(pattern: Pattern, s: string): seq<Option<string>> {
    seq(|s| + 1, q requires 0 <= q <= |s| =>
                   if LineStart(s, q) then MatchHere(pattern, s[q..]) else None)
  }

  /** The scan of exec from position p on: the first position with a match. */
  function FirstHit(m: seq<Option<string>>, p: nat): (r: Option<nat>)
    requires p <= |m|
    ensures r.Some? ==> p <= r.value < |m| && m[r.value].Some?
    ensures r.Some? ==> forall q :: p <= q < r.value ==> m[q].None?
    ensures r.None? ==> forall q :: p <= q < |m| ==> m[q].None?
    decreases |m| - p
  {
    if p == |m| then None
    else if m[p].Some? then Some(p)
    else FirstHit(m, p + 1)
  }

  /** The value at the first position with a match, absent without one. */
  function FirstValue(m: seq<Option<string>>): Option<string> {
    match FirstHit(m, 0)
    case None => None
    case Some(q) => m[q]
  }

  /** pattern.exec(s)?.groups?.Value: the value of the leftmost match, absent without one. */
  function Exec(pattern: Pattern, s: string): Option<string> {
    FirstValue(Hits(pattern, s))
  }

  /** parseFile (index.js:68-78) once the file has been read as text: the text is trimmed at
      its end and each field is the result of its own pattern on the trimmed text. */
  function ParseHero(text: string): Hero {
    var code := TrimEnd(text);
    Hero(Exec(SchemaPattern, code), Exec(NamePattern, code), Exec(ColouredNamePattern, code),
         Exec(SkillsPattern, code))
  }

  // ---------------------------------------------------------------------------------------
  // Properties of the extraction

  /** exec finds the leftmost line start where the pattern matches, and nothing when the
      pattern matches at no line start. */
  lemma ExecLeftmost(pattern: Pattern, s: string)
    ensures Exec(pattern, s).None? <==>
            forall p :: 0 <= p <= |s| && LineStart(s, p) ==> MatchHere(pattern, s[p..]).None?
    ensures Exec(pattern, s).Some? ==>
            exists p :: 0 <= p <= |s| && LineStart(s, p) && Exec(pattern, s) == MatchHere(pattern, s[p..])
                        && forall q :: 0 <= q < p && LineStart(s, q) ==> MatchHere(pattern, s[q..]).None?
  {
    var m := Hits(pattern, s);
    var r := FirstHit(m, 0);
    if r.Some? {
      var p := r.value;
      assert m[p].Some?;
      forall q | 0 <= q < p && LineStart(s, q)
        ensures MatchHere(pattern, s[q..]).None?
      {
        assert m[q].None?;
      }
    } else {
      forall p | 0 <= p <= |s| && LineStart(s, p)
        ensures MatchHere(pattern, s[p..]).None?
      {
        assert m[p].None?;
      }
    }
  }

  /** A line feed never occurs in the first line. */
  lemma HeadLineHasNoFeed(u: string)
    ensures '\n' !in HeadLine(u)
  {
    var line := HeadLine(u);
    assert forall i :: 0 <= i < |line| ==> line[i] == u[i];
  }

  /** The line start where exec found its match, with no match at any earlier line start. */
  lemma ExecFirst(pattern: Pattern, s: string) returns (p: nat)
    requires Exec(pattern, s).Some?
    ensures p <= |s| && LineStart(s, p) && Exec(pattern, s) == MatchHere(pattern, s[p..])
    ensures forall q :: 0 <= q < p && LineStart(s, q) ==> MatchHere(pattern, s[q..]).None?
  {
    var m := Hits(pattern, s);
    p := FirstHit(m, 0).value;
    assert m[p].Some?;
    forall q | 0 <= q < p && LineStart(s, q)
      ensures MatchHere(pattern, s[q..]).None?
    {
      assert m[q].None?;
    }
  }

  /** When the pattern matches at some line start, exec finds a match. */
  lemma ExecFinds(pattern: Pattern, s: string, p: nat)
    requires p <= |s| && LineStart(s, p) && MatchHere(pattern, s[p..]).Some?
    ensures Exec(pattern, s).Some?
  {
    var m := Hits(pattern, s);
    assert m[p].Some?;
  }

  /** When the pattern matches at the start of the text, that is the match exec finds. */
  lemma ExecAtStart(pattern: Pattern, s: string)
    requires MatchHere(pattern, s).Some?
    ensures Exec(pattern, s) == MatchHere(pattern, s)
  {
    var m := Hits(pattern, s);
    assert s[0..] == s;
    assert m[0] == MatchHere(pattern, s);
  }

  /** A position found in a suffix that starts at d, as a position of the whole. */
  function Moved(r: Option<nat>, d: nat): Option<nat> {
    match r
    case None => None
    case Some(q) => Some(d + q)
  }

  /** A scan over m whose rest from d on is m' finds, from d + k on, the positions the scan
      of m' finds from k on, moved by d. */
  lemma {:induction false} FirstHitShift(m: seq<Option<string>>, m': seq<Option<string>>, d: nat, k: nat, p: nat)
    requires d <= |m| && m[d..] == m' && k <= |m'| && p == d + k
    ensures FirstHit(m, p) == Moved(FirstHit(m', k), d)
    decreases |m'| - k
  {
    if k < |m'| {
      assert m[p] == m'[k];
      if m'[k].None? {
        FirstHitShift(m, m', d, k + 1, p + 1);
      }
    }
  }

  /** A scan over positions that yield nothing goes on past them. */
  lemma {:induction false} FirstHitSkip(m: seq<Option<string>>, p: nat, q: nat)
    requires p <= q <= |m| && forall i :: p <= i < q ==> m[i].None?
    ensures FirstHit(m, p) == FirstHit(m, q)
    decreases q - p
  {
    if p < q {
      FirstHitSkip(m, p + 1, q);
    }
  }

  /** When the first d positions yield nothing, the first value is that of the rest. */
  lemma FirstValueShift(m: seq<Option<string>>, d: nat)
    requires d <= |m| && forall i :: 0 <= i < d ==> m[i].None?
    ensures FirstValue(m) == FirstValue(m[d..])
  {
    var m' := m[d..];
    FirstHitSkip(m, 0, d);
    FirstHitShift(m, m', d, 0, d);
    var r := FirstHit(m', 0);
    if r.Some? {
      assert m[d + r.value] == m'[r.value];
    }
  }

  /** Position d + k of s, after a line feed at d - 1, yields what position k of the text from
      d on yields. */
  lemma HitShift(pattern: Pattern, s: string, rest: string, d: nat, k: nat)
    requires 0 < d <= |s| && s[d - 1] == '\n' && rest == s[d..] && k <= |rest|
    ensures Hits(pattern, s)[d + k] == Hits(pattern, rest)[k]
  {
    assert s[d + k..] == rest[k..];
    if k > 0 {
      assert s[d + k - 1] == rest[k - 1];
    }
  }

  /** Past the first line feed of s, the positions of s yield what the text after it yields;
      before it, only position 0 starts a line. */
  lemma HitsAfterLine(pattern: Pattern, line: string, rest: string)
    requires '\n' !in line
    ensures var s := line + "\n" + rest; Hits(pattern, s)[|line| + 1..] == Hits(pattern, rest)
    ensures var s := line + "\n" + rest;
            forall i :: 0 < i <= |line| ==> Hits(pattern, s)[i].None?
  {
    var s := line + "\n" + rest;
    var d := |line| + 1;
    assert s[d..] == rest;
    forall k | 0 <= k <= |rest|
      ensures Hits(pattern, s)[d + k] == Hits(pattern, rest)[k]
    {
      HitShift(pattern, s, rest, d, k);
    }
    assert Hits(pattern, s)[d..] == Hits(pattern, rest);
    forall i | 0 < i <= |line|
      ensures Hits(pattern, s)[i].None?
    {
      assert !LineStart(s, i) by {
        assert s[i - 1] == line[i - 1];
      }
    }
  }

  /** When the pattern does not match at the start of the text and the first line ends in a
      line feed, exec finds what it finds in the text after that line feed. */
  lemma ExecNextLine(pattern: Pattern, line: string, rest: string)
    requires '\n' !in line && MatchHere(pattern, line + "\n" + rest).None?
    ensures Exec(pattern, line + "\n" + rest) == Exec(pattern, rest)
  {
    var s := line + "\n" + rest;
    HitsAfterLine(pattern, line, rest);
    assert s[0..] == s;
    FirstValueShift(Hits(pattern, s), |line| + 1);
  }

  /** A present schema is a whole line of the text, made of spaces, '#' and the rest of the
      line, so it has no line feed; it is the first line of that shape, and it is absent
      exactly when no line has that shape. */
  lemma SchemaExec(s: string)
    ensures Exec(SchemaPattern, s).Some? <==>
            exists p :: 0 <= p <= |s| && LineStart(s, p) && SchemaShaped(HeadLine(s[p..]))
    ensures var r := Exec(SchemaPattern, s);
            r.Some? ==> && '\n' !in r.value && SchemaShaped(r.value)
                        && exists p :: && 0 <= p <= |s| && LineStart(s, p) && r.value == HeadLine(s[p..])
                                       && forall q :: 0 <= q < p && LineStart(s, q) ==>
                                                        !SchemaShaped(HeadLine(s[q..]))
  {
    if Exec(SchemaPattern, s).Some? {
      var p := ExecFirst(SchemaPattern, s);
      SchemaHereSpec(s[p..]);
      HeadLineHasNoFeed(s[p..]);
      forall q | 0 <= q < p && LineStart(s, q)
        ensures !SchemaShaped(HeadLine(s[q..]))
      {
        SchemaHereSpec(s[q..]);
      }
    }
    if p :| 0 <= p <= |s| && LineStart(s, p) && SchemaShaped(HeadLine(s[p..])) {
      SchemaHereSpec(s[p..]);
      ExecFinds(SchemaPattern, s, p);
    }
  }

  /** A present name is a non-empty run of the text without '#' that starts a line and is
      followed by a colon and then only spaces up to the end of a line; lines may run through
      it. It is the shortest such run at its line start, and no earlier line start has one. It
      is absent exactly when no line start has one. */
  lemma NameExec(s: string)
    ensures var r := Exec(NamePattern, s);
            r.Some? ==> exists p :: && 0 <= p <= |s| && LineStart(s, p) && 0 < |r.value| < |s| - p
                                   && s[p..p + |r.value|] == r.value && '#' !in r.value
                                   && ColonTail(s[p..], |r.value|)
                                   && (forall f :: 0 < f < |r.value| ==> !ColonTail(s[p..], f))
                                   && forall q :: 0 <= q < p && LineStart(s, q) ==> NoNameAt(s, q)
    ensures Exec(NamePattern, s).None? <==>
            forall p :: 0 <= p <= |s| && LineStart(s, p) ==> NoNameAt(s, p)
  {
    if Exec(NamePattern, s).Some? {
      var p := ExecFirst(NamePattern, s);
      NameFoundAt(s, p, Exec(NamePattern, s).value);
      NoNameBefore(s, p);
    }
    NameAbsent(s);
  }

  /** Before the line start where the name pattern first matches, no line start has a name. */
  lemma NoNameBefore(s: string, p: nat)
    requires p <= |s| + 1
    requires forall q :: 0 <= q < p && LineStart(s, q) ==> MatchHere(NamePattern, s[q..]).None?
    ensures forall q :: 0 <= q < p && LineStart(s, q) ==> NoNameAt(s, q)
  {
    forall q | 0 <= q < p && LineStart(s, q)
      ensures NoNameAt(s, q)
    {
      NoNameHere(s, q);
    }
  }

  /** The name is absent exactly when no line start has a name. */
  lemma NameAbsent(s: string)
    ensures Exec(NamePattern, s).None? <==>
            forall p :: 0 <= p <= |s| && LineStart(s, p) ==> NoNameAt(s, p)
  {
    if Exec(NamePattern, s).Some? {
      var p := ExecFirst(NamePattern, s);
      NameFoundAt(s, p, Exec(NamePattern, s).value);
    } else {
      ExecLeftmost(NamePattern, s);
      NoNameBefore(s, |s| + 1);
    }
  }

  /** The name found at position p, read in the whole text. */
  lemma NameFoundAt(s: string, p: nat, v: string)
    requires p <= |s| && NameHere(s[p..]) == Some(v)
    ensures 0 < |v| < |s| - p && s[p..p + |v|] == v && '#' !in v && ColonTail(s[p..], |v|)
    ensures forall f :: 0 < f < |v| ==> !ColonTail(s[p..], f)
  {
    NameHereSpec(s[p..]);
    assert s[p..][..|v|] == s[p..p + |v|];
  }

  /** Where the name pattern does not match, no '#'-free run is followed by a colon tail. */
  lemma NoNameHere(s: string, p: nat)
    requires p <= |s| && NameHere(s[p..]).None?
    ensures NoNameAt(s, p)
  {
    NameHereSpec(s[p..]);
  }

  /** No non-empty '#'-free run from position p of s is followed by a colon tail. */
  predicate NoNameAt(s: string, p: nat)
    requires p <= |s|
  {
    forall f :: 0 < f < |s| - p && '#' !in s[p..][..f] ==> !ColonTail(s[p..], f)
  }

  /** A coloured name is found exactly when some line starts with one or more spaces and the
      key. */
  lemma ColouredNameFound(s: string)
    ensures Exec(ColouredNamePattern, s).Some? <==>
            exists p :: 0 <= p <= |s| && LineStart(s, p) && KeyPrefix(HeadLine(s[p..]), ColouredNameKey)
  {
    if Exec(ColouredNamePattern, s).Some? {
      var p := ExecFirst(ColouredNamePattern, s);
      ColouredNameHereSpec(s[p..]);
    }
    if p :| 0 <= p <= |s| && LineStart(s, p) && KeyPrefix(HeadLine(s[p..]), ColouredNameKey) {
      ColouredNameHereSpec(s[p..]);
      ExecFinds(ColouredNamePattern, s, p);
    }
  }

  /** A present coloured name is what follows the key and its spaces on the first line of the
      text that starts with one or more spaces and the key: it ends at that line's end, has
      no line feed and does not start with a space. */
  lemma ColouredNameExec(s: string)
    requires Exec(ColouredNamePattern, s).Some?
    ensures var v := Exec(ColouredNamePattern, s).value;
            '\n' !in v && (|v| == 0 || v[0] != ' ')
    ensures exists p :: && 0 <= p <= |s| && LineStart(s, p)
                        && LineValue(HeadLine(s[p..]), Exec(ColouredNamePattern, s).value, ColouredNameKey)
                        && forall q :: 0 <= q < p && LineStart(s, q) ==>
                                         !KeyPrefix(HeadLine(s[q..]), ColouredNameKey)
  {
    var p := ExecFirst(ColouredNamePattern, s);
    ColouredNameHereSpec(s[p..]);
    forall q | 0 <= q < p && LineStart(s, q)
      ensures !KeyPrefix(HeadLine(s[q..]), ColouredNameKey)
    {
      ColouredNameHereSpec(s[q..]);
    }
  }

  /** A skills block is found exactly when some line is one or more spaces, the key and
      spaces only, and a line feed ends it. */
  lemma SkillsFound(s: string)
    ensures Exec(SkillsPattern, s).Some? <==>
            exists p :: 0 <= p <= |s| && LineStart(s, p) && SkillsLine(s[p..])
  {
    if Exec(SkillsPattern, s).Some? {
      var p := ExecFirst(SkillsPattern, s);
      SkillsHereSpec(s[p..]);
    }
    if p :| 0 <= p <= |s| && LineStart(s, p) && SkillsLine(s[p..]) {
      SkillsHereSpec(s[p..]);
      ExecFinds(SkillsPattern, s, p);
    }
  }

  /** A present skills block is all of the text after the line feed that ends the first line
      of one or more spaces, the key and spaces only; so it is a suffix of the text right after
      a line feed. */
  lemma SkillsExec(s: string)
    requires Exec(SkillsPattern, s).Some?
    ensures exists p :: && 0 <= p <= |s| && LineStart(s, p) && SkillsLine(s[p..])
                        && Exec(SkillsPattern, s).value == AfterHeadLine(s[p..])
                        && forall q :: 0 <= q < p && LineStart(s, q) ==> !SkillsLine(s[q..])
    ensures var v := Exec(SkillsPattern, s).value;
            |v| < |s| && s[|s| - |v|..] == v && s[|s| - |v| - 1] == '\n'
  {
    var p := ExecFirst(SkillsPattern, s);
    SkillsHereSpec(s[p..]);
    SkillsSuffix(s, p);
    forall q | 0 <= q < p && LineStart(s, q)
      ensures !SkillsLine(s[q..])
    {
      SkillsHereSpec(s[q..]);
    }
  }

  /** The skills value found at line start p, read in the whole text. */
  lemma SkillsSuffix(s: string, p: nat)
    requires p <= |s| && SkillsHere(s[p..]).Some?
    ensures var v, e := SkillsHere(s[p..]).value, LineEnd(s[p..], 0);
            && p + e < |s| && v == s[p + e + 1..] && s[p + e] == '\n'
            && |v| < |s| && s[|s| - |v|..] == v && s[|s| - |v| - 1] == '\n'
  {
    var u := s[p..];
    SkillsHereSpec(u);
    var e := LineEnd(u, 0);
    assert u[e + 1..] == s[p + e + 1..];
    assert s[p + e] == u[e];
  }

  /** The skills block read from a file does not end in white space: the text was trimmed. */
  lemma SkillsTrimmed(text: string)
    requires ParseHero(text).skills.Some?
    ensures var v := ParseHero(text).skills.value; |v| == 0 || !IsWhiteSpace(v[|v| - 1])
  {
    SkillsExec(TrimEnd(text));
  }

  /** Each field is found in the text trimmed at its end, so white space added at the end of a
      file changes nothing. */
  lemma ParseHeroTrailing(text: string, ws: string)
    requires forall i :: 0 <= i < |ws| ==> IsWhiteSpace(ws[i])
    ensures ParseHero(text + ws) == ParseHero(text)
  {
    TrimEndTrailing(text, ws);
  }
}
