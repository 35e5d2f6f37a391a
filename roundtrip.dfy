/** A generated hero file read back by the field extraction: combineHero writes the first
    hero's schema line, the combined name as a key line and the coloured name, description
    and skills under it, and the four patterns of parseFile find exactly those again, provided
    the parts keep to the shapes the patterns look for. */
module RoundTrip {
  import opened Heroes
  import opened Synthesis
  import opened Parser

  // ---------------------------------------------------------------------------------------
  // The generated text, line by line

  /** The skills key line and the skills text under it. */
  function SkillsSection(t: string): string {
    "  skills: " + "\n" + t
  }

  /** The description line and the lines after it. */
  function DescriptionSection(d: string, last: string): string {
    ("  description: " + d) + "\n" + last
  }

  /** The coloured name line and the lines after it. */
  function ColouredSection(c: string, d: string, last: string): string {
    ("  colouredName: " + c) + "\n" + DescriptionSection(d, last)
  }

  /** The key line with the name and the lines after it. */
  function NameSection(n: string, c: string, d: string, last: string): string {
    (n + ": ") + "\n" + ColouredSection(c, d, last)
  }

  /** A text of the generated shape: the header line, the name, coloured name and description
      lines, and then last. */
  function Sections(h: string, n: string, c: string, d: string, last: string): string {
    h + "\n" + NameSection(n, c, d, last)
  }

  /** The layout of a generated file read line by line, the skills section last. */
  lemma LayoutSections(h: string, n: string, c: string, d: string, t: string)
    ensures Layout(h, n, c, d, t) == Sections(h, n, c, d, SkillsSection(t))
  {
    LayoutLiterals();
  }

  /** The fixed texts of the layout cut at their line feeds. */
  lemma LayoutLiterals()
    ensures ": \n  colouredName: " == ": " + "\n" + "  colouredName: "
    ensures "\n  description: " == "\n" + "  description: "
    ensures "\n  skills: \n" == "\n" + "  skills: " + "\n"
  {
  }

  /** The skills text is the end of the layout. */
  lemma LayoutEnd(h: string, n: string, c: string, d: string, t: string)
    ensures Layout(h, n, c, d, t) == Layout(h, n, c, d, "") + t
  {
  }

  // ---------------------------------------------------------------------------------------
  // What each pattern finds at the start of one line

  /** The first line of line + "\n" + rest is line. */
  lemma HeadLineOf(line: string, rest: string)
    requires '\n' !in line
    ensures HeadLine(line + "\n" + rest) == line
  {
    var u := line + "\n" + rest;
    LineEndSkip(u, 0, |line|);
    assert u[..|line|] == line;
  }

  /** A line of spaces and then '#' is no name: the lazy run meets the '#' before any colon. */
  lemma NoNameAtSchema(u: string)
    requires SchemaShaped(HeadLine(u))
    ensures NameHere(u).None?
  {
    var line := HeadLine(u);
    var j :| 0 <= j < |line| && Spaces(line[..j]) && line[j] == '#';
    assert forall i :: 0 <= i <= j ==> u[i] == line[i];
    assert forall i :: 0 <= i < j ==> line[..j][i] == ' ';
    NameHereSpec(u);
  }

  /** key cannot start where the spaces of a schema line end, unless it starts with '#'. */
  lemma NoKeyAtSchema(u: string, key: string)
    requires SchemaShaped(HeadLine(u)) && |key| > 0 && key[0] != '#'
    ensures !KeyAt(u, key, SpacesEnd(u, 0))
  {
    var line := HeadLine(u);
    var j :| 0 <= j < |line| && Spaces(line[..j]) && line[j] == '#';
    assert forall i :: 0 <= i <= j ==> u[i] == line[i];
    assert forall i :: 0 <= i < j ==> line[..j][i] == ' ';
    SpacesEndAt(u, 0, j);
  }

  /** A line that starts with something other than a space starts with no key pattern. */
  lemma NoKeyAtStart(u: string, key: string)
    requires |u| > 0 && u[0] != ' '
    ensures !KeyAt(u, key, SpacesEnd(u, 0))
  {
  }

  /** key cannot start at q, where the spaces of the first line end, when u has another
      character there. */
  lemma KeyMismatch(u: string, key: string, q: nat)
    requires q == SpacesEnd(u, 0) < |u| && |key| > 0 && u[q] != key[0]
    ensures !KeyAt(u, key, q)
  {
  }

  /** The header line is the schema when it is spaces, '#' and anything. */
  lemma SchemaLine(h: string, rest: string)
    requires SchemaShaped(h) && '\n' !in h
    ensures SchemaHere(h + "\n" + rest) == Some(h)
  {
    HeadLineOf(h, rest);
    SchemaHereSpec(h + "\n" + rest);
  }

  /** A name followed by ": " and a line feed is found whole, when it holds no '#' and no
      colon: the lazy run can stop at no earlier colon. */
  lemma NameLine(n: string, rest: string)
    requires |n| > 0 && '#' !in n && ':' !in n
    ensures NameHere((n + ": ") + "\n" + rest) == Some(n)
  {
    var u := (n + ": ") + "\n" + rest;
    var e := |n|;
    assert u[..e] == n;
    assert LineEnd(u, e + 1) == e + 2 by {
      assert u[e + 1] == ' ' && u[e + 2] == '\n';
    }
    assert ColonTail(u, e) by {
      assert u[e + 1..e + 2] == [' '];
    }
    assert forall f :: 0 < f < e ==> !ColonTail(u, f) by {
      assert forall f :: 0 < f < e ==> u[f] == n[f];
    }
    NameHereSpec(u);
    if NameHere(u).Some? {
      var v := NameHere(u).value;
      assert |v| == e;
    }
  }

  /** The coloured name line gives its text after the key, without the spaces it starts
      with. */
  lemma ColouredLine(c: string, rest: string)
    requires '\n' !in c
    ensures ColouredNameHere(("  colouredName: " + c) + "\n" + rest) == Some(c[SpacesEnd(c, 0)..])
  {
    ColouredLineShape(c, rest);
    ColouredAt(("  colouredName: " + c) + "\n" + rest, c);
  }

  /** The coloured name line character by character. */
  lemma ColouredLineShape(c: string, rest: string)
    ensures var u := ("  colouredName: " + c) + "\n" + rest;
            && 16 + |c| < |u| && u[0] == ' ' && u[1] == ' ' && u[2..15] == ColouredNameKey
            && u[15] == ' ' && u[16..16 + |c|] == c && u[16 + |c|] == '\n'
  {
  }

  /** u starts with two spaces, the coloured name key, a space, c and a line feed. */
  lemma ColouredAt(u: string, c: string)
    requires '\n' !in c && 16 + |c| < |u|
    requires u[0] == ' ' && u[1] == ' ' && u[2..15] == ColouredNameKey && u[15] == ' '
    requires u[16..16 + |c|] == c && u[16 + |c|] == '\n'
    ensures ColouredNameHere(u) == Some(c[SpacesEnd(c, 0)..])
  {
    KeyAfterTwoSpaces(u, ColouredNameKey);
    ValueAfterSpace(u, c, 15, 16 + |c|);
  }

  /** A space at p, then c and a line feed: the spaces from p run on to where those at the
      start of c end, and the rest of the line is the rest of c. */
  lemma ValueAfterSpace(u: string, c: string, p: nat, e: nat)
    requires '\n' !in c && e == p + 1 + |c| < |u|
    requires u[p] == ' ' && u[p + 1..e] == c && u[e] == '\n'
    ensures var k := SpacesEnd(c, 0);
            SpacesEnd(u, p) == p + 1 + k && LineEnd(u, p + 1 + k) == e && u[p + 1 + k..e] == c[k..]
  {
    var k := SpacesEnd(c, 0);
    SpacesInto(u, p, c);
    assert forall i :: p + 1 + k <= i < e ==> u[i] == c[i - (p + 1)];
    LineUpTo(u, p + 1 + k, e);
    SliceAfter(u, p + 1, e, k);
  }

  /** After two spaces the key starts where the spaces end. */
  lemma KeyAfterTwoSpaces(u: string, key: string)
    requires |key| > 0 && key[0] != ' ' && 2 + |key| <= |u|
    requires u[0] == ' ' && u[1] == ' ' && u[2..2 + |key|] == key
    ensures SpacesEnd(u, 0) == 2 && KeyAt(u, key, 2)
  {
    assert u[2] == key[0];
    SpacesEndAt(u, 0, 2);
  }

  /** A space at p and then c, followed by a line feed: the spaces from p run on to where those
      at the start of c end. */
  lemma SpacesInto(u: string, p: nat, c: string)
    requires p + 1 + |c| < |u| && u[p] == ' ' && u[p + 1..p + 1 + |c|] == c
    requires u[p + 1 + |c|] == '\n'
    ensures SpacesEnd(u, p) == p + 1 + SpacesEnd(c, 0)
  {
    var k := SpacesEnd(c, 0);
    assert forall i :: 0 <= i < |c| ==> u[p + 1 + i] == c[i];
    SpacesEndAt(u, p, p + 1 + k);
  }

  /** The line from b ends at the line feed at e when there is none before it. */
  lemma LineUpTo(u: string, b: nat, e: nat)
    requires b <= e < |u| && u[e] == '\n' && forall i :: b <= i < e ==> u[i] != '\n'
    ensures LineEnd(u, b) == e
  {
    LineEndSkip(u, b, e);
  }

  /** The skills key line gives all of the text after it. */
  lemma SkillsKeyLine(t: string)
    ensures SkillsHere("  skills: " + "\n" + t) == Some(t)
  {
    var u := "  skills: " + "\n" + t;
    assert u[2] != ' ';
    SpacesEndAt(u, 0, 2);
    assert u[2..9] == SkillsKey;
    SpacesEndAt(u, 9, 10);
    assert u[11..] == t;
  }

  /** Dropping k more characters from a slice. */
  lemma SliceAfter(u: string, a: nat, e: nat, k: nat)
    requires a + k <= e <= |u|
    ensures u[a + k..e] == u[a..e][k..]
  {
  }

  // ---------------------------------------------------------------------------------------
  // Lines a pattern passes over

  /** The patterns other than the schema pattern do not match at a schema line. */
  lemma HeaderLinePassed(h: string, rest: string)
    requires SchemaShaped(h) && '\n' !in h
    ensures var u := h + "\n" + rest;
            && MatchHere(NamePattern, u).None? && MatchHere(ColouredNamePattern, u).None?
            && MatchHere(SkillsPattern, u).None?
  {
    var u := h + "\n" + rest;
    HeadLineOf(h, rest);
    NoNameAtSchema(u);
    NoKeyAtSchema(u, ColouredNameKey);
    NoKeyAtSchema(u, SkillsKey);
  }

  /** The key patterns do not match at a line that starts with no space. */
  lemma NameLinePassed(n: string, rest: string)
    requires |n| > 0 && n[0] != ' '
    ensures var u := (n + ": ") + "\n" + rest;
            MatchHere(ColouredNamePattern, u).None? && MatchHere(SkillsPattern, u).None?
  {
    var u := (n + ": ") + "\n" + rest;
    assert u[0] == n[0];
    NoKeyAtStart(u, ColouredNameKey);
    NoKeyAtStart(u, SkillsKey);
  }

  /** The skills pattern does not match at the coloured name line. */
  lemma ColouredLinePassed(c: string, rest: string)
    ensures MatchHere(SkillsPattern, ("  colouredName: " + c) + "\n" + rest).None?
  {
    var u := ("  colouredName: " + c) + "\n" + rest;
    ColouredLineShape(c, rest);
    KeyAfterTwoSpaces(u, ColouredNameKey);
    KeyMismatch(u, SkillsKey, 2);
  }

  /** The skills pattern does not match at the description line. */
  lemma DescriptionLinePassed(d: string, rest: string)
    ensures MatchHere(SkillsPattern, ("  description: " + d) + "\n" + rest).None?
  {
    var u := ("  description: " + d) + "\n" + rest;
    assert u[0] == ' ' && u[1] == ' ' && u[2] == 'd';
    SpacesEndAt(u, 0, 2);
    KeyMismatch(u, SkillsKey, 2);
  }

  // ---------------------------------------------------------------------------------------
  // The four fields of a generated text

  /** The schema is the header line. */
  lemma SchemaOfSections(h: string, n: string, c: string, d: string, last: string)
    requires SchemaShaped(h) && '\n' !in h
    ensures Exec(SchemaPattern, Sections(h, n, c, d, last)) == Some(h)
  {
    SchemaLine(h, NameSection(n, c, d, last));
    ExecAtStart(SchemaPattern, Sections(h, n, c, d, last));
  }

  /** The name is the text before the colon of the second line. */
  lemma NameOfSections(h: string, n: string, c: string, d: string, last: string)
    requires SchemaShaped(h) && '\n' !in h
    requires |n| > 0 && '#' !in n && ':' !in n
    ensures Exec(NamePattern, Sections(h, n, c, d, last)) == Some(n)
  {
    var rest := NameSection(n, c, d, last);
    HeaderLinePassed(h, rest);
    ExecNextLine(NamePattern, h, rest);
    NameLine(n, ColouredSection(c, d, last));
    ExecAtStart(NamePattern, rest);
  }

  /** The coloured name is the third line after its key and the spaces that follow it. */
  lemma ColouredNameOfSections(h: string, n: string, c: string, d: string, last: string)
    requires SchemaShaped(h) && '\n' !in h
    requires |n| > 0 && n[0] != ' ' && '\n' !in n && '\n' !in c
    ensures Exec(ColouredNamePattern, Sections(h, n, c, d, last)) == Some(c[SpacesEnd(c, 0)..])
  {
    assert '\n' !in n + ": ";
    var rest := NameSection(n, c, d, last);
    var rest' := ColouredSection(c, d, last);
    HeaderLinePassed(h, rest);
    ExecNextLine(ColouredNamePattern, h, rest);
    NameLinePassed(n, rest');
    ExecNextLine(ColouredNamePattern, n + ": ", rest');
    ColouredLine(c, DescriptionSection(d, last));
    ExecAtStart(ColouredNamePattern, rest');
  }

  /** The skills pattern passes over the first four lines: it finds in the text what it
      finds in the lines after the description. */
  lemma SkillsOfSections(h: string, n: string, c: string, d: string, last: string)
    requires SchemaShaped(h) && '\n' !in h
    requires |n| > 0 && n[0] != ' ' && '\n' !in n && '\n' !in c && '\n' !in d
    ensures Exec(SkillsPattern, Sections(h, n, c, d, last)) == Exec(SkillsPattern, last)
  {
    assert '\n' !in n + ": ";
    assert '\n' !in "  colouredName: " + c;
    assert '\n' !in "  description: " + d;
    var s2 := NameSection(n, c, d, last);
    var s3 := ColouredSection(c, d, last);
    var s4 := DescriptionSection(d, last);
    HeaderLinePassed(h, s2);
    ExecNextLine(SkillsPattern, h, s2);
    NameLinePassed(n, s3);
    ExecNextLine(SkillsPattern, n + ": ", s3);
    ColouredLinePassed(c, s4);
    ExecNextLine(SkillsPattern, "  colouredName: " + c, s4);
    DescriptionLinePassed(d, last);
    ExecNextLine(SkillsPattern, "  description: " + d, last);
  }

  /** The skills section gives all of the text after its key line. */
  lemma SkillsOfSection(t: string)
    ensures Exec(SkillsPattern, SkillsSection(t)) == Some(t)
  {
    SkillsKeyLine(t);
    ExecAtStart(SkillsPattern, SkillsSection(t));
  }

  // ---------------------------------------------------------------------------------------
  // A generated file read back

  /** The heroes' parts keep to the shapes the patterns look for: the first hero has a schema
      line, the names hold no '#', colon or line feed and the first one is not empty and
      starts with no space, and the coloured names hold no line feed. */
  predicate ReadableParts(heroes: seq<Hero>) {
    && |heroes| > 0
    && heroes[0].schema.Some? && SchemaShaped(heroes[0].schema.value)
    && '\n' !in heroes[0].schema.value
    && |JoinText(heroes[0].name)| > 0 && JoinText(heroes[0].name)[0] != ' '
    && (forall i :: 0 <= i < |heroes| ==>
          var n := JoinText(heroes[i].name); '#' !in n && ':' !in n && '\n' !in n)
    && (forall i :: 0 <= i < |heroes| ==> '\n' !in JoinText(heroes[i].colouredName))
  }

  /** The file of a combination read back by parseFile: the schema of the first hero, the
      combined name, the coloured names joined by " + " (the spaces it may start with dropped)
      and the joined skills trimmed at their end, as long as those skills are not blank. */
  lemma CombinedFileParses(heroes: seq<Hero>)
    requires ReadableParts(heroes)
    requires |TrimEnd(Join(SkillBlocks(heroes), "\n"))| > 0
    ensures var c := Join(ColouredNames(heroes), " + ");
            ParseHero(CombineHero(heroes).content) ==
            Hero(heroes[0].schema, Some(CombinedName(heroes)), Some(c[SpacesEnd(c, 0)..]),
                 Some(TrimEnd(Join(SkillBlocks(heroes), "\n"))))
  {
    var h := heroes[0].schema.value;
    var n := CombinedName(heroes);
    var c := Join(ColouredNames(heroes), " + ");
    var d := Description(heroes);
    var skills := Join(SkillBlocks(heroes), "\n");
    var t := TrimEnd(skills);
    CombinedParts(heroes);
    TrimmedLayout(h, n, c, d, skills);
    SchemaOfSections(h, n, c, d, SkillsSection(t));
    NameOfSections(h, n, c, d, SkillsSection(t));
    ColouredNameOfSections(h, n, c, d, SkillsSection(t));
    SkillsOfSections(h, n, c, d, SkillsSection(t));
    SkillsOfSection(t);
  }

  /** The combined name, coloured name and description keep to the shapes of their lines. */
  lemma CombinedParts(heroes: seq<Hero>)
    requires ReadableParts(heroes)
    ensures var n := CombinedName(heroes);
            && |n| > 0 && n[0] != ' ' && '#' !in n && ':' !in n && '\n' !in n
    ensures '\n' !in Join(ColouredNames(heroes), " + ") && '\n' !in Description(heroes)
  {
    var names := Names(heroes);
    JoinHead(names, "And");
    assert CombinedName(heroes)[0] == names[0][0];
    JoinAvoids(names, "And", '#');
    JoinAvoids(names, "And", ':');
    JoinAvoids(names, "And", '\n');
    JoinAvoids(ColouredNames(heroes), " + ", '\n');
    forall i | 0 <= i < |heroes|
      ensures '\n' !in TemplateText(heroes[i].colouredName)
    {
    }
    DescriptionOneLine(heroes);
  }

  /** A generated text trimmed at its end: the skills lose their trailing white space, the
      last line feed included, and the rest of the layout is unchanged. */
  lemma TrimmedLayout(h: string, n: string, c: string, d: string, skills: string)
    requires |TrimEnd(skills)| > 0
    ensures TrimEnd(Layout(h, n, c, d, skills + "\n")) == Sections(h, n, c, d, SkillsSection(TrimEnd(skills)))
  {
    var t := TrimEnd(skills);
    TrimEndTrailing(skills, "\n");
    LayoutEnd(h, n, c, d, skills + "\n");
    TrimEndAppend(Layout(h, n, c, d, ""), skills + "\n");
    LayoutEnd(h, n, c, d, t);
    LayoutSections(h, n, c, d, t);
  }

  /** When every skills block is blank the trimmed file ends at the colon of the skills key
      line, which no line feed follows, so the skills pattern finds nothing: the file is read
      back without skills. */
  lemma BlankSkillsDropped(heroes: seq<Hero>)
    requires ReadableParts(heroes)
    requires |TrimEnd(Join(SkillBlocks(heroes), "\n"))| == 0
    ensures var c := Join(ColouredNames(heroes), " + ");
            ParseHero(CombineHero(heroes).content) ==
            Hero(heroes[0].schema, Some(CombinedName(heroes)), Some(c[SpacesEnd(c, 0)..]), None)
  {
    var h := heroes[0].schema.value;
    var n := CombinedName(heroes);
    var c := Join(ColouredNames(heroes), " + ");
    var d := Description(heroes);
    var last := "  skills:";
    CombinedParts(heroes);
    TrimmedBlankLayout(h, n, c, d, Join(SkillBlocks(heroes), "\n"));
    SchemaOfSections(h, n, c, d, last);
    NameOfSections(h, n, c, d, last);
    ColouredNameOfSections(h, n, c, d, last);
    SkillsOfSections(h, n, c, d, last);
    SkillsKeyAtEnd();
  }

  /** A skills key line that ends the text is no skills line. */
  lemma SkillsKeyAtEnd()
    ensures Exec(SkillsPattern, "  skills:") == None
  {
    var u := "  skills:";
    assert forall p :: 0 <= p <= |u| && LineStart(u, p) ==> p == 0;
    SpacesEndAt(u, 0, 2);
    SpacesEndAt(u, 9, 9);
    ExecLeftmost(SkillsPattern, u);
  }

  /** A generated text with blank skills trimmed at its end: what is left ends with the colon
      of the skills key. */
  lemma TrimmedBlankLayout(h: string, n: string, c: string, d: string, skills: string)
    requires |TrimEnd(skills)| == 0
    ensures TrimEnd(Layout(h, n, c, d, skills + "\n")) == Sections(h, n, c, d, "  skills:")
  {
    var ws := skills + "\n";
    assert forall i :: 0 <= i < |ws| ==> IsWhiteSpace(ws[i]);
    LayoutEnd(h, n, c, d, ws);
    TrimEndTrailing(Layout(h, n, c, d, ""), ws);
    LayoutSections(h, n, c, d, "");
    SectionsEnd(h, n, c, d, SkillsSection(""));
    SectionsEnd(h, n, c, d, "  skills:");
    TrimmedKeyLine(Sections(h, n, c, d, ""));
  }

  /** An empty skills section trimmed at its end leaves the key and its colon. */
  lemma TrimmedKeyLine(base: string)
    ensures TrimEnd(base + SkillsSection("")) == base + "  skills:"
  {
    var s := base + "  skills:";
    EmptySkillsSection();
    assert base + SkillsSection("") == s + " \n";
    TrimEndTrailing(s, " \n");
    assert s[|s| - 1] == ':';
    TrimEndUnique(s, s);
  }

  /** An empty skills section is the key, its colon, a space and a line feed. */
  lemma EmptySkillsSection()
    ensures SkillsSection("") == "  skills:" + " \n"
  {
  }

  /** The lines after the description end a text of the generated shape. */
  lemma SectionsEnd(h: string, n: string, c: string, d: string, last: string)
    ensures Sections(h, n, c, d, last) == Sections(h, n, c, d, "") + last
  {
  }
}
