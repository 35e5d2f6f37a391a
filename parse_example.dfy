/** A hero file holding only a skills block, "  skills:" and one item under it, parsed field
    by field. The name pattern /^(?<Value>[^#]+?): *$/ms matches the skills key line too, so
    the file gets the name "  skills" besides its skills block. */
module ParseExample {
  import opened Heroes
  import opened Parser

  /** The text has one line feed, so its lines start at 0 and 10. */
  lemma LineStartsOfExample(p: int)
    requires LineStart("  skills:\n  - x", p)
    ensures p == 0 || p == 10
  {
  }

  /** The lazy name run stops before the colon of the key line. */
  lemma ExampleNameEnd()
    ensures NameFrom("  skills:\n  - x", 5) == Some("  skills")
  {
    var s := "  skills:\n  - x";
    assert LineEnd(s, 9) == 9;
    assert ColonTail(s, 8);
    assert NameFrom(s, 8) == Some(s[..8]);
    assert NameFrom(s, 7) == NameFrom(s, 8);
    assert NameFrom(s, 6) == NameFrom(s, 7);
    assert NameFrom(s, 5) == NameFrom(s, 6);
    assert s[..8] == "  skills";
  }

  /** The name pattern matches at the start of the text. */
  lemma ExampleNameScan()
    ensures NameHere("  skills:\n  - x") == Some("  skills")
  {
    var s := "  skills:\n  - x";
    ExampleNameEnd();
    assert NameFrom(s, 4) == NameFrom(s, 5);
    assert NameFrom(s, 3) == NameFrom(s, 4);
    assert NameFrom(s, 2) == NameFrom(s, 3);
    assert NameFrom(s, 1) == NameFrom(s, 2);
  }

  /** The name found is the indented skills key without its colon. */
  lemma ExampleName()
    ensures Exec(NamePattern, "  skills:\n  - x") == Some("  skills")
  {
    var s := "  skills:\n  - x";
    ExampleNameScan();
    ExecAtStart(NamePattern, s);
  }

  /** The skills pattern matches at the start of the text. */
  lemma ExampleSkillsScan()
    ensures SkillsHere("  skills:\n  - x") == Some("  - x")
  {
    var s := "  skills:\n  - x";
    assert SpacesEnd(s, 0) == 2;
    assert s[2..9] == SkillsKey;
    assert SpacesEnd(s, 9) == 9;
    assert s[10..] == "  - x";
  }

  /** The skills block is the second line. */
  lemma ExampleSkills()
    ensures Exec(SkillsPattern, "  skills:\n  - x") == Some("  - x")
  {
    var s := "  skills:\n  - x";
    ExampleSkillsScan();
    ExecAtStart(SkillsPattern, s);
  }

  /** The text at a line start is the whole text or its second line. */
  lemma ExampleLines(p: int)
    requires 0 <= p <= 15 && LineStart("  skills:\n  - x", p)
    ensures "  skills:\n  - x"[p..] == "  skills:\n  - x" || "  skills:\n  - x"[p..] == "  - x"
  {
    LineStartsOfExample(p);
    var s := "  skills:\n  - x";
    if p == 10 {
      assert s[p..] == "  - x";
    }
  }

  /** Neither line is a schema line or a coloured name line. */
  lemma ExampleUnmatched(u: string)
    requires u == "  skills:\n  - x" || u == "  - x"
    ensures SchemaHere(u).None? && ColouredNameHere(u).None?
  {
    assert SpacesEnd(u, 2) == 2;
    assert SpacesEnd(u, 1) == 2;
    assert SpacesEnd(u, 0) == 2;
    if |u| == 15 {
      assert u[2..15][0] != ColouredNameKey[0];
    }
  }

  /** No line starts with spaces and '#'. */
  lemma ExampleNoSchema()
    ensures Exec(SchemaPattern, "  skills:\n  - x").None?
  {
    var s := "  skills:\n  - x";
    forall p | 0 <= p <= |s| && LineStart(s, p)
      ensures MatchHere(SchemaPattern, s[p..]).None?
    {
      ExampleLines(p);
      ExampleUnmatched(s[p..]);
    }
    ExecLeftmost(SchemaPattern, s);
  }

  /** No line starts with spaces and the coloured name key. */
  lemma ExampleNoColouredName()
    ensures Exec(ColouredNamePattern, "  skills:\n  - x").None?
  {
    var s := "  skills:\n  - x";
    forall p | 0 <= p <= |s| && LineStart(s, p)
      ensures MatchHere(ColouredNamePattern, s[p..]).None?
    {
      ExampleLines(p);
      ExampleUnmatched(s[p..]);
    }
    ExecLeftmost(ColouredNamePattern, s);
  }

  /** The parsed hero has a name and a skills block, and no schema or coloured name. */
  lemma SkillsOnlyFile()
    ensures ParseHero("  skills:\n  - x") == Hero(None, Some("  skills"), None, Some("  - x"))
  {
    var s := "  skills:\n  - x";
    TrimEndUnique(s, s);
    ExampleName();
    ExampleSkills();
    ExampleNoSchema();
    ExampleNoColouredName();
  }
}
