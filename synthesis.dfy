/** Building the hero file of one combination (combineHero and createCombinedHeroDescription
    in index.js): the heroes' fields are joined into one descriptor whose name, coloured name
    and skills concatenate those of the heroes, in the order of the combination. */
module Synthesis {
  import opened Heroes

  /** A generated file: its file name and its text. */
  datatype HeroFile = HeroFile(name: string, content: string)

  /** Array.prototype.join over strings: the parts with sep between each two neighbours. */
  function Join(parts: seq<string>, sep: string): string
    decreases |parts|
  {
    if |parts| == 0 then ""
    else if |parts| == 1 then parts[0]
    else parts[0] + sep + Join(parts[1..], sep)
  }

  /** Joining one more part at the end adds the separator and that part. */
  lemma {:induction false} JoinSnoc(parts: seq<string>, x: string, sep: string)
    requires |parts| > 0
    ensures Join(parts + [x], sep) == Join(parts, sep) + sep + x
    decreases |parts|
  {
    if |parts| > 1 {
      JoinSnoc(parts[1..], x, sep);
      assert (parts + [x])[1..] == parts[1..] + [x];
    }
  }

  /** A character that is in no part and not in the separator is not in the joined text. */
  lemma {:induction false} JoinAvoids(parts: seq<string>, sep: string, c: char)
    requires c !in sep && forall i :: 0 <= i < |parts| ==> c !in parts[i]
    ensures c !in Join(parts, sep)
    decreases |parts|
  {
    if |parts| > 1 {
      JoinAvoids(parts[1..], sep, c);
    }
  }

  /** The joined text starts with the first part. */
  lemma JoinHead(parts: seq<string>, sep: string)
    requires |parts| > 0
    ensures |parts[0]| <= |Join(parts, sep)| && Join(parts, sep)[..|parts[0]|] == parts[0]
  {
  }

  /** Each hero's name as Array.prototype.join renders it. */
  function Names(heroes: seq<Hero>): (r: seq<string>)
    ensures |r| == |heroes|
  {
    seq(|heroes|, i requires 0 <= i < |heroes| => JoinText(heroes[i].name))
  }

  /** Each hero's coloured name as Array.prototype.join renders it. */
  function ColouredNames(heroes: seq<Hero>): (r: seq<string>)
    ensures |r| == |heroes|
  {
    seq(|heroes|, i requires 0 <= i < |heroes| => JoinText(heroes[i].colouredName))
  }

  /** Each hero's skills block as Array.prototype.join renders it. */
  function SkillBlocks(heroes: seq<Hero>): (r: seq<string>)
    ensures |r| == |heroes|
  {
    seq(|heroes|, i requires 0 <= i < |heroes| => JoinText(heroes[i].skills))
  }

  /** Each hero's coloured name as string concatenation renders it. */
  function DisplayNames(heroes: seq<Hero>): (r: seq<string>)
    ensures |r| == |heroes|
  {
    seq(|heroes|, i requires 0 <= i < |heroes| => TemplateText(heroes[i].colouredName))
  }

  /** The names joined by "And": the combined hero's name and its file name stem. */
  function CombinedName(heroes: seq<Hero>): string {
    Join(Names(heroes), "And")
  }

  /** Each of names followed by ", ", in order. */
  function Listed(names: seq<string>): string
    decreases |names|
  {
    if |names| == 0 then "" else Listed(names[..|names| - 1]) + names[|names| - 1] + ", "
  }

  /** A character that is in no name and not in ", " is not in the listed names. */
  lemma {:induction false} ListedAvoids(names: seq<string>, c: char)
    requires c !in ", " && forall i :: 0 <= i < |names| ==> c !in names[i]
    ensures c !in Listed(names)
    decreases |names|
  {
    if |names| > 0 {
      ListedAvoids(names[..|names| - 1], c);
    }
  }

  /** The name list of the description: every coloured name but the last one followed by
      ", ", then "and " and the last coloured name. With no heroes at all the last coloured
      name is the missing element at index -1, rendered "undefined". */
  function NameList(heroes: seq<Hero>): string {
    var names := DisplayNames(heroes);
    if |heroes| == 0 then "and undefined"
    else Listed(names[..|heroes| - 1]) + "and " + names[|heroes| - 1]
  }

  /** The generated description. */
  function Description(heroes: seq<Hero>): string {
    "A combination of " + NameList(heroes)
  }

  /** The description stays on one line when no coloured name holds a line feed. */
  lemma DescriptionOneLine(heroes: seq<Hero>)
    requires forall i :: 0 <= i < |heroes| ==> '\n' !in TemplateText(heroes[i].colouredName)
    ensures '\n' !in Description(heroes)
  {
    var names := DisplayNames(heroes);
    if |heroes| > 0 {
      ListedAvoids(names[..|heroes| - 1], '\n');
    }
  }

  /** createCombinedHeroDescription (index.js:151-159): the name list is accumulated in a loop
      over all heroes but the last, then the last one is appended after "and ". */
  method CreateCombinedHeroDescription(heroes: seq<Hero>) returns (description: string)
    ensures description == Description(heroes)
  {
    var colouredNames := seq(|heroes|, i requires 0 <= i < |heroes| => heroes[i].colouredName);
    var nameList := "";
    var i := 0;
    while i < |heroes| - 1
      invariant 0 <= i <= |heroes| && (|heroes| > 0 ==> i <= |heroes| - 1)
      invariant nameList == Listed(DisplayNames(heroes)[..i])
    {
      assert DisplayNames(heroes)[..i + 1][..i] == DisplayNames(heroes)[..i];
      nameList := nameList + TemplateText(colouredNames[i]) + ", ";
      i := i + 1;
    }
    // colouredNames[heroes.length - 1] is undefined when there are no heroes
    var last := if |heroes| == 0 then None else colouredNames[|heroes| - 1];
    nameList := nameList + "and " + TemplateText(last);
    description := "A combination of " + nameList;
  }

  /** The description lists the names with a serial comma: for two or more heroes it is the
      names but the last joined by ", ", then ", and " and the last name; "X, and Y" for two. */
  lemma DescriptionSerialComma(heroes: seq<Hero>)
    requires |heroes| >= 2
    ensures Description(heroes) ==
            "A combination of " + Join(DisplayNames(heroes)[..|heroes| - 1], ", ") + ", and "
            + DisplayNames(heroes)[|heroes| - 1]
  {
    ListedJoin(DisplayNames(heroes)[..|heroes| - 1]);
  }

  /** Listing the names one after another is joining them by ", " and adding a final ", ". */
  lemma {:induction false} ListedJoin(names: seq<string>)
    requires |names| > 0
    ensures Listed(names) == Join(names, ", ") + ", "
    decreases |names|
  {
    var init := names[..|names| - 1];
    if |init| > 0 {
      ListedJoin(init);
      JoinSnoc(init, names[|names| - 1], ", ");
      assert init + [names[|names| - 1]] == names;
    } else {
      assert names == [names[0]];
    }
  }

  /** A single hero gives "A combination of and X": the list before "and " is empty. */
  lemma DescriptionSingle(hero: Hero)
    ensures Description([hero]) == "A combination of and " + TemplateText(hero.colouredName)
  {
    assert DisplayNames([hero])[..0] == [];
  }

  /** The text of a generated file (index.js:143): the header line, the key line with the
      name, then the coloured name, the description and the skills under it. */
  function Layout(header: string, name: string, colouredName: string, description: string,
                  skills: string): string
  {
    header + "\n" + name + ": \n  colouredName: " + colouredName + "\n  description: "
    + description + "\n  skills: \n" + skills
  }

  /** combineHero (index.js:136-146): the names joined by "And" give the file name (with
      ".yml") and the key line; the coloured names are joined by " + ", the skills blocks by
      newlines with one more newline at the end; the header line is the first hero's schema. */
  function CombineHero(heroes: seq<Hero>): HeroFile
    requires |heroes| > 0
  {
    var name := CombinedName(heroes);
    var colouredName := Join(ColouredNames(heroes), " + ");
    var skills := Join(SkillBlocks(heroes), "\n") + "\n";
    HeroFile(name + ".yml",
             Layout(TemplateText(heroes[0].schema), name, colouredName, Description(heroes), skills))
  }

  /** The file for a pair of heroes, field by field: first name "And" second name, the coloured
      names around " + ", "A combination of X, and Y", the two skills blocks on their own lines,
      and only the first hero's schema. */
  lemma CombineHeroPair(a: Hero, b: Hero)
    ensures CombineHero([a, b]).name == JoinText(a.name) + "And" + JoinText(b.name) + ".yml"
    ensures CombineHero([a, b]).content ==
            Layout(TemplateText(a.schema),
                   JoinText(a.name) + "And" + JoinText(b.name),
                   JoinText(a.colouredName) + " + " + JoinText(b.colouredName),
                   "A combination of " + TemplateText(a.colouredName) + ", and "
                   + TemplateText(b.colouredName),
                   JoinText(a.skills) + "\n" + JoinText(b.skills) + "\n")
  {
    var hs := [a, b];
    assert Join(Names(hs)[1..], "And") == JoinText(b.name) by {
      assert Names(hs)[1..] == [JoinText(b.name)];
    }
    assert Join(ColouredNames(hs)[1..], " + ") == JoinText(b.colouredName) by {
      assert ColouredNames(hs)[1..] == [JoinText(b.colouredName)];
    }
    assert Join(SkillBlocks(hs)[1..], "\n") == JoinText(b.skills) by {
      assert SkillBlocks(hs)[1..] == [JoinText(b.skills)];
    }
    DescriptionSerialComma(hs);
    assert DisplayNames(hs)[..1] == [TemplateText(a.colouredName)];
  }

  /** Only the first hero's schema is used: the schemas of the other heroes never reach the
      generated file. */
  lemma CombineHeroFirstSchema(heroes: seq<Hero>, others: seq<Hero>)
    requires |heroes| == |others| > 0 && heroes[0] == others[0]
    requires forall i :: 0 <= i < |heroes| ==>
               heroes[i].name == others[i].name && heroes[i].colouredName == others[i].colouredName
               && heroes[i].skills == others[i].skills
    ensures CombineHero(heroes) == CombineHero(others)
  {
    assert Names(heroes) == Names(others);
    assert ColouredNames(heroes) == ColouredNames(others);
    assert SkillBlocks(heroes) == SkillBlocks(others);
    assert DisplayNames(heroes) == DisplayNames(others);
  }

  /** For two heroes the description is "A combination of X, and Y", the comma kept. */
  lemma DescriptionPair(a: Hero, b: Hero)
    ensures Description([a, b]) ==
            "A combination of " + TemplateText(a.colouredName) + ", and " + TemplateText(b.colouredName)
  {
    var hs := [a, b];
    var x, y := TemplateText(a.colouredName), TemplateText(b.colouredName);
    assert DisplayNames(hs)[..1] == [x];
    assert Listed([x]) == x + ", " by {
      assert [x][..0] == [];
    }
    assert NameList(hs) == x + ", " + "and " + y;
    SerialCommaText(x, y);
  }

  /** The text of the two-name list regrouped. */
  lemma SerialCommaText(x: string, y: string)
    ensures "A combination of " + (x + ", " + "and " + y) == "A combination of " + x + ", and " + y
  {
  }

  /** The example pair Alice and Bob with empty schema and skills. */
  lemma AliceAndBob()
    ensures var alice := Hero(Some(""), Some("Alice"), Some("&7Alice"), Some(""));
            var bob := Hero(Some(""), Some("Bob"), Some("&7Bob"), Some(""));
            && CombineHero([alice, bob]).name == "AliceAndBob.yml"
            && Description([alice, bob]) == "A combination of &7Alice, and &7Bob"
  {
    var alice := Hero(Some(""), Some("Alice"), Some("&7Alice"), Some(""));
    var bob := Hero(Some(""), Some("Bob"), Some("&7Bob"), Some(""));
    CombineHeroPair(alice, bob);
    DescriptionPair(alice, bob);
    assert JoinText(alice.name) == "Alice" && JoinText(bob.name) == "Bob";
    assert TemplateText(alice.colouredName) == "&7Alice" && TemplateText(bob.colouredName) == "&7Bob";
    ExampleTexts();
  }

  /** The example's texts spelled out. */
  lemma ExampleTexts()
    ensures "Alice" + "And" + "Bob" + ".yml" == "AliceAndBob.yml"
    ensures "A combination of " + "&7Alice" + ", and " + "&7Bob" == "A combination of &7Alice, and &7Bob"
  {
  }
}
