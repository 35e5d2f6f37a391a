# SuperheroesCombinator in Dafny

SuperheroesCombinator is a small web tool. It reads several hero descriptor files (YAML-like
text), builds every combination of two or more heroes, and writes one new descriptor per
combination. The new descriptor joins the heroes' names, coloured names and skills. All the
logic is in `index.js`. This project models its three pure parts and proves what they
promise:

- **Combination generator** (`createCombinations`, module `Combinations`). A method runs on
  an `indexes` array with the source's loops: the outer loop over the group size k, the
  `while (true)` walk, and the two `for` loops of the carry/reset step. It is proved equal to
  a declarative specification: the strictly increasing index tuples of each size in
  lexicographic order, sizes ascending, with `combinator` applied to the records at each
  tuple. Lemmas about that specification give the counts, the ordering, the uniqueness,
  the completeness (every increasing tuple is listed) and the first and last tuples.
- **Descriptor synthesis** (`combineHero`, `createCombinedHeroDescription`, module
  `Synthesis`; the hero record, datatype `Heroes.Hero`, is the `Hero` typedef of
  index.js:49-55). Hero fields are `Option<string>`,
  because a field whose pattern did not match is `undefined` in JavaScript. `Array.join`
  renders such a field as the empty string. Template literals and `+` render it as the text
  `undefined`. The description loop is a method proved against a function.
- **Field extraction** (the pure part of `parseFile`, module `Parser`). The text is trimmed
  at its end, then each of the four patterns of `heroRegexes` is run by `exec`, modelled as a
  scan for the leftmost line start where a hand-written matcher succeeds. Each matcher has a
  lemma saying exactly which texts it accepts and what value it captures. Module
  `ParseExample` works through one concrete file.
- **Round trip** (module `RoundTrip`). The file written for a combination is read back by the
  extraction. The schema, the combined name, the coloured name and the trimmed skills come
  out, provided the heroes' fields keep to the shapes the patterns look for.

Where the documented behaviour of the tool and its code differ, the model follows the code:

- A file holding only a `skills:` block does not parse to skills alone. The name pattern
  `[^#]+?` also matches the text before the colon of `  skills:`, so the file gets the name
  `"  skills"` as well (`ParseExample.SkillsOnlyFile`).
- Absent fields are not given one uniform rendering. `Array.join` gives `""` and templates
  give `"undefined"` (`Heroes.JoinText`, `Heroes.TemplateText`). With no heroes at all the
  description ends in `"and undefined"`.
- A group size above the number of records is not clamped. With `combineHero`, the one
  transform the program passes (index.js:17), the first group of size |values| + 1 ends in
  `undefined`, and `combineHero` throws a TypeError at index.js:137, so no archive is made.
  With a transform that accepts `undefined`, the walk reads past `values` and never ends.
  `CreateCombinations` therefore requires `maxCombinations <= |values|`.
  The clamping holds only for the specification function (`Combinations.IndexTuplesSaturate`).
- The name pattern is not confined to one line: `[^#]` matches line feeds, so a name can
  span lines (`Parser.NameExec`).

## Model

| member | source | states |
|---|---|---|
| Combinations.CreateCombinations | index.js:103-131 | when maxCombinations is at most the number of values, the result has one entry per combination, and entry j is `combinator` applied to the j-th combination of the declarative enumeration (sizes 2..max, lexicographic within a size); no combination when max < 2 |
| Combinations.EmitBlock | index.js:106-127 | the walk from indexes k-1..0 until the smallest index reaches n-k emits `combinator` of the records at each tuple of the walk, in order, each reversed back into input order |
| Combinations.Advance | index.js:116-126 | one increment/carry/reset step turns the array, read back to front, into the lexicographic successor of the tuple |
| Combinations.Carry | index.js:116-121 | the increment and carry loop adds one to every position up to the first that had not reached its largest value, and leaves the others unchanged |
| Combinations.Reset | index.js:122-126 | the reset loop, from the high side, sets each position below the carried one to one more than its higher neighbour, so they count up from the carried value; the others stay unchanged |
| Combinations.TuplesWalk | index.js:106-126 | the block of k-tuples starts at 0..k-1, stays in range, has a successor after every tuple but the last, and its last tuple is the only one whose smallest index is n-k |
| Combinations.AdvancedIsNext | index.js:116-126 | the array state left by carry and reset, read back to front, is the successor tuple |
| Combinations.SelectReversed | index.js:109 | reversing the records picked at the reversed indexes gives the records at the indexes in input order |
| Combinations.NextTuple | index.js:116-126 | the successor of a strictly increasing in-range tuple is again strictly increasing and in range, with the same length |
| Combinations.Pivot | index.js:117-121 | the pivot is the rightmost position below its largest value (n minus the length plus j); every position after it is at its largest value |
| Combinations.TuplesCount | index.js:105-127 | the block of k-tuples over [lo, n) has C(n-lo, k) tuples |
| Combinations.TuplesNonEmpty | index.js:112 | a block is non-empty exactly when k = 0 or the window holds k indexes |
| Combinations.TuplesFirst | index.js:106 | a non-empty block starts with lo, lo+1, ..., lo+k-1 |
| Combinations.TuplesLast | index.js:112-114 | a non-empty block ends with n-k, ..., n-1 |
| Combinations.TupleIsLastIff | index.js:112-114 | a tuple of the block starts at n-k exactly when it is the last one, so the break test ends the walk at the right place |
| Combinations.TuplesSuccessor | index.js:116-126 | every tuple but the last has a pivot, and the next tuple is its successor |
| Combinations.TuplesIncreasing | index.js:106-126 | every tuple of a block is strictly increasing |
| Combinations.TuplesSorted | index.js:105-127 | within a block the tuples are in strictly ascending lexicographic order |
| Combinations.LexLessIrreflexive | index.js:105-127 | lexicographic order is irreflexive, so sorted tuples are distinct |
| Combinations.IndexTuplesOrdered | index.js:105-127 | the whole enumeration is grouped by ascending size, lexicographically ascending within a size, and holds no tuple twice |
| Combinations.IndexTuples | index.js:105-127 | every tuple of the enumeration has size 2..max, is strictly increasing and lies in [0, n) |
| Combinations.IndexTuplesCount | index.js:105-127 | the enumeration has C(n,2) + ... + C(n,max) tuples |
| Combinations.IndexTuplesBlockPosition | index.js:105 | the block of size k starts after C(n,2) + ... + C(n,k-1) tuples and holds C(n,k) of them |
| Combinations.IndexTuplesBlock | index.js:105-127 | the i-th tuple of size k sits at that offset in the whole enumeration |
| Combinations.IndexTuplesPrefix | index.js:105 | raising the largest size only appends tuples |
| Combinations.IndexTuplesSaturate | index.js:105 | sizes above n add no tuples to the enumeration itself |
| Combinations.CombinationsCount | index.js:104-130 | there is one combination per index tuple of the enumeration |
| Combinations.CombinationsAreSelections | index.js:106-109 | each combination is the records taken at the strictly increasing indexes of its tuple, so an order-preserving subsequence of the input |
| Combinations.CombinationAt | index.js:109 | the j-th combination is the records at the j-th index tuple |
| Combinations.TuplesComplete | index.js:105-127 | every strictly increasing k-tuple over [lo, n) is in the block, so the walk misses none |
| Combinations.IndexTuplesComplete | index.js:105-127 | every strictly increasing tuple of 2 to max indexes below n is in the enumeration |
| Combinations.CombinationsComplete | index.js:104-130 | the records at any strictly increasing tuple of 2 to max indexes form one of the combinations |
| Combinations.Tuples | index.js:106-127 | no contract; the k-tuples over [lo, n) in order; its properties are in TuplesCount, TuplesSorted, TuplesIncreasing, TuplesComplete and TuplesSuccessor |
| Combinations.Block | index.js:106-110 | no contract; the groups of k records; its properties are in CombinationAt |
| Combinations.AllCombinations | index.js:104-130 | no contract; the groups of every size 2..max; its properties are in CombinationsAreSelections and CombinationsComplete |
| Combinations.Select | index.js:109 | no contract; the records at a tuple's indexes; its properties are in SelectReversed and CombinationsAreSelections |
| Combinations.Reversed | index.js:106-109 | no contract beyond its definition; `Array.prototype.reverse` on a copy; its properties are in SelectReversed and AdvancedIsNext |
| Combinations.Run | index.js:106 | no contract beyond its definition; the len consecutive integers from x; its properties are in TuplesFirst and TuplesWalk |
| Combinations.Last | index.js:112 | no contract beyond its definition; the largest k-tuple; its properties are in TuplesLast and TupleIsLastIff |
| Combinations.ThreeRecords | index.js:103-131 | three records x, y, z give [x,y], [x,z], [y,z] up to size 2, and then [x,y,z] up to size 3 |
| Synthesis.CreateCombinedHeroDescription | index.js:151-159 | the accumulating loop yields `Description(heroes)`: every coloured name but the last followed by ", ", then "and " and the last one, after "A combination of " |
| Synthesis.DescriptionSerialComma | index.js:152-158 | for two or more heroes the description is the names but the last joined by ", ", then ", and " and the last name |
| Synthesis.ListedJoin | index.js:154-156 | the loop's list is the names joined by ", " with one more ", " at the end |
| Synthesis.DescriptionPair | index.js:152-158 | two heroes give "A combination of X, and Y", comma kept |
| Synthesis.DescriptionSingle | index.js:154-157 | one hero gives "A combination of and X" |
| Synthesis.DescriptionOneLine | index.js:151-159 | the description has no line feed when no coloured name has one |
| Synthesis.CombineHeroPair | index.js:136-146 | for two heroes, the file name is the names around "And" plus ".yml", and the content is the first schema, the joined name, the coloured names around " + ", the description and the two skills blocks each followed by a line feed |
| Synthesis.CombineHeroFirstSchema | index.js:144 | only the first hero's schema reaches the file: heroes that differ only in later schemas give the same file |
| Synthesis.AliceAndBob | index.js:136-158 | Alice and Bob give the file name "AliceAndBob.yml" and the description "A combination of &7Alice, and &7Bob" |
| Synthesis.JoinSnoc | index.js:137-140 | joining one more part adds the separator and that part |
| Synthesis.JoinAvoids | index.js:137-140 | a character in no part and not in the separator is not in the joined text |
| Synthesis.JoinHead | index.js:137 | the joined text starts with the first part |
| Synthesis.Join | index.js:137-140 | no contract; `Array.prototype.join`; its properties are in JoinSnoc, JoinAvoids, JoinHead and ListedJoin |
| Synthesis.Names | index.js:137 | one rendered name per hero |
| Synthesis.ColouredNames | index.js:138 | one rendered coloured name per hero |
| Synthesis.SkillBlocks | index.js:140 | one rendered skills block per hero |
| Synthesis.DisplayNames | index.js:152-157 | one coloured name per hero, rendered as `+` renders it |
| Synthesis.CombinedName | index.js:137 | no contract; the names joined by "And"; its properties are in CombineHeroPair and NameOfSections |
| Synthesis.Listed | index.js:154-156 | no contract; each name followed by ", "; its properties are in ListedJoin and ListedAvoids |
| Synthesis.NameList | index.js:153-157 | no contract; the loop's result; its properties are in DescriptionSerialComma, DescriptionPair and DescriptionSingle |
| Synthesis.Description | index.js:158 | no contract; the description text; its properties are in CreateCombinedHeroDescription and DescriptionSerialComma |
| Synthesis.Layout | index.js:144 | no contract; the template; its properties are in LayoutSections and CombineHeroPair |
| Synthesis.CombineHero | index.js:136-146 | no contract beyond a non-empty hero list; its properties are in CombineHeroPair, CombineHeroFirstSchema and RoundTrip.CombinedFileParses |
| Heroes.JoinText | index.js:137-140 | no contract; undefined joins as ""; its properties are in CombineHeroPair |
| Heroes.TemplateText | index.js:144 | no contract; undefined renders as "undefined"; its properties are in DescriptionSingle and CombineHeroPair |
| Parser.TrimEnd | index.js:70 | the trimmed text is the longest prefix that does not end in white space; everything cut off is white space |
| Parser.TrimEndUnique | index.js:70 | any prefix that is followed only by white space and does not itself end in white space is the trimmed text |
| Parser.TrimEndIdempotent | index.js:70 | trimming twice is trimming once |
| Parser.TrimEndTrailing | index.js:70 | white space added at the end is trimmed away |
| Parser.TrimEndAppend | index.js:70 | trimming a concatenation trims only its second part when that part is not blank |
| Parser.IsWhiteSpace | index.js:70 | no contract; the characters `trimEnd` removes; its properties are in TrimEnd |
| Parser.LineEnd | index.js:58-61 | `$` succeeds at the first line feed from p on, or at the end of the text |
| Parser.SpacesEnd | index.js:58-61 | a greedy run of spaces stops at the first non-space |
| Parser.SchemaHereSpec | index.js:58 | at a line start, the schema pattern matches exactly when the line is spaces, '#' and anything, and captures that whole line |
| Parser.NameFromSpec | index.js:59 | the lazy `[^#]+?` run stops at the first colon followed by only spaces to a line end, and fails at a '#' or the end of the text |
| Parser.NameHereSpec | index.js:59 | at a line start, the name pattern captures the shortest non-empty '#'-free text followed by such a colon, and fails exactly when there is none |
| Parser.ColouredNameHereSpec | index.js:60 | at a line start, the coloured name pattern matches exactly when the line starts with spaces and the key, and captures the rest of the line after the key and its spaces: no line feed, no leading space |
| Parser.SkillsHereSpec | index.js:61 | at a line start, the skills pattern matches exactly at a line of spaces, the key and spaces ended by a line feed, and captures all of the text after that line feed |
| Parser.SchemaHere | index.js:58 | no contract; the schema pattern at one position; its properties are in SchemaHereSpec |
| Parser.NameFrom | index.js:59 | no contract; the lazy run of the name pattern; its properties are in NameFromSpec |
| Parser.NameHere | index.js:59 | no contract; the name pattern at one position; its properties are in NameHereSpec |
| Parser.ColouredNameHere | index.js:60 | no contract; the coloured name pattern at one position; its properties are in ColouredNameHereSpec |
| Parser.SkillsHere | index.js:61 | no contract; the skills pattern at one position; its properties are in SkillsHereSpec |
| Parser.MatchHere | index.js:57-62 | no contract; the four patterns of heroRegexes by name |
| Parser.Hits | index.js:71-74 | no contract; the match at each line start; its properties are in ExecLeftmost |
| Parser.FirstHit | index.js:71-74 | the scan returns the first position with a match at or after p, and nothing when there is none |
| Parser.FirstValue | index.js:71-74 | no contract; the value at the first hit; its properties are in ExecLeftmost and ExecFirst |
| Parser.Exec | index.js:71-74 | no contract; `exec(...)?.groups?.Value`; its properties are in ExecLeftmost, ExecFirst and the four field lemmas |
| Parser.ParseHero | index.js:68-78 | no contract; the four fields of the trimmed text; its properties are in ParseHeroTrailing, SkillsTrimmed and RoundTrip.CombinedFileParses |
| Parser.ExecLeftmost | index.js:71-74 | `exec` finds the leftmost line start where the pattern matches, and is absent exactly when it matches at none |
| Parser.ExecFirst | index.js:71-74 | the line start of the found match, with no match at any earlier line start |
| Parser.ExecFinds | index.js:71-74 | a match at any line start means `exec` finds something |
| Parser.ExecAtStart | index.js:71-74 | a match at the start of the text is the one `exec` returns |
| Parser.ExecNextLine | index.js:71-74 | when the pattern fails on the first line, `exec` gives what it gives on the rest of the text |
| Parser.SchemaExec | index.js:58 | a schema is found exactly when some line is spaces, '#' and anything; the schema is the first such line, whole and without a line feed |
| Parser.NameExec | index.js:59 | a found name starts a line, has no '#', is followed by a colon and only spaces to a line end, is the shortest such run at that line start, and no earlier line start has such a run; the name is absent exactly when no line start has one |
| Parser.ColouredNameFound | index.js:60 | a coloured name is found exactly when some line starts with spaces and the key |
| Parser.ColouredNameExec | index.js:60 | a found coloured name is the rest of a line that starts with spaces and the key, no earlier line starts that way, and it has no line feed and does not start with a space |
| Parser.SkillsFound | index.js:61 | skills are found exactly when some line is spaces, the key and spaces, ended by a line feed |
| Parser.SkillsExec | index.js:61 | found skills are all of the text after a skills line that no earlier line start matches, so a suffix of the text right after a line feed |
| Parser.SkillsSuffix | index.js:74 | the skills found at line start p are the text after the line feed ending that line |
| Parser.SkillsTrimmed | index.js:70-74 | skills read from a file do not end in white space |
| Parser.ParseHeroTrailing | index.js:68-78 | white space added at the end of a file changes no field |
| Parser.HeadLineHasNoFeed | index.js:58 | the first line of a text has no line feed |
| ParseExample.SkillsOnlyFile | index.js:59-78 | the file "  skills:\n  - x" parses to no schema, the name "  skills", no coloured name, and the skills "  - x" |
| RoundTrip.CombinedFileParses | index.js:136-146 | a combination's file, read back, gives the first hero's schema, the combined name, the joined coloured names without leading spaces, and the trimmed joined skills, when those skills are not blank and the fields keep to their lines |
| RoundTrip.BlankSkillsDropped | index.js:140-144 | when every skills block is blank, the file reads back with the same schema, name and coloured name and no skills |
| RoundTrip.LayoutSections | index.js:144 | the file's text is the header line, the name line, the coloured name line, the description line and the skills section |
| RoundTrip.TrimmedLayout | index.js:140-144 | trimming a generated file only trims its skills, the final line feed included |
| RoundTrip.SchemaOfSections | index.js:144 | the schema read from a generated text is its header line |
| RoundTrip.NameOfSections | index.js:144 | the name read from a generated text is the combined name |
| RoundTrip.ColouredNameOfSections | index.js:144 | the coloured name read from a generated text is the joined coloured names without their leading spaces |
| RoundTrip.SkillsOfSections | index.js:144 | the skills pattern passes over the first four lines of a generated text |

## Left out

- The page glue (index.js:1-40): reading the file input and the group-size field, the alerts,
  and the button text. This is browser state. The guards in `download` are the caller's; note
  that a `parseInt` result of NaN passes the guard at index.js:9.
- Reading files (`readFileAsText`, `parseFiles`, index.js:45-47 and 84-92): FileReader events
  and promises. Only the step from the file's text to the hero record is modelled.
- The zip archive and the download (`createZipFile`, `saveZipFile`, index.js:164-187): calls
  into JSZip and the browser.
- CreateCombinations: a group size above the number of records is excluded by a
  precondition. With `combineHero` as the transform (index.js:17), the first group of size
  |values| + 1 ends in `undefined`, and `combineHero` throws a TypeError at index.js:137
  (`hero.name` of undefined). The download then fails with the button left at
  "Downloading...". With a transform that accepts `undefined`, the walk reads past `values`
  and never ends. Neither failure is modelled.
- Synthesis.CombineHero: requires at least one hero. On an empty list the code throws a
  TypeError at `heroes[0].schema`; its only caller passes groups of two or more.
- Parser.LineEnd: only the line feed ends a line. JavaScript's `^` and `$` in multiline mode
  also accept carriage return and U+2028/U+2029.
- The patterns are hand-written matchers for these four regular expressions, not a general
  regular-expression engine.
- Parser.TrimEnd: the white-space set is a fixed list of characters (ASCII space and
  controls, and the Unicode spaces `trimEnd` removes). It is not derived from Unicode
  character tables.
- Strings are sequences of characters. UTF-8 decoding and UTF-16 units are not modelled.
- RoundTrip.CombinedFileParses: the description is not a field of the hero record. The
  record has no description, so reading it back is not part of the round trip.
