# go-sqlmock query matching, modelled in Dafny

go-sqlmock is a mock SQL driver. A test declares expected statements together with their
arguments. The mock then checks every statement that the code under test issues against
those expectations. Under this model lies the part that decides whether an issued statement
matches an expected one:

- **`stripQuery`** normalizes a statement. It collapses every run of `\s` whitespace to one
  space and then trims both ends with `strings.TrimSpace` (module `Strip`). The two steps use
  different classes. `\s` is the ASCII set: space, tab, line feed, form feed and carriage
  return. `TrimSpace` uses Unicode's white space, which adds vertical tab (`\v`, U+000B),
  U+0085, U+00A0 and the other Unicode spaces. So a `\v` inside a statement survives
  collapsing, while a `\v` at either end is trimmed.
- **`QueryMatcherRegexp` and `QueryMatcherEqual`** are the two textual matchers. They compare
  the normalized statements, either as a regular expression against the text or by plain
  equality. **`QueryMatcherFunc.Match`** adapts an ordinary function into a matcher (module
  `Matchers`).
- **`QueryMatcherSqlParser`** is the structural matcher from the basic example. It parses both
  statements. It then moves every expected SET clause that holds a literal and whose column sits
  at another position in the actual statement, renaming the literal to the placeholder `:vN` of
  its new position. When *every* clause moved this way and the re-rendered expected UPDATE
  prints exactly like the actual one, it answers neither "match" nor "mismatch". It returns a
  *shuffle signal*, `*ErrShuffle`, holding the map from old to new positions. A clause that
  stays put leaves its slot of the new SET list nil. The model renders such a slot as an absent
  clause, which never prints like an actual one, so in the model a partial reordering falls
  back to the regular-expression matcher (module `SqlParserMatcher`). The program itself hands
  the nil clause to the external formatter, which most likely panics (see "## Left out").
- **`ErrShuffle.ShuffleArgs`** applies such a map to the declared argument list in place
  (module `Shuffle`).
- **The example test `TestShuffleArgsWithSqlparser`** chains the structural matcher and
  `ShuffleArgs` on one concrete pair of statements (module `Scenario`).

A matcher's Go `error` result is the datatype `Outcome`:
- `Matched` stands for nil;
- `Mismatch(msg)` stands for an ordinary error;
- `Shuffle(map)` stands for `*ErrShuffle`.

Go's `map[int]int` is a `map<int, int>`.

`ShuffleArgs` works on an `array` in place. It is proved against the function `Shuffled`, a
fold of its loop. The lemmas then give `Shuffled` its meaning:
- every value lands at its target unless a later index writes the same slot;
- a position that no index writes holds nil;
- an untouched position keeps its value;
- the result is a permutation of the arguments when no two positions of the list have the same
  target (`ShuffledInjective`), or when the map permutes its own keys (`ShuffledPermutation`).
  Distinct values on the keys alone are not enough: an index without an entry keeps
  targeting itself and can collide with a key's value.

The structural matcher is the function `SqlParserMatch`. The method `QueryMatcherSqlParser`
mirrors its two loops. Two lemmas tie the shuffle signal to the statements, one per direction:
- Soundness. A shuffle signal is returned only for two UPDATEs that agree on table and WHERE.
  Its map is a non-empty permutation of all the SET positions, matching column names. Each
  moved clause, renamed, prints like the actual clause at its new position.
- Detection. Conversely, the signal is returned whenever every expected clause (with distinct
  columns) moves and, renamed, prints like the actual clause it lands on.

A further lemma closes the loop. Whenever each column binds the same value on both sides,
`ShuffleArgs` with the signalled map turns the declared arguments into the observed ones.

Literals that are not placeholders move too, because line 111 renames any literal. An integer
`1` renamed to `:v2` prints like the placeholder `:v2`. The map then counts a clause that binds no
argument, and its positions need not fit the argument list (`MovedLiteralShuffle`).

Each of these is a parameter:
- the SQL parser, which is the function type `Parser`;
- the regular-expression library, which is the datatype `RegexEngine` holding a
  compile-error function and a match function.

The parser's output is modelled on values (`Statement`). `Format` is modelled by what it prints
for each part of an UPDATE:
- the table and the WHERE clause;
- each SET clause's qualified column;
- each value's printed text. A string literal is quoted, hex and bit literals carry their
  `X'…'`/`B'…'` wrapping, and every other literal, placeholders included, prints bare.

Two statements render to the same text exactly when these `Rendered` forms are equal.

## Model

| member | source | states |
|---|---|---|
| Shuffle.ShuffleArgs | query.go:21-34 | the array afterwards is `Shuffled(shuffle, old contents, nil)`, the fold of the loop over the old positions into a fresh all-nil buffer, and the copy back; the precondition says every map value reached from an index below the length lies in range (Go panics otherwise) |
| Shuffle.Target | query.go:24-28 | the position the value at `oldPos` is written to: its map entry, or `oldPos` itself when it has none |
| Shuffle.TargetInRange | query.go:23-28 | the range guard holds exactly when every position of the list targets a position of the list, the condition under which the buffer writes cannot panic |
| Shuffle.ShuffledPrefix | query.go:22-29 | the buffer after the first `k` rounds keeps the argument list's length |
| Shuffle.Shuffled | query.go:22-29 | the reordered list has the argument list's length |
| Shuffle.ShuffledPrefixWritten | query.go:23-28 | after `k` rounds a slot holds the value of the last index below `k` whose target it is |
| Shuffle.ShuffledPrefixUnwritten | query.go:22-28 | after `k` rounds a slot that no index below `k` targets still holds nil |
| Shuffle.ShuffledLastWriter | query.go:23-28 | `args[i]` ends up at `shuffle[i]`, or at `i` when `i` has no entry, unless a later index writes the same slot |
| Shuffle.ShuffledUnwritten | query.go:22 | a slot that no index writes ends up as nil |
| Shuffle.ShuffledUntouched | query.go:26-28 | an index with no entry, and not targeted by any entry, keeps its value |
| Shuffle.ShuffledIgnoresOutOfRangeKeys | query.go:23-24 | entries whose key is not a position of the list have no effect |
| Shuffle.MultisetOfInjectiveImage | query.go:22-29 | a list copied through an injective index map into an equally long list is a permutation of it |
| Shuffle.ShuffledInjective | query.go:21-34 | when no two positions of the list share a target, every value lands at its target and the result is a permutation of the arguments |
| Shuffle.ShuffledPermutation | query.go:21-34 | a map that permutes its own key set among themselves keeps values in range and reorders the arguments as a permutation |
| Shuffle.CoveringMapIsPermutation | examples/basic/basic_test.go:103-113 | a map whose keys lie in [0, n) and whose values cover [0, n) has every position as a key and is injective |
| Shuffle.InjectiveMapCovers | examples/basic/basic_test.go:103-113 | a map defined on exactly [0, n), injective, with values in [0, n), covers every position of [0, n) |
| Shuffle.PermutationTargets | query.go:23-28 | a permutation of [0, n) is in range and has distinct targets on any longer list, and fixes every index at or past `n` |
| Strip.SkipSpace | query.go:36-40 | the result is a suffix of the input; every dropped character is `\s` whitespace; the result does not start with `\s` whitespace |
| Strip.TrimLeft | query.go:40 | the result is a suffix of the input; every dropped character is Unicode whitespace; the result does not start with Unicode whitespace |
| Strip.TrimRight | query.go:40 | the result is a prefix of the input; every dropped character is Unicode whitespace; the result does not end with Unicode whitespace |
| Strip.TrimSpace | query.go:40 | `strings.TrimSpace`: never longer than its input, and no Unicode whitespace at either end |
| Strip.Collapse | query.go:36-40 | `re.ReplaceAllString(q, " ")` for `\s+`: never longer than its input, empty exactly when the input is, and starting with whitespace exactly when the input does |
| Strip.StripQuery | query.go:39-41 | `stripQuery`: never longer than the statement, and no whitespace at either end |
| Strip.TrimSpaceInfix | query.go:40 | `TrimSpace(s)` is the infix `s[lo..hi]` with only Unicode whitespace before and after it |
| Strip.CollapseSingleSpaced | query.go:36-40 | after replacing `\s` runs by " " the only `\s` whitespace left is single spaces, never two adjacent |
| Strip.CollapseNonSpace | query.go:36-40 | collapsing keeps every character that is not whitespace, in order |
| Strip.TrimSpaceNonSpace | query.go:40 | trimming removes whitespace only |
| Strip.StripQueryCanonical | query.go:39-41 | `stripQuery`'s result is canonical: single spaces only, no whitespace at either end |
| Strip.StripQueryNonSpace | query.go:39-41 | `stripQuery` keeps exactly the characters of the statement that are not whitespace, in order |
| Strip.CollapseOfSingleSpaced | query.go:36-40 | collapsing a single-spaced string changes nothing |
| Strip.StripQueryOfCanonical | query.go:39-41 | a canonical statement is its own normal form |
| Strip.StripQueryIdempotent | query.go:39-41 | stripping twice is stripping once |
| Strip.SkipSpaceAppend | query.go:36-40 | skipping leading `\s` whitespace of a concatenation skips into the second part when the first part is all whitespace, and stays in the first part otherwise |
| Strip.CollapseLeadingRun | query.go:36-40 | a leading whitespace run collapses like a single space |
| Strip.CollapseRun | query.go:36-40 | any non-empty `\s` run inside a string collapses exactly like a single space there |
| Strip.StripQueryIgnoresLayout | query.go:39-41 | replacing one `\s` run by any other non-empty `\s` run does not change the normal form |
| Matchers.RegexpMatch | query.go:72-83 | never a shuffle signal; the compile error of the stripped pattern when there is one; otherwise a match exactly when the pattern matches the stripped actual text |
| Matchers.QueryMatcherRegexp | query.go:72-83 | the matcher value never asks for a shuffle, and for a pattern that compiles it matches exactly when the stripped pattern matches the stripped statement |
| Matchers.EqualMatch | query.go:88-95 | a match exactly when the stripped statements are equal, otherwise the error naming both stripped texts |
| Matchers.QueryMatcherEqual | query.go:88-95 | the matcher value matches exactly the statements whose stripped texts are equal, and never asks for a shuffle |
| Matchers.EqualReflexiveSymmetric | query.go:88-95 | the equality matcher matches every statement with itself, and its verdict is symmetric |
| Matchers.EqualIgnoresLayout | query.go:88-95 | re-laying out a whitespace run in either statement leaves the equality verdict unchanged |
| Matchers.RegexpDependsOnStrippedText | query.go:72-83 | statements with the same stripped texts get the same regexp verdict |
| Matchers.EqualDependsOnStrippedText | query.go:88-95 | statements with the same stripped texts get the same equality verdict |
| Matchers.RegexpSeesStrippedText | query.go:72-83 | feeding the regexp matcher normalized statements changes nothing |
| Matchers.EqualSeesStrippedText | query.go:88-95 | feeding the equality matcher normalized statements changes nothing |
| SqlParserMatcher.PrintExpr | examples/basic/basic_test.go:123-127 | what `Format` prints for a value: quoted strings, wrapped hex and bit literals, every other literal bare |
| SqlParserMatcher.RenamedLiteralPrintsAsPlaceholder | examples/basic/basic_test.go:109-111 | a literal renamed to `:v<pos+1>` prints exactly like that placeholder, unless it is a string, hex or bit literal, which `Format` quotes or wraps |
| SqlParserMatcher.RenderExpected | examples/basic/basic_test.go:119-124 | the printed expected UPDATE: the reordered slots once a clause moved, the parsed SET list otherwise |
| SqlParserMatcher.RenderActual | examples/basic/basic_test.go:126-127 | the printed actual UPDATE |
| SqlParserMatcher.DecimalString | examples/basic/basic_test.go:111 | `%d` of a number is a non-empty string of decimal digits |
| SqlParserMatcher.DecimalStringRoundTrip | examples/basic/basic_test.go:111 | reading back the printed digits gives the number |
| SqlParserMatcher.Placeholder | examples/basic/basic_test.go:111 | `:v<pos+1>` starts with `:v` followed by digits |
| SqlParserMatcher.PlaceholderInjective | examples/basic/basic_test.go:111 | distinct positions get distinct placeholders |
| SqlParserMatcher.PositionsPrefix | examples/basic/basic_test.go:97-100 | after `k` rounds each recorded column points at a position below `k` holding that column |
| SqlParserMatcher.Positions | examples/basic/basic_test.go:97-100 | each recorded column points at a position of the actual statement holding that column |
| SqlParserMatcher.PositionsPrefixColumns | examples/basic/basic_test.go:98-99 | every column seen so far has an entry |
| SqlParserMatcher.PositionsPrefixLast | examples/basic/basic_test.go:98-99 | a repeated column keeps its last position |
| SqlParserMatcher.Moves | examples/basic/basic_test.go:107-109 | a clause moves when its bare column has a position in the actual statement, that position differs from its own, and its value is a literal |
| SqlParserMatcher.Rewrite | examples/basic/basic_test.go:109-111 | a moved clause keeps its column and value kind, and its value becomes `:v<newPos+1>` |
| SqlParserMatcher.ReorderPrefix | examples/basic/basic_test.go:102-117 | after `k` rounds the flag is set exactly when the map is non-empty; the map holds exactly the clauses below `k` that move, each mapped to its column's actual position |
| SqlParserMatcher.Reorder | examples/basic/basic_test.go:102-117 | the same for the whole walk |
| SqlParserMatcher.ReorderPrefixEmptySlot | examples/basic/basic_test.go:105-113 | after `k` rounds a slot that no key is moved to is still empty |
| SqlParserMatcher.ReorderPrefixLastWriter | examples/basic/basic_test.go:105-113 | after `k` rounds the slot of the last key moved to it holds that clause, renamed |
| SqlParserMatcher.ReorderEmptySlot | examples/basic/basic_test.go:105-117 | slots of unmoved clauses stay empty rather than being copied |
| SqlParserMatcher.ReorderLastWriter | examples/basic/basic_test.go:105-117 | a slot holds the renamed clause of the last key moved to it |
| SqlParserMatcher.ReorderEntries | examples/basic/basic_test.go:106-113 | every entry moves a literal clause to a different in-range position that holds the same column in the actual statement |
| SqlParserMatcher.ReorderInjective | examples/basic/basic_test.go:106-113 | with distinct expected columns the map is injective |
| SqlParserMatcher.ActualSetClausePositions | examples/basic/basic_test.go:97-100 | the loop's map is `Positions(actual)` |
| SqlParserMatcher.ReorderSetClauses | examples/basic/basic_test.go:102-117 | the loop's flag, map and slots are `Reorder(expected, positions)` |
| SqlParserMatcher.SqlParserMatch | examples/basic/basic_test.go:82-135 | a shuffle signal always carries a non-empty map; once both statements parse, the result is a shuffle signal or the regexp verdict |
| SqlParserMatcher.QueryMatcherSqlParser | examples/basic/basic_test.go:82-135 | its result is `SqlParserMatch`, the matcher's definition as a function |
| SqlParserMatcher.SqlParserParseErrors | examples/basic/basic_test.go:83-91 | a parse failure of the expected statement, or else of the actual one, yields the error with its prefix, whatever the regular-expression library |
| SqlParserMatcher.SqlParserShapeFallback | examples/basic/basic_test.go:93-134 | unless both statements are UPDATEs with equally many SET clauses, the verdict is the regexp matcher's |
| SqlParserMatcher.SqlParserShuffleSound | examples/basic/basic_test.go:96-131 | a shuffle signal comes only from two UPDATEs with equal table and WHERE; its map is the computed one, non-empty, a permutation of the SET positions, and maps each literal clause to the actual clause that prints like it once renamed |
| SqlParserMatcher.SqlParserDetectsReordering | examples/basic/basic_test.go:96-131 | two UPDATEs with equal table and WHERE and distinct expected columns, where every expected clause moves and, renamed, prints like the actual clause it lands on, get the shuffle signal with the computed map |
| SqlParserMatcher.SqlParserNoPartialShuffle | examples/basic/basic_test.go:105-131 | if any clause stays unmoved, no shuffle signal is given and the regexp verdict stands, with the nil slot rendered as an absent clause (see "## Left out") |
| SqlParserMatcher.SqlParserAlignsArguments | examples/basic/basic_test.go:119-131 | when each column binds the same value on both sides, `ShuffleArgs` with the signalled map turns the declared arguments into the observed ones |
| SqlParserMatcher.AlignedByPermutation | query.go:21-34 | reordering by a column-matching permutation lines the declared arguments up with the observed ones |
| Scenario.ScenarioReorder | examples/basic/basic_test.go:69-73 | for the test's statements the walk moves all three clauses and fills every slot with the actual clause |
| Scenario.ScenarioShuffle | examples/basic/basic_test.go:69-73 | for the test's two statements the matcher signals {0:2, 1:0, 2:1} |
| Scenario.ScenarioArguments | examples/basic/basic_test.go:70-73 | that map turns (views, name, price, id) into (name, price, views, id) |
| Scenario.TestShuffleArgsWithSqlparser | examples/basic/basic_test.go:61-80 | matching and then reconciling the declared arguments in place yields the arguments of the actual call |
| Scenario.ReconcileScenarioArguments | examples/basic/basic_test.go:70-73 | `ShuffleArgs` with {0:2, 1:0, 2:1} in place rotates the first three arguments and keeps the fourth |
| Scenario.MovedLiteralShuffle | examples/basic/basic_test.go:106-113 | `SET a = 1, b = ?` against `SET b = ?, a = ?` gets the signal {0:1, 1:0}, whose positions do not fit the single declared argument |

## Left out

- The mock session is not part of this model. That covers expectations, `sqlmock.New`, `ExpectExec`, `WithArgs`, `Exec` and `ExpectationsWereMet`. `TestShuffleArgsWithSqlparser` is modelled only as matching followed by `ShuffleArgs` on the declared arguments.
- The regular-expression library is a parameter. `regexp.Compile` and `MatchString` are uninterpreted functions, so no property of a concrete pattern is stated.
- `sqlparser.Parse`, `Format` and `NewTrackedBuffer` are external. The parser is a parameter and its SQL grammar is not modelled.
- SqlParserMatcher.PrintExpr: the escaping `Format` applies inside string literals is not modelled. Neither is the backquoting of unusual column names. Any expression other than a literal is represented by its printed text.
- Scenario.ScenarioShuffle: assumes the parser numbers `?` placeholders `:v1`, `:v2`, … from left to right. Parsing itself is not modelled.
- Shuffle.ShuffleArgs: Go's nil `driver.Value` is an explicit `nilValue` parameter. Argument values are generic, so float and other concrete Go types are not modelled.
- Matchers.RegexpMatch: its mismatch message uses the stripped pattern text. That is what `re.String()` returns for a compiled pattern.
- Strip.StripQuery: Dafny strings are sequences of Unicode characters. Go's byte strings and invalid UTF-8 are not modelled.
- `ErrShuffle.Error` only prints the map as text, so it is not modelled.
- The parsed statements are mutated in place (`v.Val = …`, `expected.Exprs = …`) but discarded afterwards. The model works on values, so aliasing between the expected AST and `expectedSetClause` is not modelled.
- SqlParserMatcher.SqlParserMatch: a clause that stays put leaves a nil `*UpdateExpr` in `expectedSetClause` (examples/basic/basic_test.go:105), and line 124 formats that list. The formatter is external: it most likely dereferences the nil clause and panics, for instance for `SET a = ?, b = ?, c = ?` against `SET b = ?, a = ?, c = ?`. The model does not capture that panic. It renders a nil slot as an absent clause, which compares unequal to any printed clause, so the matcher falls back to the regexp verdict.
- Matchers.Match: `QueryMatcherFunc.Match` is plain function application and has no contract of its own.
