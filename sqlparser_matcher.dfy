/**
  The structural matcher `QueryMatcherSqlParser` of examples/basic/basic_test.go.
  It parses both statements; when both are UPDATEs with equally many SET
  clauses it walks the expected clauses, moves every literal clause whose
  column sits at another position in the actual statement to that position
  (renaming its value to `:v<newPos+1>`), and reports the moves as a shuffle
  signal when the re-rendered expected statement equals the rendered actual
  one. Every other path falls back to the regular-expression matcher. A slot
  that no clause moves to stays nil; the model renders it as an absent
  clause, where the external formatter would most likely fail.

  The SQL parser is a parameter. A parsed statement is a value: an UPDATE
  keeps its SET clauses and folds everything else (table, WHERE, ORDER BY,
  LIMIT) into two strings; two statements render to the same text exactly
  when their rendered forms below are equal.
*/
module SqlParserMatcher {
  import opened Wrappers
  import opened Matchers
  import opened Shuffle

  /** The kinds of a literal value (`sqlparser.SQLVal`); `?` placeholders are ValArg. */
  datatype ValType = StrVal | IntVal | FloatVal | HexNum | HexVal | ValArg | BitVal

  /** A literal, or any other expression given by the text `Format` prints for it. */
  datatype Expr = SQLVal(valType: ValType, val: string) | OtherExpr(text: string)

  /**
    One SET clause, `qualifier.name = expr`. The qualifier is empty for a bare
    column; `name` alone is the key of the position map.
  */
  datatype UpdateExpr = UpdateExpr(qualifier: string, name: string, expr: Expr)

  datatype Statement =
    | Update(table: string, exprs: seq<UpdateExpr>, where: string)
    | OtherStatement(text: string)

  /** `sqlparser.Parse`: a statement, or the parser's error message. */
  type Parser = string -> Result<Statement, string>

  /**
    What `Format` prints for an expression: a string literal quoted, hex and
    bit literals inside `X'...'` and `B'...'`, every other literal (integer,
    float, hex number, placeholder) as its bare text.
  */
  function PrintExpr(e: Expr): string
  {
    match e
    case SQLVal(StrVal, val) => "'" + val + "'"
    case SQLVal(HexVal, val) => "X'" + val + "'"
    case SQLVal(BitVal, val) => "B'" + val + "'"
    case SQLVal(_, val) => val
    case OtherExpr(text) => text
  }

  /** What `Format` prints for a SET clause: the qualified column and the printed value. */
  datatype RenderedClause = RenderedClause(qualifier: string, name: string, value: string)

  function RenderClause(c: UpdateExpr): RenderedClause
  {
    RenderedClause(c.qualifier, c.name, PrintExpr(c.expr))
  }

  /** What `Format` prints for an UPDATE whose SET list may hold empty (nil) slots. */
  datatype Rendered = Rendered(table: string, exprs: seq<Option<RenderedClause>>, where: string)

  /** A printed SET list without empty slots. */
  function RenderClauses(exprs: seq<UpdateExpr>): seq<Option<RenderedClause>>
  {
    seq(|exprs|, i requires 0 <= i < |exprs| => Some(RenderClause(exprs[i])))
  }

  /** A printed SET list whose empty slots stay empty. */
  function RenderSlots(slots: seq<Option<UpdateExpr>>): seq<Option<RenderedClause>>
  {
    seq(|slots|, i requires 0 <= i < |slots| => if slots[i].Some? then Some(RenderClause(slots[i].value)) else None)
  }

  function DigitChar(d: nat): char
    requires d < 10
  {
    "0123456789"[d]
  }

  /** `fmt.Sprintf("%d", n)` for a natural number: a non-empty string of decimal digits. */
  function DecimalString(n: nat): (r: string)
    ensures |r| > 0 && forall i :: 0 <= i < |r| ==> '0' <= r[i] <= '9'
  {
    if n < 10 then [DigitChar(n)] else DecimalString(n / 10) + [DigitChar(n % 10)]
  }

  /** The number a string of decimal digits denotes. */
  function DigitsValue(s: string): nat
    requires forall i :: 0 <= i < |s| ==> '0' <= s[i] <= '9'
  {
    if s == [] then 0 else 10 * DigitsValue(s[..|s| - 1]) + (s[|s| - 1] as int - '0' as int)
  }

  /** Reading back the printed number gives the number. */
  lemma {:induction false} DecimalStringRoundTrip(n: nat)
    ensures DigitsValue(DecimalString(n)) == n
  {
    if n >= 10 {
      DecimalStringRoundTrip(n / 10);
      var s := DecimalString(n);
      assert s[..|s| - 1] == DecimalString(n / 10);
    }
  }

  /** The placeholder text `:v<pos+1>` for the clause at position `pos`. */
  function Placeholder(pos: nat): (r: string)
    ensures |r| > 2 && r[..2] == ":v"
  {
    ":v" + DecimalString(pos + 1)
  }

  /** Distinct positions get distinct placeholders. */
  lemma PlaceholderInjective(p: nat, q: nat)
    ensures Placeholder(p) == Placeholder(q) ==> p == q
  {
    if Placeholder(p) == Placeholder(q) {
      var s, t := DecimalString(p + 1), DecimalString(q + 1);
      assert s == Placeholder(p)[2..];
      assert t == Placeholder(q)[2..];
      DecimalStringRoundTrip(p + 1);
      DecimalStringRoundTrip(q + 1);
      assert DigitsValue(s) == DigitsValue(t);
    }
  }

  /** `actualSetClausePosition` after the first `k` rounds of its loop: the last position of each column. */
  function PositionsPrefix(exprs: seq<UpdateExpr>, k: nat): (pos: map<string, int>)
    requires k <= |exprs|
    ensures forall name :: name in pos ==> 0 <= pos[name] < k && exprs[pos[name]].name == name
  {
    if k == 0 then map[] else PositionsPrefix(exprs, k - 1)[exprs[k - 1].name := k - 1]
  }

  function Positions(exprs: seq<UpdateExpr>): (pos: map<string, int>)
    ensures forall name :: name in pos ==> 0 <= pos[name] < |exprs| && exprs[pos[name]].name == name
  {
    PositionsPrefix(exprs, |exprs|)
  }

  /** Every column of the statement has an entry. */
  lemma {:induction false} PositionsPrefixColumns(exprs: seq<UpdateExpr>, k: nat, i: nat)
    requires i < k <= |exprs|
    ensures exprs[i].name in PositionsPrefix(exprs, k)
  {
    if i < k - 1 {
      PositionsPrefixColumns(exprs, k - 1, i);
    }
  }

  /** A column that occurs more than once keeps its last position. */
  lemma {:induction false} PositionsPrefixLast(exprs: seq<UpdateExpr>, k: nat, name: string)
    requires k <= |exprs| && name in PositionsPrefix(exprs, k)
    ensures forall i :: PositionsPrefix(exprs, k)[name] < i < k ==> exprs[i].name != name
  {
    if k > 0 && exprs[k - 1].name != name {
      PositionsPrefixLast(exprs, k - 1, name);
    }
  }

  predicate ValidPositions(pos: map<string, int>, n: nat)
  {
    forall name :: name in pos ==> 0 <= pos[name] < n
  }

  /** The clause at `oldPos` is moved: its column sits elsewhere in the actual statement and its value is a literal. */
  predicate Moves(c: UpdateExpr, oldPos: int, pos: map<string, int>)
  {
    c.name in pos && pos[c.name] != oldPos && c.expr.SQLVal?
  }

  /** The moved clause with its value renamed to the placeholder of its new position. */
  function Rewrite(c: UpdateExpr, newPos: nat): (r: UpdateExpr)
    requires c.expr.SQLVal?
    ensures r.name == c.name && r.expr.SQLVal? && r.expr.valType == c.expr.valType
    ensures r.expr.val == Placeholder(newPos)
  {
    c.(expr := c.expr.(val := Placeholder(newPos)))
  }

  /**
    A moved literal prints exactly like the placeholder of its new position
    unless its kind is one that `Format` quotes or wraps.
  */
  lemma RenamedLiteralPrintsAsPlaceholder(c: UpdateExpr, newPos: nat)
    requires c.expr.SQLVal?
    ensures PrintExpr(Rewrite(c, newPos).expr) == Placeholder(newPos)
        <==> !(c.expr.valType == StrVal || c.expr.valType == HexVal || c.expr.valType == BitVal)
  {
    var p := Placeholder(newPos);
    var printed := PrintExpr(Rewrite(c, newPos).expr);
    if c.expr.valType == StrVal || c.expr.valType == HexVal || c.expr.valType == BitVal {
      assert |printed| > |p|;
    }
  }

  /** The `shuffled` flag, the `shuffle` map and the `expectedSetClause` slots. */
  datatype Reordering = Reordering(shuffled: bool, shuffle: map<int, int>, slots: seq<Option<UpdateExpr>>)

  /**
    The state after the first `k` rounds of the walk over the expected
    clauses: the map holds exactly the clauses below `k` that move, each
    mapped to its column's position in the actual statement.
  */
  function ReorderPrefix(exp: seq<UpdateExpr>, pos: map<string, int>, k: nat): (r: Reordering)
    requires k <= |exp| && ValidPositions(pos, |exp|)
    ensures |r.slots| == |exp|
    ensures r.shuffled <==> r.shuffle != map[]
    ensures forall o :: o in r.shuffle ==> 0 <= o < k && Moves(exp[o], o, pos) && r.shuffle[o] == pos[exp[o].name]
    ensures forall o :: 0 <= o < k && Moves(exp[o], o, pos) ==> o in r.shuffle
  {
    if k == 0 then Reordering(false, map[], seq(|exp|, _ => None))
    else
      var r := ReorderPrefix(exp, pos, k - 1);
      var c := exp[k - 1];
      if Moves(c, k - 1, pos) then
        var newPos := pos[c.name];
        assert k - 1 in r.shuffle[k - 1 := newPos];
        Reordering(true, r.shuffle[k - 1 := newPos], r.slots[newPos := Some(Rewrite(c, newPos))])
      else
        r
  }

  function Reorder(exp: seq<UpdateExpr>, pos: map<string, int>): (r: Reordering)
    requires ValidPositions(pos, |exp|)
    ensures |r.slots| == |exp|
    ensures r.shuffled <==> r.shuffle != map[]
    ensures forall o :: o in r.shuffle ==> 0 <= o < |exp| && Moves(exp[o], o, pos) && r.shuffle[o] == pos[exp[o].name]
    ensures forall o :: 0 <= o < |exp| && Moves(exp[o], o, pos) ==> o in r.shuffle
  {
    ReorderPrefix(exp, pos, |exp|)
  }

  /** No key after `o` moves a clause to the same slot. */
  predicate LastWriter(shuffle: map<int, int>, o: int)
    requires o in shuffle
  {
    forall o' :: o' in shuffle && o < o' ==> shuffle[o'] != shuffle[o]
  }

  /** After `k` rounds a slot that no key is moved to is still empty: an unmoved clause is never copied. */
  lemma {:induction false} ReorderPrefixEmptySlot(exp: seq<UpdateExpr>, pos: map<string, int>, k: nat, j: nat)
    requires k <= |exp| && ValidPositions(pos, |exp|) && j < |exp|
    requires forall o :: o in ReorderPrefix(exp, pos, k).shuffle ==> ReorderPrefix(exp, pos, k).shuffle[o] != j
    ensures ReorderPrefix(exp, pos, k).slots[j] == None
  {
    if k > 0 {
      var prev, r := ReorderPrefix(exp, pos, k - 1), ReorderPrefix(exp, pos, k);
      var c := exp[k - 1];
      if Moves(c, k - 1, pos) {
        var newPos := pos[c.name];
        assert r.shuffle == prev.shuffle[k - 1 := newPos];
        assert r.slots == prev.slots[newPos := Some(Rewrite(c, newPos))];
        assert k - 1 in r.shuffle;
        forall o | o in prev.shuffle
          ensures prev.shuffle[o] != j
        {
          assert o in r.shuffle && r.shuffle[o] == prev.shuffle[o];
        }
      } else {
        assert r == prev;
      }
      ReorderPrefixEmptySlot(exp, pos, k - 1, j);
    }
  }

  /** After `k` rounds the slot of the last key moved to it holds that clause, renamed. */
  lemma {:induction false} ReorderPrefixLastWriter(exp: seq<UpdateExpr>, pos: map<string, int>, k: nat, o: int)
    requires k <= |exp| && ValidPositions(pos, |exp|)
    requires o in ReorderPrefix(exp, pos, k).shuffle && LastWriter(ReorderPrefix(exp, pos, k).shuffle, o)
    ensures var r := ReorderPrefix(exp, pos, k);
            r.slots[r.shuffle[o]] == Some(Rewrite(exp[o], r.shuffle[o]))
  {
    var prev, r := ReorderPrefix(exp, pos, k - 1), ReorderPrefix(exp, pos, k);
    var c := exp[k - 1];
    if Moves(c, k - 1, pos) {
      var newPos := pos[c.name];
      assert r.shuffle == prev.shuffle[k - 1 := newPos];
      assert r.slots == prev.slots[newPos := Some(Rewrite(c, newPos))];
      if o != k - 1 {
        assert o in prev.shuffle && r.shuffle[o] == prev.shuffle[o];
        assert newPos != r.shuffle[o];
        forall o' | o' in prev.shuffle && o < o'
          ensures prev.shuffle[o'] != prev.shuffle[o]
        {
          assert o' in r.shuffle && r.shuffle[o'] == prev.shuffle[o'];
        }
        ReorderPrefixLastWriter(exp, pos, k - 1, o);
      }
    } else {
      assert r == prev;
      ReorderPrefixLastWriter(exp, pos, k - 1, o);
    }
  }

  /** A slot that no key is moved to stays empty. */
  lemma ReorderEmptySlot(exp: seq<UpdateExpr>, pos: map<string, int>, j: nat)
    requires ValidPositions(pos, |exp|) && j < |exp|
    requires forall o :: o in Reorder(exp, pos).shuffle ==> Reorder(exp, pos).shuffle[o] != j
    ensures Reorder(exp, pos).slots[j] == None
  {
    assert Reorder(exp, pos) == ReorderPrefix(exp, pos, |exp|);
    ReorderPrefixEmptySlot(exp, pos, |exp|, j);
  }

  /** The slot of the last key moved to it holds that clause, renamed to its new placeholder. */
  lemma ReorderLastWriter(exp: seq<UpdateExpr>, pos: map<string, int>, o: int)
    requires ValidPositions(pos, |exp|)
    requires o in Reorder(exp, pos).shuffle && LastWriter(Reorder(exp, pos).shuffle, o)
    ensures var r := Reorder(exp, pos);
            r.slots[r.shuffle[o]] == Some(Rewrite(exp[o], r.shuffle[o]))
  {
    ReorderPrefixLastWriter(exp, pos, |exp|, o);
  }

  /**
    Every entry of the computed map moves an expected placeholder clause to a
    different position in [0, n) that holds the same column in the actual
    statement, and all keys lie in [0, n).
  */
  lemma ReorderEntries(exp: seq<UpdateExpr>, act: seq<UpdateExpr>)
    requires |exp| == |act|
    ensures var m := Reorder(exp, Positions(act)).shuffle;
            forall o :: o in m ==>
              && 0 <= o < |exp| && 0 <= m[o] < |exp| && o != m[o]
              && exp[o].name == act[m[o]].name && exp[o].expr.SQLVal?
  {
  }

  predicate DistinctNames(exprs: seq<UpdateExpr>)
  {
    forall i, i' :: 0 <= i < |exprs| && 0 <= i' < |exprs| && i != i' ==> exprs[i].name != exprs[i'].name
  }

  /** With distinct expected column names the computed map is injective. */
  lemma ReorderInjective(exp: seq<UpdateExpr>, act: seq<UpdateExpr>)
    requires |exp| == |act| && DistinctNames(exp)
    ensures var m := Reorder(exp, Positions(act)).shuffle;
            forall o, o' :: o in m && o' in m && o != o' ==> m[o] != m[o']
  {
    var pos := Positions(act);
    var m := Reorder(exp, pos).shuffle;
    forall o, o' | o in m && o' in m && o != o'
      ensures m[o] != m[o']
    {
      assert exp[o].name != exp[o'].name;
      assert act[pos[exp[o].name]].name == exp[o].name;
      assert act[pos[exp[o'].name]].name == exp[o'].name;
    }
  }

  /** The printed expected statement: the reordered slots once a clause moved, the parsed SET list otherwise. */
  function RenderExpected(expected: Statement, rd: Reordering): Rendered
    requires expected.Update?
  {
    Rendered(expected.table, if rd.shuffled then RenderSlots(rd.slots) else RenderClauses(expected.exprs), expected.where)
  }

  function RenderActual(actual: Statement): Rendered
    requires actual.Update?
  {
    Rendered(actual.table, RenderClauses(actual.exprs), actual.where)
  }

  /**
    The matcher, as a function of the parser, the regular-expression library
    and the two statements. A shuffle signal always carries a non-empty map,
    and once both statements parse the result is a shuffle signal or the
    regular-expression verdict.
  */
  function SqlParserMatch(parse: Parser, engine: RegexEngine, expectedSQL: string, actualSQL: string): (r: Outcome)
    ensures r.Shuffle? ==> r.shuffle != map[]
    ensures parse(expectedSQL).Success? && parse(actualSQL).Success? ==>
              r.Shuffle? || r == RegexpMatch(engine, expectedSQL, actualSQL)
  {
    match parse(expectedSQL)
    case Failure(err) => Mismatch("expectedSQL parse error: " + err)
    case Success(expected) =>
      match parse(actualSQL)
      case Failure(err) => Mismatch("actualSQL parse error: " + err)
      case Success(actual) =>
        if expected.Update? && actual.Update? && |expected.exprs| == |actual.exprs| then
          var rd := Reorder(expected.exprs, Positions(actual.exprs));
          if RenderExpected(expected, rd) == RenderActual(actual) && rd.shuffled then Shuffle(rd.shuffle)
          else Match(QueryMatcherRegexp(engine), expectedSQL, actualSQL)
        else
          Match(QueryMatcherRegexp(engine), expectedSQL, actualSQL)
  }

  /** The first loop of the matcher: the position of every column of the actual statement. */
  method ActualSetClausePositions(actual: seq<UpdateExpr>) returns (actualSetClausePosition: map<string, int>)
    ensures actualSetClausePosition == Positions(actual)
  {
    actualSetClausePosition := map[];
    for i := 0 to |actual|
      invariant actualSetClausePosition == PositionsPrefix(actual, i)
    {
      actualSetClausePosition := actualSetClausePosition[actual[i].name := i];
    }
  }

  /** The second loop of the matcher: the walk over the expected clauses. */
  method ReorderSetClauses(expected: seq<UpdateExpr>, actualSetClausePosition: map<string, int>)
    returns (shuffled: bool, shuffle: map<int, int>, expectedSetClause: seq<Option<UpdateExpr>>)
    requires ValidPositions(actualSetClausePosition, |expected|)
    ensures Reordering(shuffled, shuffle, expectedSetClause) == Reorder(expected, actualSetClausePosition)
  {
    shuffled := false;
    shuffle := map[];
    var slots := new Option<UpdateExpr>[|expected|](_ => None);
    for oldPos := 0 to |expected|
      invariant Reordering(shuffled, shuffle, slots[..]) ==
                ReorderPrefix(expected, actualSetClausePosition, oldPos)
    {
      var setClause := expected[oldPos];
      if setClause.name in actualSetClausePosition {
        var newPos := actualSetClausePosition[setClause.name];
        if oldPos != newPos {
          if setClause.expr.SQLVal? {
            shuffled := true;
            slots[newPos] := Some(Rewrite(setClause, newPos));
            shuffle := shuffle[oldPos := newPos];
          }
        }
      }
    }
    expectedSetClause := slots[..];
  }

  method QueryMatcherSqlParser(parse: Parser, engine: RegexEngine, expectedSQL: string, actualSQL: string)
    returns (r: Outcome)
    ensures r == SqlParserMatch(parse, engine, expectedSQL, actualSQL)
  {
    var parsedExpected := parse(expectedSQL);
    if parsedExpected.Failure? {
      return Mismatch("expectedSQL parse error: " + parsedExpected.error);
    }
    var parsedActual := parse(actualSQL);
    if parsedActual.Failure? {
      return Mismatch("actualSQL parse error: " + parsedActual.error);
    }
    var expected, actual := parsedExpected.value, parsedActual.value;
    if expected.Update? && actual.Update? && |expected.exprs| == |actual.exprs| {
      var actualSetClausePosition := ActualSetClausePositions(actual.exprs);
      var shuffled, shuffle, expectedSetClause := ReorderSetClauses(expected.exprs, actualSetClausePosition);
      var expectedExprs := if shuffled then RenderSlots(expectedSetClause) else RenderClauses(expected.exprs);
      var buf1 := Rendered(expected.table, expectedExprs, expected.where);
      var buf2 := Rendered(actual.table, RenderClauses(actual.exprs), actual.where);
      if buf1 == buf2 && shuffled {
        return Shuffle(shuffle);
      }
    }
    r := Match(QueryMatcherRegexp(engine), expectedSQL, actualSQL);
  }

  /** The fallback of line 134 is the regular-expression matcher on the original strings. */
  lemma FallbackIsRegexp(engine: RegexEngine, expectedSQL: string, actualSQL: string)
    ensures Match(QueryMatcherRegexp(engine), expectedSQL, actualSQL) == RegexpMatch(engine, expectedSQL, actualSQL)
  {
  }

  /** A parse failure on either side is reported as such, and the regular-expression library is not consulted. */
  lemma SqlParserParseErrors(parse: Parser, engine: RegexEngine, expectedSQL: string, actualSQL: string)
    ensures parse(expectedSQL).Failure? ==>
              SqlParserMatch(parse, engine, expectedSQL, actualSQL) ==
              Mismatch("expectedSQL parse error: " + parse(expectedSQL).error)
    ensures parse(expectedSQL).Success? && parse(actualSQL).Failure? ==>
              SqlParserMatch(parse, engine, expectedSQL, actualSQL) ==
              Mismatch("actualSQL parse error: " + parse(actualSQL).error)
    ensures parse(expectedSQL).Failure? || parse(actualSQL).Failure? ==>
              forall engine' :: SqlParserMatch(parse, engine', expectedSQL, actualSQL) ==
                                SqlParserMatch(parse, engine, expectedSQL, actualSQL)
  {
  }

  /** Statements that are not both UPDATEs with equally many SET clauses get exactly the regular-expression verdict. */
  lemma SqlParserShapeFallback(parse: Parser, engine: RegexEngine, expectedSQL: string, actualSQL: string,
                               expected: Statement, actual: Statement)
    requires parse(expectedSQL) == Success(expected) && parse(actualSQL) == Success(actual)
    requires !(expected.Update? && actual.Update? && |expected.exprs| == |actual.exprs|)
    ensures SqlParserMatch(parse, engine, expectedSQL, actualSQL) == RegexpMatch(engine, expectedSQL, actualSQL)
  {
  }

  /**
    The shuffle signal is returned only for two UPDATEs that print alike but
    for the order of their SET clauses: the map is non-empty, it is the
    computed one, every clause is moved (so the map is a permutation of the
    clause positions), and each moved expected clause, renamed, prints like
    the actual clause at its new position.
  */
  lemma SqlParserShuffleSound(parse: Parser, engine: RegexEngine, expectedSQL: string, actualSQL: string,
                              expected: Statement, actual: Statement, m: map<int, int>)
    requires parse(expectedSQL) == Success(expected) && parse(actualSQL) == Success(actual)
    requires SqlParserMatch(parse, engine, expectedSQL, actualSQL) == Shuffle(m)
    ensures expected.Update? && actual.Update? && |expected.exprs| == |actual.exprs|
    ensures expected.table == actual.table && expected.where == actual.where
    ensures m != map[] && m == Reorder(expected.exprs, Positions(actual.exprs)).shuffle
    ensures PermutationOf(m, |expected.exprs|)
    ensures forall o :: o in m ==>
              && o != m[o] && expected.exprs[o].name == actual.exprs[m[o]].name
              && expected.exprs[o].expr.SQLVal?
              && RenderClause(actual.exprs[m[o]]) == RenderClause(Rewrite(expected.exprs[o], m[o]))
  {
    if !(expected.Update? && actual.Update? && |expected.exprs| == |actual.exprs|) {
      SqlParserShapeFallback(parse, engine, expectedSQL, actualSQL, expected, actual);
      assert false;
    }
    var n := |expected.exprs|;
    var pos := Positions(actual.exprs);
    var rd := Reorder(expected.exprs, pos);
    if !(rd.shuffled && RenderSlots(rd.slots) == RenderClauses(actual.exprs)) {
      FallbackIsRegexp(engine, expectedSQL, actualSQL);
      assert false;
    }
    assert m == rd.shuffle;
    forall j | 0 <= j < n
      ensures Covered(m, j)
    {
      assert RenderSlots(rd.slots)[j] == RenderClauses(actual.exprs)[j];
      if !Covered(m, j) {
        ReorderEmptySlot(expected.exprs, pos, j);
        assert false;
      }
    }
    CoveringMapIsPermutation(m, n);
    forall o | o in m
      ensures RenderClause(actual.exprs[m[o]]) == RenderClause(Rewrite(expected.exprs[o], m[o]))
    {
      assert LastWriter(m, o);
      ReorderLastWriter(expected.exprs, pos, o);
      assert RenderSlots(rd.slots)[m[o]] == RenderClauses(actual.exprs)[m[o]];
    }
  }

  /**
    Conversely, the matcher detects every reordering it can print away: two
    UPDATEs with the same table and WHERE and distinct expected columns, where
    every expected clause is a literal whose column sits elsewhere in the
    actual statement and, renamed to its new placeholder, prints like the
    actual clause there, get the shuffle signal with the computed map.
  */
  lemma SqlParserDetectsReordering(parse: Parser, engine: RegexEngine, expectedSQL: string, actualSQL: string,
                                   expected: Statement, actual: Statement)
    requires parse(expectedSQL) == Success(expected) && parse(actualSQL) == Success(actual)
    requires expected.Update? && actual.Update? && |expected.exprs| == |actual.exprs| > 0
    requires expected.table == actual.table && expected.where == actual.where
    requires DistinctNames(expected.exprs)
    requires forall o :: 0 <= o < |expected.exprs| ==>
               && Moves(expected.exprs[o], o, Positions(actual.exprs))
               && RenderClause(actual.exprs[Positions(actual.exprs)[expected.exprs[o].name]]) ==
                  RenderClause(Rewrite(expected.exprs[o], Positions(actual.exprs)[expected.exprs[o].name]))
    ensures SqlParserMatch(parse, engine, expectedSQL, actualSQL) ==
            Shuffle(Reorder(expected.exprs, Positions(actual.exprs)).shuffle)
  {
    var n := |expected.exprs|;
    var pos := Positions(actual.exprs);
    var rd := Reorder(expected.exprs, pos);
    var m := rd.shuffle;
    assert 0 in m;
    ReorderInjective(expected.exprs, actual.exprs);
    InjectiveMapCovers(m, n);
    forall j | 0 <= j < n
      ensures RenderSlots(rd.slots)[j] == RenderClauses(actual.exprs)[j]
    {
      assert Covered(m, j);
      var o :| o in m && m[o] == j;
      assert LastWriter(m, o);
      ReorderLastWriter(expected.exprs, pos, o);
    }
    assert RenderSlots(rd.slots) == RenderClauses(actual.exprs);
    assert RenderExpected(expected, rd) == RenderActual(actual);
  }

  /**
    A clause that stays where it is (same position, a column missing from the
    actual statement, or a value that is not a literal) leaves its slot empty.
    Rendered as an absent clause, that slot never prints like an actual one,
    so the shuffle signal is never returned and the regular-expression
    verdict stands.
  */
  lemma SqlParserNoPartialShuffle(parse: Parser, engine: RegexEngine, expectedSQL: string, actualSQL: string,
                                  expected: Statement, actual: Statement, i: nat)
    requires parse(expectedSQL) == Success(expected) && parse(actualSQL) == Success(actual)
    requires expected.Update? && actual.Update? && |expected.exprs| == |actual.exprs|
    requires i < |expected.exprs| && !Moves(expected.exprs[i], i, Positions(actual.exprs))
    ensures SqlParserMatch(parse, engine, expectedSQL, actualSQL) == RegexpMatch(engine, expectedSQL, actualSQL)
  {
    var r := SqlParserMatch(parse, engine, expectedSQL, actualSQL);
    if r.Shuffle? {
      SqlParserShuffleSound(parse, engine, expectedSQL, actualSQL, expected, actual, r.shuffle);
      assert false;
    }
  }

  /**
    End to end: when the matcher signals a shuffle, and the declared and the
    observed arguments bind the same value to the same column (SET clause `i`
    takes argument `i`, and the arguments after the SET clauses agree), then
    ShuffleArgs applied to the declared arguments yields the observed ones.
  */
  lemma SqlParserAlignsArguments<T>(parse: Parser, engine: RegexEngine, expectedSQL: string, actualSQL: string,
                                    expected: Statement, actual: Statement, m: map<int, int>,
                                    declared: seq<T>, observed: seq<T>, nilValue: T)
    requires parse(expectedSQL) == Success(expected) && parse(actualSQL) == Success(actual)
    requires expected.Update? && actual.Update?
    requires SqlParserMatch(parse, engine, expectedSQL, actualSQL) == Shuffle(m)
    requires |declared| == |observed| >= |expected.exprs|
    requires forall i, j ::
               (0 <= i < |expected.exprs| && 0 <= j < |actual.exprs| && expected.exprs[i].name == actual.exprs[j].name) ==>
               declared[i] == observed[j]
    requires forall i :: |expected.exprs| <= i < |declared| ==> declared[i] == observed[i]
    ensures InRange(m, |declared|)
    ensures Shuffled(m, declared, nilValue) == observed
  {
    SqlParserShuffleSound(parse, engine, expectedSQL, actualSQL, expected, actual, m);
    AlignedByPermutation(m, expected.exprs, actual.exprs, declared, observed, nilValue);
  }

  /** Reordering the declared arguments by a permutation that matches columns lines them up with the observed ones. */
  lemma AlignedByPermutation<T>(m: map<int, int>, expectedExprs: seq<UpdateExpr>, actualExprs: seq<UpdateExpr>,
                                declared: seq<T>, observed: seq<T>, nilValue: T)
    requires |expectedExprs| == |actualExprs| && PermutationOf(m, |expectedExprs|)
    requires forall o :: o in m ==> expectedExprs[o].name == actualExprs[m[o]].name
    requires |declared| == |observed| >= |expectedExprs|
    requires forall i, j ::
               (0 <= i < |expectedExprs| && 0 <= j < |actualExprs| && expectedExprs[i].name == actualExprs[j].name) ==>
               declared[i] == observed[j]
    requires forall i :: |expectedExprs| <= i < |declared| ==> declared[i] == observed[i]
    ensures InRange(m, |declared|)
    ensures Shuffled(m, declared, nilValue) == observed
  {
    var n := |expectedExprs|;
    PermutationTargets(m, n, |declared|);
    ShuffledInjective(m, declared, nilValue);
    var r := Shuffled(m, declared, nilValue);
    forall j | 0 <= j < |observed|
      ensures r[j] == observed[j]
    {
      if j < n {
        assert Covered(m, j);
        var o :| o in m && m[o] == j;
        assert Target(m, o) == j;
      } else {
        assert Target(m, j) == j;
      }
    }
  }
}
