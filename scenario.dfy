/**
  The scenario of `TestShuffleArgsWithSqlparser` in examples/basic/basic_test.go:
  the expectation `UPDATE products SET views = ?, name = ?, price = ? WHERE id = ?`
  with arguments (3, "book", 3.5, 1) meets the call
  `UPDATE products SET name = ?, price = ?, views = ? WHERE id = ?` with
  ("book", 3.5, 3, 1). The argument values are left generic.
*/
module Scenario {
  import opened Wrappers
  import opened Matchers
  import opened Shuffle
  import opened SqlParserMatcher

  const ExpectedSQL := "UPDATE products SET views = ?, name = ?, price = ? WHERE id = ?"
  const ActualSQL := "UPDATE products SET name = ?, price = ?, views = ? WHERE id = ?"

  /**
    `name = ?` as the parser yields it for the `pos`-th placeholder of a
    statement: the library numbers placeholders `:v1`, `:v2`, ... from left to
    right. That numbering is an assumption about the parser.
  */
  function Param(name: string, pos: nat): UpdateExpr
  {
    UpdateExpr("", name, SQLVal(ValArg, Placeholder(pos)))
  }

  const ExpectedStatement := Update("products", [Param("views", 0), Param("name", 1), Param("price", 2)], "id = :v4")
  const ActualStatement := Update("products", [Param("name", 0), Param("price", 1), Param("views", 2)], "id = :v4")

  const ScenarioShuffleMap := map[0 := 2, 1 := 0, 2 := 1]

  /** The walk over the expected clauses moves every clause and fills every slot with the actual clause. */
  lemma ScenarioReorder()
    ensures Positions(ActualStatement.exprs) == map["name" := 0, "price" := 1, "views" := 2]
    ensures var act := ActualStatement.exprs;
            Reorder(ExpectedStatement.exprs, Positions(act)) ==
            Reordering(true, ScenarioShuffleMap, [Some(act[0]), Some(act[1]), Some(act[2])])
  {
    var exp, act := ExpectedStatement.exprs, ActualStatement.exprs;
    var pos := Positions(act);
    assert pos == map["name" := 0, "price" := 1, "views" := 2];
    var r0 := ReorderPrefix(exp, pos, 0);
    var r1 := ReorderPrefix(exp, pos, 1);
    assert r1 == Reordering(true, map[0 := 2], r0.slots[2 := Some(Rewrite(exp[0], 2))]);
    var r2 := ReorderPrefix(exp, pos, 2);
    assert r2 == Reordering(true, map[0 := 2, 1 := 0], r1.slots[0 := Some(Rewrite(exp[1], 0))]);
    var r3 := ReorderPrefix(exp, pos, 3);
    assert r3 == Reordering(true, ScenarioShuffleMap, r2.slots[1 := Some(Rewrite(exp[2], 1))]);
  }

  /** For any parser that yields the two statements above, the matcher signals the shuffle {0:2, 1:0, 2:1}. */
  lemma ScenarioShuffle(parse: Parser, engine: RegexEngine)
    requires parse(ExpectedSQL) == Success(ExpectedStatement) && parse(ActualSQL) == Success(ActualStatement)
    ensures SqlParserMatch(parse, engine, ExpectedSQL, ActualSQL) == Shuffle(ScenarioShuffleMap)
  {
    var act := ActualStatement.exprs;
    ScenarioReorder();
    assert RenderSlots([Some(act[0]), Some(act[1]), Some(act[2])]) == RenderClauses(act);
  }

  /** ShuffleArgs with that map turns (3, "book", 3.5, 1) into ("book", 3.5, 3, 1). */
  lemma ScenarioArguments<T>(views: T, name: T, price: T, id: T, nilValue: T)
    ensures Shuffled(ScenarioShuffleMap, [views, name, price, id], nilValue) == [name, price, views, id]
  {
    var args := [views, name, price, id];
    assert ShuffledPrefix(ScenarioShuffleMap, args, 1, nilValue) == [nilValue, nilValue, views, nilValue];
    assert ShuffledPrefix(ScenarioShuffleMap, args, 2, nilValue) == [name, nilValue, views, nilValue];
    assert ShuffledPrefix(ScenarioShuffleMap, args, 3, nilValue) == [name, price, views, nilValue];
  }

  /** The test as a whole: match, then reconcile the declared arguments in place; they equal the actual ones. */
  method TestShuffleArgsWithSqlparser<T>(parse: Parser, engine: RegexEngine, views: T, name: T, price: T, id: T,
                                         nilValue: T)
    returns (declared: array<T>)
    requires parse(ExpectedSQL) == Success(ExpectedStatement) && parse(ActualSQL) == Success(ActualStatement)
    ensures declared[..] == [name, price, views, id]
  {
    ScenarioShuffle(parse, engine);
    var r := QueryMatcherSqlParser(parse, engine, ExpectedSQL, ActualSQL);
    declared := new T[] [views, name, price, id];
    ReconcileScenarioArguments(r.shuffle, declared, nilValue);
  }

  /** The reconciliation step of the test, once the matcher has signalled {0:2, 1:0, 2:1}. */
  method ReconcileScenarioArguments<T>(shuffle: map<int, int>, declared: array<T>, nilValue: T)
    requires shuffle == ScenarioShuffleMap && declared.Length == 4
    modifies declared
    ensures declared[..] == [old(declared[1]), old(declared[2]), old(declared[0]), old(declared[3])]
  {
    ghost var before := declared[..];
    assert before == [before[0], before[1], before[2], before[3]];
    ScenarioArguments(before[0], before[1], before[2], before[3], nilValue);
    ShuffleArgs(shuffle, declared, nilValue);
  }

  /**
    A moved literal joins the map as well. `UPDATE t SET a = 1, b = ?` meets
    `UPDATE t SET b = ?, a = ?`: the literal `1`, renamed to `:v2`, prints like
    the placeholder it meets, so the matcher signals {0:1, 1:0}. The expectation
    binds a single argument, and that map sends position 0 to position 1, which
    a list of one argument does not have: ShuffleArgs would index out of range.
  */
  const LiteralExpectedSQL := "UPDATE t SET a = 1, b = ?"
  const LiteralActualSQL := "UPDATE t SET b = ?, a = ?"
  const LiteralExpected := Update("t", [UpdateExpr("", "a", SQLVal(IntVal, "1")), Param("b", 0)], "")
  const LiteralActual := Update("t", [Param("b", 0), Param("a", 1)], "")

  lemma MovedLiteralShuffle(parse: Parser, engine: RegexEngine)
    requires parse(LiteralExpectedSQL) == Success(LiteralExpected) && parse(LiteralActualSQL) == Success(LiteralActual)
    ensures SqlParserMatch(parse, engine, LiteralExpectedSQL, LiteralActualSQL) == Shuffle(map[0 := 1, 1 := 0])
    ensures !InRange(map[0 := 1, 1 := 0], 1)
  {
    var exp, act := LiteralExpected.exprs, LiteralActual.exprs;
    var pos := Positions(act);
    assert pos == map["b" := 0, "a" := 1];
    var r0 := ReorderPrefix(exp, pos, 0);
    var r1 := ReorderPrefix(exp, pos, 1);
    assert r1 == Reordering(true, map[0 := 1], r0.slots[1 := Some(Rewrite(exp[0], 1))]);
    var r2 := ReorderPrefix(exp, pos, 2);
    assert r2 == Reordering(true, map[0 := 1, 1 := 0], r1.slots[0 := Some(Param("b", 0))]);
    assert RenderClause(Rewrite(exp[0], 1)) == RenderClause(act[1]);
    assert RenderSlots(r2.slots) == RenderClauses(act);
  }
}
