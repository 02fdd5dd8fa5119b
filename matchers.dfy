/**
  The textual matcher strategies of query.go and the outcome every matcher
  returns. A Go matcher returns an `error`: nil for a match, an ordinary
  error with a diagnostic for a mismatch, or an `*ErrShuffle` carrying the
  old-position to new-position map when the arguments must be reordered.
*/
module Matchers {
  import opened Wrappers
  import opened Strip

  datatype Outcome = Matched | Mismatch(msg: string) | Shuffle(shuffle: map<int, int>)

  /**
    The regular-expression library, left uninterpreted: `compileError(p)` is
    the error `regexp.Compile(p)` returns (None when `p` compiles), and
    `matchString(p, s)` says whether the compiled `p` matches somewhere in `s`.
  */
  datatype RegexEngine = RegexEngine(compileError: string -> Option<string>, matchString: (string, string) -> bool)

  /** `QueryMatcherFunc`: an ordinary function used as a matcher. */
  type MatcherFunc = (string, string) -> Outcome

  /** `QueryMatcherFunc.Match` calls the function it wraps. */
  function Match(f: MatcherFunc, expectedSQL: string, actualSQL: string): Outcome
  {
    f(expectedSQL, actualSQL)
  }

  /** The body of `QueryMatcherRegexp`. */
  function RegexpMatch(engine: RegexEngine, expectedSQL: string, actualSQL: string): (r: Outcome)
    ensures !r.Shuffle?
    ensures engine.compileError(StripQuery(expectedSQL)).Some? ==>
              r == Mismatch(engine.compileError(StripQuery(expectedSQL)).value)
    ensures engine.compileError(StripQuery(expectedSQL)).None? ==>
              (r == Matched <==> engine.matchString(StripQuery(expectedSQL), StripQuery(actualSQL)))
  {
    var expectedText := StripQuery(expectedSQL);
    var actualText := StripQuery(actualSQL);
    match engine.compileError(expectedText)
    case Some(err) => Mismatch(err)
    case None =>
      if !engine.matchString(expectedText, actualText) then
        Mismatch("could not match actual sql: \"" + actualText + "\" with expected regexp \"" + expectedText + "\"")
      else
        Matched
  }

  /**
    `QueryMatcherRegexp`, the default matcher, for a given regular-expression
    library: it never asks for a shuffle, and for a pattern that compiles it
    matches exactly when the stripped pattern matches the stripped statement.
  */
  function QueryMatcherRegexp(engine: RegexEngine): (f: MatcherFunc)
    ensures forall expectedSQL, actualSQL :: !f(expectedSQL, actualSQL).Shuffle?
    ensures forall expectedSQL, actualSQL :: engine.compileError(StripQuery(expectedSQL)).None? ==>
              (f(expectedSQL, actualSQL) == Matched <==> engine.matchString(StripQuery(expectedSQL), StripQuery(actualSQL)))
  {
    (expectedSQL, actualSQL) => RegexpMatch(engine, expectedSQL, actualSQL)
  }

  /** The body of `QueryMatcherEqual`. */
  function EqualMatch(expectedSQL: string, actualSQL: string): (r: Outcome)
    ensures r == Matched <==> StripQuery(expectedSQL) == StripQuery(actualSQL)
    ensures r != Matched ==>
              r == Mismatch("actual sql: \"" + StripQuery(actualSQL) + "\" does not equal to expected \"" +
                            StripQuery(expectedSQL) + "\"")
  {
    var expectedText := StripQuery(expectedSQL);
    var actualText := StripQuery(actualSQL);
    if actualText != expectedText then
      Mismatch("actual sql: \"" + actualText + "\" does not equal to expected \"" + expectedText + "\"")
    else
      Matched
  }

  /** `QueryMatcherEqual`: it matches exactly the statements whose stripped texts are equal, and never asks for a shuffle. */
  function QueryMatcherEqual(): (f: MatcherFunc)
    ensures forall expectedSQL, actualSQL :: f(expectedSQL, actualSQL) == Matched <==> StripQuery(expectedSQL) == StripQuery(actualSQL)
    ensures forall expectedSQL, actualSQL :: !f(expectedSQL, actualSQL).Shuffle?
  {
    (expectedSQL, actualSQL) => EqualMatch(expectedSQL, actualSQL)
  }

  /** The equality matcher is reflexive and symmetric in whether it matches. */
  lemma EqualReflexiveSymmetric(a: string, b: string)
    ensures EqualMatch(a, a) == Matched
    ensures EqualMatch(a, b) == Matched <==> EqualMatch(b, a) == Matched
  {
  }

  /** Re-laying out one run of whitespace in either statement does not change the equality matcher's verdict. */
  lemma EqualIgnoresLayout(a: string, w: string, w': string, b: string, other: string)
    requires w != [] && AllSpace(w) && w' != [] && AllSpace(w')
    ensures EqualMatch(a + w + b, other) == EqualMatch(a + w' + b, other)
    ensures EqualMatch(other, a + w + b) == EqualMatch(other, a + w' + b)
  {
    StripQueryIgnoresLayout(a, w, w', b);
  }

  /** The regular-expression verdict depends on the statements only through their stripped texts. */
  lemma RegexpDependsOnStrippedText(engine: RegexEngine, expectedSQL: string, actualSQL: string,
                                    expectedSQL': string, actualSQL': string)
    requires StripQuery(expectedSQL) == StripQuery(expectedSQL') && StripQuery(actualSQL) == StripQuery(actualSQL')
    ensures RegexpMatch(engine, expectedSQL, actualSQL) == RegexpMatch(engine, expectedSQL', actualSQL')
  {
  }

  /** Likewise for the equality verdict. */
  lemma EqualDependsOnStrippedText(expectedSQL: string, actualSQL: string, expectedSQL': string, actualSQL': string)
    requires StripQuery(expectedSQL) == StripQuery(expectedSQL') && StripQuery(actualSQL) == StripQuery(actualSQL')
    ensures EqualMatch(expectedSQL, actualSQL) == EqualMatch(expectedSQL', actualSQL')
  {
  }

  /** The regular-expression matcher sees only the normalized statements, so normalizing first changes nothing. */
  lemma RegexpSeesStrippedText(engine: RegexEngine, expectedSQL: string, actualSQL: string)
    ensures RegexpMatch(engine, StripQuery(expectedSQL), StripQuery(actualSQL)) == RegexpMatch(engine, expectedSQL, actualSQL)
  {
    StripQueryIdempotent(expectedSQL);
    StripQueryIdempotent(actualSQL);
    RegexpDependsOnStrippedText(engine, StripQuery(expectedSQL), StripQuery(actualSQL), expectedSQL, actualSQL);
  }

  /** Likewise for the equality matcher. */
  lemma EqualSeesStrippedText(expectedSQL: string, actualSQL: string)
    ensures EqualMatch(StripQuery(expectedSQL), StripQuery(actualSQL)) == EqualMatch(expectedSQL, actualSQL)
  {
    StripQueryIdempotent(expectedSQL);
    StripQueryIdempotent(actualSQL);
    EqualDependsOnStrippedText(StripQuery(expectedSQL), StripQuery(actualSQL), expectedSQL, actualSQL);
  }
}
