/**
 * Queries (GameplayTagQuery): a root expression and the rule that an empty
 * query matches any container.  `IsEmpty` as written returns the root
 * expression's `IsValid` itself, so the emptiness test is inverted; the
 * corrected test is defined beside it.
 */
module Queries {
  import opened TagSets
  import opened QueryExpressions

  /** A query: its root expression. */
  datatype Query = Query(expr: Expr)

  /** A new query: a new (undefined) root expression. */
  const DefaultQuery := Query(DefaultExpr)

  /** `IsEmpty`, as written: the root expression's `IsValid`. */
  predicate IsEmpty(q: Query)
  {
    IsValid(q.expr)
  }

  /** `Build`: a query around the given root expression. */
  function Build(expression: Expr): (q: Query)
    ensures q.expr == expression
  {
    Query(expression)
  }

  /** `Matches`: an empty query matches; otherwise the root expression decides. */
  predicate Matches(q: Query, c: TagSetValue)
  {
    IsEmpty(q) || Evaluate(q.expr, c)
  }

  /**
   * As written, a query built from any valid expression matches every
   * container, whatever the expression says.
   */
  lemma ValidQueryMatchesEverything(e: Expr, c: TagSetValue)
    requires IsValid(e)
    ensures Matches(Build(e), c)
  {
  }

  /** As written, the default query is not empty and matches no container. */
  lemma {:induction false} DefaultQueryMatchesNothing(c: TagSetValue)
    ensures !IsEmpty(DefaultQuery)
    ensures !Matches(DefaultQuery, c)
  {
    UndefinedNeverMatches(DefaultExpr, c);
  }

  /** The corrected `IsEmpty`: the root expression is not valid. */
  predicate IsEmptyCorrected(q: Query)
  {
    !IsValid(q.expr)
  }

  /** `Matches` with the corrected emptiness test. */
  predicate MatchesCorrected(q: Query, c: TagSetValue)
  {
    IsEmptyCorrected(q) || Evaluate(q.expr, c)
  }

  /**
   * With the corrected test, an empty query (the default one among them)
   * matches every container and a non-empty one matches exactly when its
   * root expression does.
   */
  lemma {:induction false} CorrectedQueryMatchesByExpression(q: Query, c: TagSetValue)
    ensures IsEmptyCorrected(q) ==> MatchesCorrected(q, c)
    ensures !IsEmptyCorrected(q) ==> (MatchesCorrected(q, c) <==> Evaluate(q.expr, c))
    ensures IsEmptyCorrected(DefaultQuery) && MatchesCorrected(DefaultQuery, c)
  {
  }
}
