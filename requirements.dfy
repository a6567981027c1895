/**
 * Requirements (GameplayTagRequirement): tags a container must all have,
 * tags it must have none of, and a query it must satisfy; and the
 * conversion of the two tag fields into an equivalent query.
 */
module Requirements {
  import opened TagSets
  import opened Containers
  import opened QueryExpressions
  import opened Queries

  /** What `RequirementsMet` decides, as written (with the `IsEmpty` of `Queries`). */
  predicate Met(require: TagSetValue, ignore: TagSetValue, tagQuery: Query, c: TagSetValue)
  {
    var hasRequireMet := HasAllOf(c, require);
    var hasIgnoreMet := HasAnyOf(c, ignore);
    var hasQueryMet := Queries.IsEmpty(tagQuery) || Matches(tagQuery, c);
    hasRequireMet && !hasIgnoreMet && hasQueryMet
  }

  /**
   * As written, the query part of a requirement is satisfied by every
   * container when the query is valid, and otherwise decided by its root
   * expression.
   */
  lemma MetSpec(require: TagSetValue, ignore: TagSetValue, tagQuery: Query, c: TagSetValue)
    ensures Met(require, ignore, tagQuery, c) <==>
      && (forall i | 0 <= i < |require.gameplayTags| :: HasTag(c, require.gameplayTags[i]))
      && (forall i | 0 <= i < |ignore.gameplayTags| :: !HasTag(c, ignore.gameplayTags[i]))
      && (IsValid(tagQuery.expr) || Evaluate(tagQuery.expr, c))
  {
  }

  /**
   * As written, a requirement that keeps its default query is met by no
   * container, whatever its tag fields: the default query is not "empty"
   * and matches nothing.
   */
  lemma DefaultQueryNeverMet(require: TagSetValue, ignore: TagSetValue, c: TagSetValue)
    ensures !Met(require, ignore, DefaultQuery, c)
  {
    DefaultQueryMatchesNothing(c);
  }

  /**
   * With the corrected emptiness test, a requirement that keeps its default
   * query is met exactly by the containers that have all required tags and
   * none of the ignored ones.
   */
  lemma DefaultQueryMetCorrected(require: TagSetValue, ignore: TagSetValue, c: TagSetValue)
    ensures MetCorrected(require, ignore, DefaultQuery, c) <==> HasAllOf(c, require) && !HasAnyOf(c, ignore)
  {
    CorrectedQueryMatchesByExpression(DefaultQuery, c);
  }

  /** `RequirementsMet` with the corrected emptiness test of the query. */
  predicate MetCorrected(require: TagSetValue, ignore: TagSetValue, tagQuery: Query, c: TagSetValue)
  {
    HasAllOf(c, require) && !HasAnyOf(c, ignore) && (IsEmptyCorrected(tagQuery) || MatchesCorrected(tagQuery, c))
  }

  /**
   * The query `ConvertTagFieldsToTagQuery` builds: none when both containers
   * are empty; otherwise an "all expressions" root over an "all tags"
   * expression of the required tags (if any) and a "no tags" expression of
   * the ignored tags (if any), in that order.
   */
  function ConvertedQuery(require: TagSetValue, ignore: TagSetValue): Query
  {
    var hasRequire := !TagSets.IsEmpty(require);
    var hasIgnore := !TagSets.IsEmpty(ignore);
    if !hasRequire && !hasIgnore then DefaultQuery
    else
      var requireExpression := Expr(AllTagsMatch, [], require.gameplayTags);
      var ignoreExpression := Expr(NoTagsMatch, [], ignore.gameplayTags);
      var children :=
        if hasRequire && hasIgnore then [requireExpression, ignoreExpression]
        else if hasRequire then [requireExpression]
        else [ignoreExpression];
      Build(Expr(AllExprMatch, children, []))
  }

  /**
   * The converted query's root expression holds exactly when the container
   * has all required tags and none of the ignored ones (and some field is
   * non-empty); and then the root is valid.
   */
  lemma ConvertedQueryMeaning(require: TagSetValue, ignore: TagSetValue, c: TagSetValue)
    ensures Evaluate(ConvertedQuery(require, ignore).expr, c) <==>
      (!TagSets.IsEmpty(require) || !TagSets.IsEmpty(ignore)) && HasAllOf(c, require) && !HasAnyOf(c, ignore)
    ensures IsValid(ConvertedQuery(require, ignore).expr) <==> !TagSets.IsEmpty(require) || !TagSets.IsEmpty(ignore)
  {
    TagKindsAreContainerTests(require, c);
    TagKindsAreContainerTests(ignore, c);
    var q := ConvertedQuery(require, ignore);
    if TagSets.IsEmpty(require) && TagSets.IsEmpty(ignore) {
      UndefinedNeverMatches(q.expr, c);
    } else if !TagSets.IsEmpty(require) && !TagSets.IsEmpty(ignore) {
      assert q.expr.exprSet[0] == Expr(AllTagsMatch, [], require.gameplayTags);
      assert q.expr.exprSet[1] == Expr(NoTagsMatch, [], ignore.gameplayTags);
    } else if !TagSets.IsEmpty(require) {
      assert q.expr.exprSet[0] == Expr(AllTagsMatch, [], require.gameplayTags);
    } else {
      assert q.expr.exprSet[0] == Expr(NoTagsMatch, [], ignore.gameplayTags);
    }
  }

  /** As written, the converted query of a requirement with some tags matches every container. */
  lemma ConvertedQueryMatchesEverything(require: TagSetValue, ignore: TagSetValue, c: TagSetValue)
    requires !TagSets.IsEmpty(require) || !TagSets.IsEmpty(ignore)
    ensures Matches(ConvertedQuery(require, ignore), c)
  {
    ConvertedQueryMeaning(require, ignore, c);
  }

  /**
   * With the corrected emptiness test, the converted query matches exactly
   * the containers that meet the tag fields, so a requirement and its
   * converted query agree on every container.
   */
  lemma ConvertedQueryAgreesCorrected(require: TagSetValue, ignore: TagSetValue, c: TagSetValue)
    ensures MatchesCorrected(ConvertedQuery(require, ignore), c) <==> HasAllOf(c, require) && !HasAnyOf(c, ignore)
    ensures MatchesCorrected(ConvertedQuery(require, ignore), c) <==> MetCorrected(require, ignore, DefaultQuery, c)
  {
    ConvertedQueryMeaning(require, ignore, c);
    CorrectedQueryMatchesByExpression(DefaultQuery, c);
  }

  class GameplayTagRequirement {
    /** `RequireTags`: every one of these must be present. */
    var requireTags: GameplayTagContainer
    /** `IgnoreTags`: none of these may be present. */
    var ignoreTags: GameplayTagContainer
    var tagQuery: Query

    /** A new requirement: two new empty containers and a new query. */
    constructor()
      ensures fresh(requireTags) && fresh(ignoreTags) && requireTags != ignoreTags
      ensures requireTags.View() == Empty && ignoreTags.View() == Empty && tagQuery == DefaultQuery
      ensures !IsEmpty()
    {
      requireTags := new GameplayTagContainer();
      ignoreTags := new GameplayTagContainer();
      tagQuery := DefaultQuery;
    }

    /**
     * `IsEmpty`: both containers empty and the query's `IsEmpty` (as
     * written); an empty requirement is met by every container.
     */
    predicate IsEmpty()
      reads this, requireTags, ignoreTags
      ensures IsEmpty() ==> forall c :: Met(requireTags.View(), ignoreTags.View(), tagQuery, c)
    {
      TagSets.IsEmpty(requireTags.View()) && TagSets.IsEmpty(ignoreTags.View()) && Queries.IsEmpty(tagQuery)
    }

    /** `RequirementsMet` on the container to check. */
    method RequirementsMet(containerToCheck: GameplayTagContainer) returns (r: bool)
      ensures r == Met(requireTags.View(), ignoreTags.View(), tagQuery, containerToCheck.View())
    {
      var hasRequireMet := containerToCheck.HasAll(requireTags);
      var hasIgnoreMet := containerToCheck.HasAny(ignoreTags);
      var hasQueryMet := Queries.IsEmpty(tagQuery) || Matches(tagQuery, containerToCheck.View());
      r := hasRequireMet && !hasIgnoreMet && hasQueryMet;
    }

    /** `ConvertTagFieldsToTagQuery`: build the query with the expression builders. */
    method ConvertTagFieldsToTagQuery() returns (query: Query)
      ensures query == ConvertedQuery(requireTags.View(), ignoreTags.View())
    {
      var hasRequire := !TagSets.IsEmpty(requireTags.View());
      var hasIgnore := !TagSets.IsEmpty(ignoreTags.View());
      if !hasRequire && !hasIgnore {
        return DefaultQuery;
      }
      var requireExpression := new QueryExpression();
      var ignoreExpression := new QueryExpression();
      var rootExpression := new QueryExpression();
      var step: QueryExpression;
      ghost var require, ignore := requireTags.View(), ignoreTags.View();
      ghost var requireValue := Expr(AllTagsMatch, [], require.gameplayTags);
      ghost var ignoreValue := Expr(NoTagsMatch, [], ignore.gameplayTags);
      if hasRequire && hasIgnore {
        step := requireExpression.AllTagsMatch();
        step := step.AddTags(requireTags);
        assert requireExpression.View() == requireValue;
        step := ignoreExpression.NoTagsMatch();
        step := step.AddTags(ignoreTags);
        assert ignoreExpression.View() == ignoreValue;
        step := rootExpression.AllExprMatch();
        step := step.AddExpr(requireExpression);
        assert rootExpression.View() == Expr(AllExprMatch, [requireValue], []);
        step := step.AddExpr(ignoreExpression);
        assert rootExpression.View() == Expr(AllExprMatch, [requireValue, ignoreValue], []);
      } else if hasRequire {
        step := requireExpression.AllTagsMatch();
        step := step.AddTags(requireTags);
        assert requireExpression.View() == requireValue;
        step := rootExpression.AllExprMatch();
        step := step.AddExpr(requireExpression);
        assert rootExpression.View() == Expr(AllExprMatch, [requireValue], []);
      } else {
        step := ignoreExpression.NoTagsMatch();
        step := step.AddTags(ignoreTags);
        assert ignoreExpression.View() == ignoreValue;
        step := rootExpression.AllExprMatch();
        step := step.AddExpr(ignoreExpression);
        assert rootExpression.View() == Expr(AllExprMatch, [ignoreValue], []);
      }
      assert rootExpression.View() == ConvertedQuery(require, ignore).expr;
      query := Build(rootExpression.View());
      assert requireTags.gameplayTags == require.gameplayTags && requireTags.parentTags == require.parentTags;
      assert ignoreTags.gameplayTags == ignore.gameplayTags && ignoreTags.parentTags == ignore.parentTags;
    }
  }
}
