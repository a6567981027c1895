/**
 * Query expressions (GameplayTagQueryExpression): a tree whose nodes test a
 * container against a set of tags or combine the results of child
 * expressions.  `Evaluate` states what an expression means; the method
 * `MatchesExpr` performs the source's loops and is proved to compute it.
 */
module QueryExpressions {
  import opened Tags
  import opened TagSets
  import opened Containers

  /** `GameplayTagQueryExprType`. */
  datatype ExprType = Undefined | AnyTagsMatch | AllTagsMatch | NoTagsMatch | AnyExprMatch | AllExprMatch | NoExprMatch

  /** An expression's three fields; child expressions are held as values. */
  datatype Expr = Expr(exprType: ExprType, exprSet: seq<Expr>, tagSet: seq<Tag>)

  /** A new expression: undefined kind, no children, no tags. */
  const DefaultExpr := Expr(Undefined, [], [])

  /** `IsValid`: a defined kind and at least one child or tag. */
  predicate IsValid(e: Expr)
  {
    if e.exprType == Undefined then false
    else if |e.exprSet| == 0 && |e.tagSet| == 0 then false
    else true
  }

  /** `UsesTagSet`: the kind tests the tag set. */
  predicate UsesTagSet(e: Expr)
  {
    e.exprType == AnyTagsMatch || e.exprType == AllTagsMatch || e.exprType == NoTagsMatch
  }

  /** `UsesExprSet`: the kind combines the child expressions. */
  predicate UsesExprSet(e: Expr)
  {
    e.exprType == AnyExprMatch || e.exprType == AllExprMatch || e.exprType == NoExprMatch
  }

  /** No kind uses both sets, and exactly the undefined kind uses neither. */
  lemma UsesOneSet(e: Expr)
    ensures !(UsesTagSet(e) && UsesExprSet(e))
    ensures !UsesTagSet(e) && !UsesExprSet(e) <==> e.exprType == Undefined
  {
  }

  /**
   * What `Matches` decides: for the tag kinds, whether some, every or no tag
   * of the tag set satisfies the container's `HasTag`; for the expression
   * kinds, whether some, every or no child matches; an undefined kind never
   * matches.
   */
  predicate Evaluate(e: Expr, c: TagSetValue)
    decreases e
  {
    match e.exprType
    case Undefined => false
    case AnyTagsMatch => exists i | 0 <= i < |e.tagSet| :: HasTag(c, e.tagSet[i])
    case AllTagsMatch => forall i | 0 <= i < |e.tagSet| :: HasTag(c, e.tagSet[i])
    case NoTagsMatch => forall i | 0 <= i < |e.tagSet| :: !HasTag(c, e.tagSet[i])
    case AnyExprMatch => exists i | 0 <= i < |e.exprSet| :: Evaluate(e.exprSet[i], c)
    case AllExprMatch => forall i | 0 <= i < |e.exprSet| :: Evaluate(e.exprSet[i], c)
    case NoExprMatch => forall i | 0 <= i < |e.exprSet| :: !Evaluate(e.exprSet[i], c)
  }

  /** `Matches`: the source's scan of the tag set or of the children, stopping at the first decisive element. */
  method MatchesExpr(e: Expr, container: GameplayTagContainer) returns (r: bool)
    ensures r == Evaluate(e, container.View())
    decreases e
  {
    var c := container.View();
    match e.exprType {
      case AnyTagsMatch =>
        for i := 0 to |e.tagSet|
          invariant forall j | 0 <= j < i :: !HasTag(c, e.tagSet[j])
        {
          if HasTag(c, e.tagSet[i]) {
            return true;
          }
        }
        return false;
      case AllTagsMatch =>
        for i := 0 to |e.tagSet|
          invariant forall j | 0 <= j < i :: HasTag(c, e.tagSet[j])
        {
          if !HasTag(c, e.tagSet[i]) {
            return false;
          }
        }
        return true;
      case NoTagsMatch =>
        for i := 0 to |e.tagSet|
          invariant forall j | 0 <= j < i :: !HasTag(c, e.tagSet[j])
        {
          if HasTag(c, e.tagSet[i]) {
            return false;
          }
        }
        return true;
      case AnyExprMatch =>
        for i := 0 to |e.exprSet|
          invariant forall j | 0 <= j < i :: !Evaluate(e.exprSet[j], c)
        {
          var m := MatchesExpr(e.exprSet[i], container);
          if m {
            return true;
          }
        }
        return false;
      case AllExprMatch =>
        for i := 0 to |e.exprSet|
          invariant forall j | 0 <= j < i :: Evaluate(e.exprSet[j], c)
        {
          var m := MatchesExpr(e.exprSet[i], container);
          if !m {
            return false;
          }
        }
        return true;
      case NoExprMatch =>
        for i := 0 to |e.exprSet|
          invariant forall j | 0 <= j < i :: !Evaluate(e.exprSet[j], c)
        {
          var m := MatchesExpr(e.exprSet[i], container);
          if m {
            return false;
          }
        }
        return true;
      case Undefined =>
        return false;
    }
  }

  /** An undefined expression, the default one in particular, matches no container. */
  lemma UndefinedNeverMatches(e: Expr, c: TagSetValue)
    requires e.exprType == Undefined
    ensures !Evaluate(e, c)
    ensures !IsValid(e)
  {
  }

  /**
   * With an empty tag or child set, the "all" and "no" kinds match every
   * container and the "any" kinds none, although such an expression is not
   * valid.
   */
  lemma EmptySetsDecide(t: ExprType, c: TagSetValue)
    requires t != Undefined
    ensures !IsValid(Expr(t, [], []))
    ensures Evaluate(Expr(t, [], []), c) <==> t != AnyTagsMatch && t != AnyExprMatch
  {
  }

  /** The "no" kinds are the negations of the "any" kinds over the same set. */
  lemma NoIsNotAny(exprSet: seq<Expr>, tagSet: seq<Tag>, c: TagSetValue)
    ensures Evaluate(Expr(NoTagsMatch, exprSet, tagSet), c) <==> !Evaluate(Expr(AnyTagsMatch, exprSet, tagSet), c)
    ensures Evaluate(Expr(NoExprMatch, exprSet, tagSet), c) <==> !Evaluate(Expr(AnyExprMatch, exprSet, tagSet), c)
  {
  }

  /**
   * On a container, an "all tags" expression over the explicit tags of
   * `tags` is `HasAll`, and a "no tags" expression over them is the
   * negation of `HasAny`.
   */
  lemma TagKindsAreContainerTests(tags: TagSetValue, c: TagSetValue)
    ensures Evaluate(Expr(AllTagsMatch, [], tags.gameplayTags), c) <==> HasAllOf(c, tags)
    ensures Evaluate(Expr(AnyTagsMatch, [], tags.gameplayTags), c) <==> HasAnyOf(c, tags)
    ensures Evaluate(Expr(NoTagsMatch, [], tags.gameplayTags), c) <==> !HasAnyOf(c, tags)
  {
  }

  /**
   * A query expression under construction: the builder methods set its kind
   * or append to its sets and return the expression itself.
   */
  class QueryExpression {
    var exprType: ExprType
    var exprSet: seq<Expr>
    var tagSet: seq<Tag>

    /** The expression as a value. */
    function View(): Expr
      reads this
    {
      Expr(exprType, exprSet, tagSet)
    }

    constructor()
      ensures View() == DefaultExpr
    {
      exprType := Undefined;
      exprSet := [];
      tagSet := [];
    }

    /** `AnyTagsMatch` */
    method AnyTagsMatch() returns (self: QueryExpression)
      modifies this
      ensures self == this && View() == old(View()).(exprType := ExprType.AnyTagsMatch)
    {
      exprType := ExprType.AnyTagsMatch;
      return this;
    }

    /** `AllTagsMatch` */
    method AllTagsMatch() returns (self: QueryExpression)
      modifies this
      ensures self == this && View() == old(View()).(exprType := ExprType.AllTagsMatch)
    {
      exprType := ExprType.AllTagsMatch;
      return this;
    }

    /** `NoTagsMatch` */
    method NoTagsMatch() returns (self: QueryExpression)
      modifies this
      ensures self == this && View() == old(View()).(exprType := ExprType.NoTagsMatch)
    {
      exprType := ExprType.NoTagsMatch;
      return this;
    }

    /** `AnyExprMatch` */
    method AnyExprMatch() returns (self: QueryExpression)
      modifies this
      ensures self == this && View() == old(View()).(exprType := ExprType.AnyExprMatch)
    {
      exprType := ExprType.AnyExprMatch;
      return this;
    }

    /** `AllExprMatch` */
    method AllExprMatch() returns (self: QueryExpression)
      modifies this
      ensures self == this && View() == old(View()).(exprType := ExprType.AllExprMatch)
    {
      exprType := ExprType.AllExprMatch;
      return this;
    }

    /** `NoExprMatch` */
    method NoExprMatch() returns (self: QueryExpression)
      modifies this
      ensures self == this && View() == old(View()).(exprType := ExprType.NoExprMatch)
    {
      exprType := ExprType.NoExprMatch;
      return this;
    }

    /** `AddTag`: append one tag to the tag set (duplicates allowed). */
    method AddTag(tag: Tag) returns (self: QueryExpression)
      modifies this
      ensures self == this && View() == old(View()).(tagSet := old(tagSet) + [tag])
    {
      tagSet := tagSet + [tag];
      return this;
    }

    /** `AddTags`: append the explicit tags of a container to the tag set, in order. */
    method AddTags(tags: GameplayTagContainer) returns (self: QueryExpression)
      modifies this
      ensures self == this && View() == old(View()).(tagSet := old(tagSet) + tags.gameplayTags)
    {
      for i := 0 to |tags.gameplayTags|
        invariant View() == old(View()).(tagSet := old(tagSet) + tags.gameplayTags[..i])
      {
        tagSet := tagSet + [tags.gameplayTags[i]];
        assert tags.gameplayTags[..i + 1] == tags.gameplayTags[..i] + [tags.gameplayTags[i]];
      }
      assert tags.gameplayTags[..|tags.gameplayTags|] == tags.gameplayTags;
      return this;
    }

    /** `AddExpr`: append a child expression (its current value). */
    method AddExpr(expression: QueryExpression) returns (self: QueryExpression)
      modifies this
      ensures self == this && View() == old(View()).(exprSet := old(exprSet) + [old(expression.View())])
    {
      exprSet := exprSet + [expression.View()];
      return this;
    }

    /** `Matches`: whether the expression matches the container. */
    method Matches(container: GameplayTagContainer) returns (r: bool)
      ensures r == Evaluate(View(), container.View())
    {
      r := MatchesExpr(View(), container);
    }
  }
}
