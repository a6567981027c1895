/**
 * The tag tree (GameplayTagsManager.cs): a node per tag name, each holding
 * the "self + ancestors" container that the registry hands out, and the
 * manager that owns the root node and the tag-to-node map.
 */
module TagNodes {
  import opened Options
  import opened Tags
  import opened TagSearch
  import opened TagSets
  import opened Containers

  /**
   * The container the node constructor builds: the node's full tag as the
   * one explicit tag; when the parent's container has an explicit tag, that
   * tag followed by the parent's own parent tags, in that order (nearest
   * ancestor first, not sorted).
   */
  function NodeContainer(fullName: string, parent: Option<TagSetValue>): TagSetValue
  {
    var parentTags :=
      match parent
      case None => []
      case Some(p) => if !IsEmpty(p) then [p.gameplayTags[0]] + p.parentTags else [];
    TagSetValue([Tag(fullName)], parentTags)
  }

  /** The registry container of the last name of a path from the top of the tree (`names[0]`) down. */
  function ChainContainer(names: seq<string>): TagSetValue
    requires |names| > 0
    decreases |names|
  {
    if |names| == 1 then NodeContainer(names[0], None)
    else NodeContainer(names[|names| - 1], Some(ChainContainer(names[..|names| - 1])))
  }

  /** The tags of a path of names, deepest first. */
  function NearestFirst(names: seq<string>): (r: seq<Tag>)
    ensures |r| == |names|
    decreases |names|
  {
    if |names| == 0 then [] else [Tag(names[|names| - 1])] + NearestFirst(names[..|names| - 1])
  }

  /**
   * A node's container holds its own tag as the one explicit tag and every
   * ancestor's tag as a parent tag, nearest ancestor first.
   */
  lemma {:induction false} ChainContainerSpec(names: seq<string>)
    requires |names| > 0
    ensures ChainContainer(names).gameplayTags == [Tag(names[|names| - 1])]
    ensures ChainContainer(names).parentTags == NearestFirst(names[..|names| - 1])
    decreases |names|
  {
    if |names| > 1 {
      var front := names[..|names| - 1];
      ChainContainerSpec(front);
      assert front[..|front| - 1] == names[..|names| - 2];
    }
  }

  /**
   * With the nearest ancestor first, the parent tags of "A.B.C" are
   * ["A.B", "A"], which is not in `CompareTo` order, so the binary search
   * of `HasTag` misses the ancestor "A" although it is there.
   */
  lemma NodeParentsNotSortedMissesAncestor()
    ensures ChainContainer(["A", "A.B", "A.B.C"]).parentTags == [Tag("A.B"), Tag("A")]
    ensures !StrictlySorted(ChainContainer(["A", "A.B", "A.B.C"]).parentTags)
    ensures !HasTag(ChainContainer(["A", "A.B", "A.B.C"]), Tag("A"))
  {
    var c := ChainContainer(["A", "A.B", "A.B.C"]);
    ChainContainerSpec(["A", "A.B", "A.B.C"]);
    assert ["A", "A.B", "A.B.C"][..2] == ["A", "A.B"];
    assert ["A", "A.B"][..1] == ["A"];
    assert Key(Tag("A.B")) == "A.B";
    assert Key(Tag("A")) == "A";
    assert Key(Tag("A.B.C")) == "A.B.C";
    assert Compare(Tag("A.B"), Tag("A")) == 1;
    assert Compare(Tag("A.B.C"), Tag("A")) == 1;
    assert c.parentTags[0] == Tag("A.B") && c.parentTags[1] == Tag("A");
    assert !(Compare(c.parentTags[0], c.parentTags[1]) < 0);
  }

  /** The corrected node container: the same ancestors, binary-inserted so that they are sorted. */
  function SortedNodeContainer(fullName: string, parent: Option<TagSetValue>): TagSetValue
  {
    var ancestors :=
      match parent
      case None => []
      case Some(p) => if !IsEmpty(p) then [p.gameplayTags[0]] + p.parentTags else [];
    TagSetValue([Tag(fullName)], InsertAll([], ancestors))
  }

  /** Binary insertion into an empty array keeps, up to `CompareTo`, every tag of the inserted sequence. */
  lemma InsertAllKeepsKeys(xs: seq<Tag>, a: Tag)
    requires KeyIn(xs, a)
    ensures KeyIn(InsertAll([], xs), a)
  {
    var none: seq<Tag> := [];
    var r := InsertAll(none, xs);
    var i :| 0 <= i < |xs| && Compare(xs[i], a) == 0;
    InsertAllFinds(none, xs);
    var k :| 0 <= k < |r| && Compare(r[k], xs[i]) == 0;
    CompareZero(r[k], xs[i]);
    CompareZero(xs[i], a);
    CompareZero(r[k], a);
  }

  /** A tag the parent's container finds, up to `CompareTo`, is among the child's ancestors. */
  lemma AncestorsKeepKeys(p: TagSetValue, a: Tag)
    requires |p.gameplayTags| == 1 && (KeyIn(p.gameplayTags, a) || KeyIn(p.parentTags, a))
    ensures KeyIn([p.gameplayTags[0]] + p.parentTags, a)
  {
    var ancestors := [p.gameplayTags[0]] + p.parentTags;
    if KeyIn(p.gameplayTags, a) {
      assert Compare(ancestors[0], a) == 0;
    } else {
      var k :| 0 <= k < |p.parentTags| && Compare(p.parentTags[k], a) == 0;
      assert ancestors[k + 1] == p.parentTags[k];
    }
  }

  /** A tag the parent's container finds is found by the corrected child container. */
  lemma SortedNodeContainerInheritsOne(fullName: string, p: TagSetValue, a: Tag)
    requires Wellformed(p) && |p.gameplayTags| == 1 && HasTag(p, a)
    ensures HasTag(SortedNodeContainer(fullName, Some(p)), a)
  {
    var c := SortedNodeContainer(fullName, Some(p));
    var none: seq<Tag> := [];
    var ancestors := [p.gameplayTags[0]] + p.parentTags;
    assert c == TagSetValue([Tag(fullName)], InsertAll(none, ancestors));
    HasTagMembership(p, a);
    AncestorsKeepKeys(p, a);
    InsertAllKeepsKeys(ancestors, a);
    InsertAllSorted(none, ancestors);
    assert Wellformed(c);
    HasTagMembership(c, a);
  }

  /**
   * A corrected node container is well-formed, finds its own tag, and finds
   * every tag its (well-formed, single-tag) parent's container finds.
   */
  lemma SortedNodeContainerInherits(fullName: string, parent: Option<TagSetValue>)
    requires parent.Some? ==> Wellformed(parent.value) && |parent.value.gameplayTags| == 1
    ensures Wellformed(SortedNodeContainer(fullName, parent))
    ensures |SortedNodeContainer(fullName, parent).gameplayTags| == 1
    ensures HasTag(SortedNodeContainer(fullName, parent), Tag(fullName))
    ensures parent.Some? ==> forall a :: HasTag(parent.value, a) ==> HasTag(SortedNodeContainer(fullName, parent), a)
  {
    var c := SortedNodeContainer(fullName, parent);
    var none: seq<Tag> := [];
    var ancestors := if parent.Some? then [parent.value.gameplayTags[0]] + parent.value.parentTags else [];
    assert c.parentTags == InsertAll(none, ancestors);
    InsertAllSorted(none, ancestors);
    CompareZero(Tag(fullName), Tag(fullName));
    assert Compare(c.gameplayTags[0], Tag(fullName)) == 0;
    if parent.Some? {
      forall a | HasTag(parent.value, a) ensures HasTag(c, a) {
        SortedNodeContainerInheritsOne(fullName, parent.value, a);
      }
    }
  }

  /** The corrected container of the last name of a path. */
  function SortedChainContainer(names: seq<string>): TagSetValue
    requires |names| > 0
    decreases |names|
  {
    if |names| == 1 then SortedNodeContainer(names[0], None)
    else SortedNodeContainer(names[|names| - 1], Some(SortedChainContainer(names[..|names| - 1])))
  }

  /**
   * Extending a path by one name: the new corrected container stays
   * well-formed, finds its own tag and every tag the previous one finds.
   */
  lemma SortedChainExtends(names: seq<string>)
    requires |names| > 1
    requires Wellformed(SortedChainContainer(names[..|names| - 1])) && |SortedChainContainer(names[..|names| - 1]).gameplayTags| == 1
    ensures Wellformed(SortedChainContainer(names)) && |SortedChainContainer(names).gameplayTags| == 1
    ensures HasTag(SortedChainContainer(names), Tag(names[|names| - 1]))
    ensures forall a :: HasTag(SortedChainContainer(names[..|names| - 1]), a) ==> HasTag(SortedChainContainer(names), a)
  {
    SortedNodeContainerInherits(names[|names| - 1], Some(SortedChainContainer(names[..|names| - 1])));
  }

  /** With sorted parent tags, `HasTag` on a node's container finds the node and every ancestor. */
  lemma {:induction false} SortedChainFindsAncestors(names: seq<string>)
    requires |names| > 0
    ensures Wellformed(SortedChainContainer(names)) && |SortedChainContainer(names).gameplayTags| == 1
    ensures forall i | 0 <= i < |names| :: HasTag(SortedChainContainer(names), Tag(names[i]))
    decreases |names|
  {
    if |names| == 1 {
      SortedNodeContainerInherits(names[0], None);
    } else {
      var front := names[..|names| - 1];
      SortedChainFindsAncestors(front);
      SortedChainExtends(names);
      forall i | 0 <= i < |names| ensures HasTag(SortedChainContainer(names), Tag(names[i])) {
        if i < |names| - 1 {
          assert names[i] == front[i];
        }
      }
    }
  }

  class GameplayTagNode {
    /** `TagName`: the short name of this level ("C" in "A.B.C"). */
    var tagName: string
    /** `CompleteTagWithParents`: the node's "self + ancestors" container. */
    var completeTagWithParents: GameplayTagContainer
    var isExplicitTag: bool
    var childTags: seq<GameplayTagNode>
    /** `ParentTag`: the parent node, null for the root. */
    var parentTag: GameplayTagNode?

    /** The parent's container as a value, or none without a parent. */
    static function ParentView(parentTag: GameplayTagNode?): Option<TagSetValue>
      reads if parentTag == null then {} else {parentTag, parentTag.completeTagWithParents}
    {
      if parentTag == null then None else Some(parentTag.completeTagWithParents.View())
    }

    /** Builds the node's container from its full name and its parent's container. */
    constructor(tagName: string, fullName: string, parentTag: GameplayTagNode?, isExplicitTag: bool)
      ensures this.tagName == tagName && this.parentTag == parentTag && this.isExplicitTag == isExplicitTag
      ensures childTags == [] && fresh(completeTagWithParents)
      ensures completeTagWithParents.View() == NodeContainer(fullName, ParentView(parentTag))
    {
      this.tagName := tagName;
      this.parentTag := parentTag;
      this.isExplicitTag := isExplicitTag;
      childTags := [];
      var complete := new GameplayTagContainer();
      complete.gameplayTags := complete.gameplayTags + [Tag(fullName)];
      if parentTag != null {
        var parentContainer := parentTag.completeTagWithParents;
        if !IsEmpty(parentContainer.View()) {
          complete.parentTags := complete.parentTags + [parentContainer.gameplayTags[0]];
          complete.parentTags := complete.parentTags + parentContainer.parentTags;
        }
      }
      completeTagWithParents := complete;
    }

    /** `FindChild`: the index of the first child whose short name is `tagName` (ordinal), or -1. */
    method FindChild(tagName: string) returns (index: int)
      ensures -1 <= index < |childTags|
      ensures index >= 0 ==> childTags[index].tagName == tagName
      ensures index >= 0 ==> forall j | 0 <= j < index :: childTags[j].tagName != tagName
      ensures index == -1 <==> forall j | 0 <= j < |childTags| :: childTags[j].tagName != tagName
    {
      for i := 0 to |childTags|
        invariant forall j | 0 <= j < i :: childTags[j].tagName != tagName
      {
        if childTags[i].tagName == tagName {
          return i;
        }
      }
      return -1;
    }
  }

  class GameplayTagsManager {
    var root: GameplayTagNode
    var tagMap: map<Tag, GameplayTagNode>

    /** A manager holds a root node named "root" without a parent, and an empty tag map. */
    constructor()
      ensures fresh(root) && fresh(root.completeTagWithParents)
      ensures root.tagName == "root" && root.parentTag == null && !root.isExplicitTag && root.childTags == []
      ensures root.completeTagWithParents.View() == TagSetValue([Tag("root")], [])
      ensures tagMap == map[]
    {
      root := new GameplayTagNode("root", "root", null, false);
      tagMap := map[];
    }

    /** `AddTagNode`: an empty body; it changes nothing. */
    method AddTagNode(tagName: string)
    {
    }

    /** `InsertTagIntoNodeArray`: an empty body; it changes nothing. */
    method InsertTagIntoNodeArray(shortTagName: string, fullTagName: string, parentNode: GameplayTagNode?, isExplicit: bool)
    {
    }
  }
}
