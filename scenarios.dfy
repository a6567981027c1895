/**
 * The container scenario of the demo scene (tests/Test.cs) over the test
 * registry of GameplayTagsSettings: the seven configured tags and the
 * nodes they imply, each mapped to its node container.
 */
module Scenarios {
  import opened Options
  import opened Tags
  import opened TagSearch
  import opened TagSets
  import opened TagNodes
  import opened TagMatching
  import opened TagCounts

  const A := Tag("A")
  const AB := Tag("A.B")
  const ABC := Tag("A.B.C")
  const ABD := Tag("A.B.D")
  const AC := Tag("A.C")
  const ACB := Tag("A.C.B")
  const D := Tag("D")
  const DC := Tag("D.C")
  const DCB := Tag("D.C.B")

  /**
   * The test registry: every configured tag and every implied node, each
   * with its node container (its own tag, then its ancestors nearest first).
   */
  const Fixture: Registry := map[
    A := TagSetValue([A], []),
    AB := TagSetValue([AB], [A]),
    ABC := TagSetValue([ABC], [AB, A]),
    ABD := TagSetValue([ABD], [AB, A]),
    AC := TagSetValue([AC], [A]),
    ACB := TagSetValue([ACB], [AC, A]),
    D := TagSetValue([D], []),
    DC := TagSetValue([DC], [D]),
    DCB := TagSetValue([DCB], [DC, D])
  ]

  /** Each registry entry is the container the node constructor builds for that path. */
  lemma FixtureIsNodeContainers()
    ensures Fixture[ABC] == ChainContainer(["A", "A.B", "A.B.C"])
    ensures Fixture[ACB] == ChainContainer(["A", "A.C", "A.C.B"])
    ensures Fixture[DCB] == ChainContainer(["D", "D.C", "D.C.B"])
    ensures Fixture[AB] == ChainContainer(["A", "A.B"])
  {
    ChainContainerSpec(["A", "A.B", "A.B.C"]);
    ChainContainerSpec(["A", "A.C", "A.C.B"]);
    ChainContainerSpec(["D", "D.C", "D.C.B"]);
    ChainContainerSpec(["A", "A.B"]);
    assert ["A", "A.B", "A.B.C"][..2] == ["A", "A.B"];
    assert ["A", "A.C", "A.C.B"][..2] == ["A", "A.C"];
    assert ["D", "D.C", "D.C.B"][..2] == ["D", "D.C"];
    assert ["A", "A.B"][..1] == ["A"];
    assert ["A", "A.C"][..1] == ["A"];
    assert ["D", "D.C"][..1] == ["D"];
  }

  /** The scenario's tags in `CompareTo` order: A < A.B < A.B.C < D < D.C < D.C.B. */
  lemma ScenarioOrder()
    ensures Compare(A, AB) == -1 && Compare(AB, ABC) == -1 && Compare(ABC, D) == -1
    ensures Compare(D, DC) == -1 && Compare(DC, DCB) == -1
    ensures Compare(A, D) == -1 && Compare(A, DC) == -1 && Compare(AB, D) == -1 && Compare(AB, DC) == -1
    ensures Compare(AB, DCB) == -1 && Compare(A, DCB) == -1 && Compare(D, DCB) == -1
  {
    assert Key(A) == "A" && Key(AB) == "A.B" && Key(ABC) == "A.B.C";
    assert Key(D) == "D" && Key(DC) == "D.C" && Key(DCB) == "D.C.B";
  }

  /** Binary insertion into an empty array. */
  lemma InsertIntoEmpty(y: Tag)
    ensures InsertSorted([], y) == [y]
  {
    assert BinarySearch([], y) == -1;
    assert InsertAt([], 0, y) == [y];
  }

  /** Binary insertion of a tag that sorts before the single element of an array. */
  lemma InsertBeforeSingle(y: Tag, x: Tag)
    requires Compare(y, x) == 1
    ensures InsertSorted([y], x) == [x, y]
  {
    assert Search([y], x, 0, 0) == Search([y], x, 0, -1);
    assert BinarySearch([y], x) == -1;
    assert InsertAt([y], 0, x) == [x, y];
  }

  /** Binary insertion of two tags, the second sorting first, into an empty array. */
  lemma InsertTwoDescending(y: Tag, x: Tag)
    requires Compare(y, x) == 1
    ensures InsertAll([], [y, x]) == [x, y]
  {
    var none: seq<Tag> := [];
    assert [y, x][..1] == [y];
    assert [y][..0] == none;
    assert InsertAll(none, none) == none;
    InsertIntoEmpty(y);
    assert InsertAll(none, [y]) == InsertSorted(none, y);
    assert InsertAll(none, [y, x]) == InsertSorted(InsertAll(none, [y]), x);
    InsertBeforeSingle(y, x);
  }

  /** The registry parents of the scenario's explicit tags. */
  lemma ScenarioParents()
    ensures RegistryParents(Fixture, ABC) == [AB, A]
    ensures RegistryParents(Fixture, DCB) == [DC, D]
    ensures RegistryParents(Fixture, AB) == [A]
  {
    assert ABC != ABD && ABC != AC && ABC != ACB && ABC != D && ABC != DC && ABC != DCB by {
      assert ABC.name[4] != ABD.name[4];
      assert |ABC.name| != |AC.name| && |ABC.name| != |D.name| && |ABC.name| != |DC.name|;
      assert ABC.name[2] != ACB.name[2] && ABC.name[0] != DCB.name[0];
    }
    assert AB != ABC && AB != ABD && AB != AC && AB != ACB && AB != D && AB != DC && AB != DCB by {
      assert |AB.name| != |ABC.name| && |AB.name| != |ABD.name| && |AB.name| != |ACB.name| && |AB.name| != |D.name|;
      assert |AB.name| != |DCB.name| && AB.name[2] != AC.name[2] && AB.name[0] != DC.name[0];
    }
  }

  /** `AddTag(A.B.C)` on a new container. */
  lemma NewContainerABC()
    ensures WithTag(Fixture, Empty, ABC) == TagSetValue([ABC], [A, AB])
  {
    ScenarioOrder();
    CompareAntisymmetric(A, AB);
    ScenarioParents();
    InsertTwoDescending(AB, A);
  }

  /** `AddTag(D.C.B)` on a new container. */
  lemma NewContainerDCB()
    ensures WithTag(Fixture, Empty, DCB) == TagSetValue([DCB], [D, DC])
  {
    ScenarioOrder();
    CompareAntisymmetric(D, DC);
    ScenarioParents();
    InsertTwoDescending(DC, D);
  }

  /** A.B sorts before D.C.B, so it is inserted at the front of {D.C.B}. */
  lemma InsertABBeforeDCB()
    ensures BinarySearch([DCB], AB) == -1
    ensures InsertAt([DCB], 0, AB) == [AB, DCB]
  {
    ScenarioOrder();
    CompareAntisymmetric(AB, DCB);
    assert Search([DCB], AB, 0, 0) == Search([DCB], AB, 0, -1);
  }

  /** The parent A of A.B is inserted at the front of the parents [D, D.C]. */
  lemma InsertParentAOfAB()
    ensures WithParentsOf(Fixture, [D, DC], AB) == [A, D, DC]
  {
    ScenarioOrder();
    CompareAntisymmetric(A, D);
    ScenarioParents();
    assert [A][..0] == [];
    assert InsertAll([D, DC], [A]) == InsertSorted([D, DC], A);
    assert Search([D, DC], A, 0, 1) == Search([D, DC], A, 0, -1);
    assert InsertAt([D, DC], 0, A) == [A, D, DC];
  }

  /** `AddTag(D.C.B)` then `AddTag(A.B)` on a new container. */
  lemma NewContainerDCBThenAB()
    ensures WithTag(Fixture, WithTag(Fixture, Empty, DCB), AB) == TagSetValue([AB, DCB], [A, D, DC])
  {
    NewContainerDCB();
    InsertABBeforeDCB();
    InsertParentAOfAB();
  }

  /** `RemoveTag(A.B, false)` on {A.B, D.C.B} leaves the container {D.C.B}. */
  lemma RemoveABFromB()
    ensures Removed(Fixture, TagSetValue([AB, DCB], [A, D, DC]), AB, false) == Removal(true, TagSetValue([DCB], [D, DC]))
  {
    ScenarioOrder();
    ScenarioParents();
    CompareAntisymmetric(D, DC);
    CompareZero(AB, AB);
    assert Search([AB, DCB], AB, 0, 1) == 0;
    assert [AB, DCB][..0] + [AB, DCB][1..] == [DCB];
    assert [DCB][..0] == [];
    assert ParentsOfAll(Fixture, [], [DCB]) == InsertAll([], [DC, D]);
    InsertTwoDescending(DC, D);
  }

  /** The hierarchy checks of the scenario on the three containers as built. */
  lemma ScenarioChecks()
    ensures var a := TagSetValue([ABC], [A, AB]);
      var b := TagSetValue([AB, DCB], [A, D, DC]);
      var c := TagSetValue([DCB], [D, DC]);
      && HasTag(a, ABC) && HasTagExact(a, ABC)
      && HasAnyOf(a, b)
      && HasAnyExactOf(b, c)
      && !HasAllOf(c, b)
      && HasAllOf(c, c)
      && HasAllExactOf(c, c)
  {
    ScenarioOrder();
    CompareAntisymmetric(A, AB);
    CompareAntisymmetric(A, D);
    CompareAntisymmetric(A, DC);
    CompareAntisymmetric(AB, D);
    CompareAntisymmetric(AB, DC);
    CompareAntisymmetric(AB, DCB);
    CompareZero(ABC, ABC);
    CompareZero(AB, AB);
    CompareZero(DCB, DCB);
    var a := TagSetValue([ABC], [A, AB]);
    var b := TagSetValue([AB, DCB], [A, D, DC]);
    var c := TagSetValue([DCB], [D, DC]);
    assert HasTag(a, b.gameplayTags[0]);
    assert HasTagExact(b, c.gameplayTags[0]);
    assert !HasTag(c, b.gameplayTags[0]);
    assert HasTagExact(c, DCB);
  }

  /**
   * The scenario of `GameplayTagContainerTest`: with containers
   * a = {A.B.C}, b = {D.C.B, A.B} and c = {D.C.B}, a has and exactly has
   * A.B.C, a has some tag of b, b exactly has some tag of c, c lacks some
   * tag of b until A.B is removed from b, and then b exactly has all of c.
   */
  lemma ContainerTestScenario()
    ensures var a := WithTag(Fixture, Empty, ABC);
      var b := WithTag(Fixture, WithTag(Fixture, Empty, DCB), AB);
      var c := WithTag(Fixture, Empty, DCB);
      var b2 := Removed(Fixture, b, AB, false).after;
      && HasTag(a, ABC) && HasTagExact(a, ABC)
      && HasAnyOf(a, b)
      && HasAnyExactOf(b, c)
      && !HasAllOf(c, b)
      && HasAllOf(c, b2)
      && HasAllExactOf(b2, c)
  {
    NewContainerABC();
    NewContainerDCB();
    NewContainerDCBThenAB();
    RemoveABFromB();
    ScenarioChecks();
  }

  /**
   * On the test registry, A.B.C matches its parent A.B but not its
   * grandparent A: the node's parent tags ["A.B", "A"] are not in order, so
   * the binary search of `HasTag` never reaches "A".
   */
  lemma MatchesTagMissesGrandparent()
    ensures MatchesTag(Fixture, ABC, AB)
    ensures !MatchesTag(Fixture, ABC, A)
  {
    ScenarioOrder();
    ScenarioParents();
    CompareAntisymmetric(A, AB);
    CompareAntisymmetric(A, ABC);
    CompareZero(AB, AB);
    assert Fixture[ABC] == TagSetValue([ABC], [AB, A]);
    assert Search([ABC], AB, 0, 0) == Search([ABC], AB, 0, -1);
    assert Search([ABC], A, 0, 0) == Search([ABC], A, 0, -1);
    assert Search([AB, A], A, 0, 1) == Search([AB, A], A, 0, -1);
  }

  /**
   * On the test registry, notifying A.B.C reaches neither A.B nor A: with
   * no event entry for A.B.C the ledger is unchanged, even though A.B has a
   * bound any-change delegate.
   */
  lemma NotifyMissesParents(l: Ledger)
    requires AB in l.gameplayTagEvents && l.gameplayTagEvents[AB].onAnyChange
    requires ABC !in l.gameplayTagEvents
    ensures NotifyStackCountChange(Fixture, l, ABC) == Some(l)
  {
    NotifyNodeContainerOnlyTag(Fixture, l, ABC);
  }
}
