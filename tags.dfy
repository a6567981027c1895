/**
 * Tag identity (GameplayTag): a value that wraps a full dotted tag name such
 * as "A.B.C".  Equality compares names case-sensitively; ordering
 * (`CompareTo`) is an ordinal comparison that ignores case.
 */
module Tags {

  /** A tag; its name is set once, when the tag is created. */
  datatype Tag = Tag(name: string)

  /** `IsValid`: the name is not empty. */
  predicate IsValid(t: Tag)
  {
    |t.name| > 0
  }

  /** `Equals` and `operator ==`: the names are identical (case-sensitive). */
  predicate Equals(a: Tag, b: Tag)
    ensures Equals(a, b) <==> a == b
  {
    a.name == b.name
  }

  /** `operator !=`: the negation of `==`. */
  predicate NotEquals(a: Tag, b: Tag)
    ensures NotEquals(a, b) <==> a != b
  {
    !Equals(a, b)
  }

  /**
   * `GetHashCode`: the hash of the name.  The string hash itself belongs to
   * the runtime, so it is a parameter here.
   */
  function HashCode(t: Tag, stringHash: string -> int): int
  {
    stringHash(t.name)
  }

  /** Equal tags have equal hash codes, whatever the string hash is. */
  lemma EqualTagsHashEqually(a: Tag, b: Tag, stringHash: string -> int)
    requires Equals(a, b)
    ensures HashCode(a, stringHash) == HashCode(b, stringHash)
  {
  }

  /** Ordinal case folding of one character (ASCII letters only). */
  function Fold(c: char): (f: char)
  {
    if 'a' <= c <= 'z' then (c as int - 32) as char else c
  }

  /** Every character of `s` case-folded, in order. */
  function FoldAll(s: seq<char>): (k: seq<char>)
    ensures |k| == |s|
    ensures forall i :: 0 <= i < |k| ==> k[i] == Fold(s[i])
  {
    if |s| == 0 then [] else [Fold(s[0])] + FoldAll(s[1..])
  }

  /** The key that `CompareTo` orders by: the name with every letter folded to upper case. */
  function Key(t: Tag): (k: seq<char>)
    ensures |k| == |t.name|
    ensures forall i :: 0 <= i < |k| ==> k[i] == Fold(t.name[i])
  {
    FoldAll(t.name)
  }

  /**
   * Ordinal lexicographic comparison of two names with every character
   * case-folded: -1, 0 or 1.
   */
  function CompareFolded(x: string, y: string): (r: int)
    ensures -1 <= r <= 1
  {
    if |x| == 0 && |y| == 0 then 0
    else if |x| == 0 then -1
    else if |y| == 0 then 1
    else if Fold(x[0]) < Fold(y[0]) then -1
    else if Fold(x[0]) > Fold(y[0]) then 1
    else CompareFolded(x[1..], y[1..])
  }

  /**
   * `CompareTo`: ordinal comparison ignoring case.  Only the sign of the
   * runtime's result is meaningful; the model returns -1, 0 or 1.
   */
  function Compare(a: Tag, b: Tag): (r: int)
    ensures -1 <= r <= 1
  {
    CompareFolded(a.name, b.name)
  }

  lemma {:induction false} CompareFoldedAntisymmetric(x: string, y: string)
    ensures CompareFolded(x, y) == -CompareFolded(y, x)
  {
    if |x| > 0 && |y| > 0 && Fold(x[0]) == Fold(y[0]) {
      CompareFoldedAntisymmetric(x[1..], y[1..]);
    }
  }

  lemma {:induction false} CompareFoldedZero(x: string, y: string)
    ensures CompareFolded(x, y) == 0 <==> FoldAll(x) == FoldAll(y)
  {
    if |x| > 0 && |y| > 0 {
      assert FoldAll(x) == [Fold(x[0])] + FoldAll(x[1..]);
      assert FoldAll(y) == [Fold(y[0])] + FoldAll(y[1..]);
      if Fold(x[0]) == Fold(y[0]) {
        CompareFoldedZero(x[1..], y[1..]);
      } else {
        assert FoldAll(x)[0] != FoldAll(y)[0];
      }
    }
  }

  lemma {:induction false} CompareFoldedTransitive(x: string, y: string, z: string)
    requires CompareFolded(x, y) < 0 && CompareFolded(y, z) < 0
    ensures CompareFolded(x, z) < 0
  {
    if |x| > 0 && |y| > 0 && |z| > 0 && Fold(x[0]) == Fold(y[0]) && Fold(y[0]) == Fold(z[0]) {
      CompareFoldedTransitive(x[1..], y[1..], z[1..]);
    }
  }

  /** The comparison sees only the folded characters: names with the same folding compare alike. */
  lemma {:induction false} CompareFoldedSameFolding(x: string, x': string, y: string)
    requires FoldAll(x) == FoldAll(x')
    ensures CompareFolded(x, y) == CompareFolded(x', y)
  {
    if |x| > 0 && |y| > 0 {
      assert FoldAll(x)[0] == FoldAll(x')[0];
      assert FoldAll(x)[1..] == FoldAll(x[1..]) && FoldAll(x')[1..] == FoldAll(x'[1..]);
      CompareFoldedSameFolding(x[1..], x'[1..], y[1..]);
    }
  }

  /** Swapping the arguments of `CompareTo` flips the sign. */
  lemma CompareAntisymmetric(a: Tag, b: Tag)
    ensures Compare(a, b) == -Compare(b, a)
  {
    CompareFoldedAntisymmetric(a.name, b.name);
  }

  /** `CompareTo` is 0 exactly when the folded names agree; in particular equal tags compare 0. */
  lemma CompareZero(a: Tag, b: Tag)
    ensures Compare(a, b) == 0 <==> Key(a) == Key(b)
    ensures a == b ==> Compare(a, b) == 0
  {
    CompareFoldedZero(a.name, b.name);
  }

  lemma CompareTransitive(a: Tag, b: Tag, c: Tag)
    requires Compare(a, b) < 0 && Compare(b, c) < 0
    ensures Compare(a, c) < 0
  {
    CompareFoldedTransitive(a.name, b.name, c.name);
  }

  /** Tags that compare 0 are interchangeable on either side of `CompareTo`. */
  lemma CompareSubstitute(a: Tag, b: Tag, c: Tag)
    requires Compare(a, b) == 0
    ensures Compare(a, c) == Compare(b, c)
    ensures Compare(c, a) == Compare(c, b)
  {
    CompareZero(a, b);
    CompareFoldedSameFolding(a.name, b.name, c.name);
    CompareAntisymmetric(c, a);
    CompareAntisymmetric(c, b);
  }

  /** Two distinct names that differ only in case compare 0: ordering and equality disagree. */
  lemma CaseOnlyNamesCollide()
    ensures Tag("a.b") != Tag("A.B")
    ensures Compare(Tag("a.b"), Tag("A.B")) == 0
  {
    assert Tag("a.b").name[0] != Tag("A.B").name[0];
    assert Key(Tag("a.b")) == Key(Tag("A.B"));
    CompareZero(Tag("a.b"), Tag("A.B"));
  }

  /** `MatchesTagExact`: false for an invalid argument, otherwise name equality. */
  predicate MatchesTagExact(self: Tag, tagToCheck: Tag)
    ensures MatchesTagExact(self, tagToCheck) <==> IsValid(tagToCheck) && self == tagToCheck
  {
    if IsValid(tagToCheck) then self.name == tagToCheck.name else false
  }
}
