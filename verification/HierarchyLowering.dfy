/** Hierarchy relations between a string column and a constant path, as SQL string conditions. */
module HierarchyLowering {
  import opened Wrappers
  import opened Texts
  import opened Splitting
  import opened Cel
  import opened Plans
  import opened Evaluator
  import opened ThreeValued

  // ----- the SQL the lowering emits, over one column -----

  datatype Condition =
    | Never
    | OneOf(paths: seq<string>)
    | EqualTo(path: string)
    | PrefixedBy(path: string)
    | LongerThan(length: nat)
    | AndC(cs: seq<Condition>) | OrC(cs: seq<Condition>)

  /** A comparison over a NULL column is UNKNOWN; the constant false is not a comparison. */
  function Holds(c: Condition, column: Option<string>): Tri
    decreases c
  {
    match c
    case Never => False
    case OneOf(paths) => if column.None? then Unknown else OfTruth(column.value in paths)
    case EqualTo(path) => if column.None? then Unknown else OfTruth(column.value == path)
    case PrefixedBy(path) => if column.None? then Unknown else OfTruth(StartsWith(column.value, path))
    case LongerThan(length) => if column.None? then Unknown else OfTruth(|column.value| > length)
    case AndC(cs) => AllOf(seq(|cs|, i requires 0 <= i < |cs| => Holds(cs[i], column)))
    case OrC(cs) => AnyOf(seq(|cs|, i requires 0 <= i < |cs| => Holds(cs[i], column)))
  }

  // ----- the lowering -----

  /** Every proper ancestor path of `segments`, shortest first. */
  function StrictPrefixes(segments: seq<string>, delimiter: string): (paths: seq<string>)
    ensures |paths| == if segments == [] then 0 else |segments| - 1
    ensures forall k | 0 <= k < |paths| :: paths[k] == Join(segments[..k + 1], delimiter)
  {
    if segments == [] then []
    else seq(|segments| - 1, k requires 0 <= k < |segments| - 1 => Join(segments[..k + 1], delimiter))
  }

  method HierarchyStrictPrefixes(segments: seq<string>, delimiter: string) returns (prefixes: seq<string>)
    ensures prefixes == StrictPrefixes(segments, delimiter)
  {
    prefixes := [];
    var length := 1;
    while length < |segments|
      invariant |prefixes| == length - 1 && (segments != [] ==> length <= |segments|)
      invariant segments == [] ==> length == 1
      invariant forall k | 0 <= k < length - 1 :: prefixes[k] == Join(segments[..k + 1], delimiter)
    {
      prefixes := prefixes + [Join(segments[..length], delimiter)];
      length := length + 1;
    }
  }

  predicate FieldIsAncestor(relation: Relation, fieldIsLeft: bool) {
    (relation == AncestorOf && fieldIsLeft) || (relation == DescendentOf && !fieldIsLeft)
  }

  /** A column split on a non-empty delimiter, against a constant's segments. */
  function BuildFieldFilter(relation: Relation, segments: seq<string>, delimiter: string, fieldIsLeft: bool): Condition
  {
    var constantPath := Join(segments, delimiter);
    var prefixes := StrictPrefixes(segments, delimiter);
    var isDescendantOfConstant := PrefixedBy(constantPath + delimiter);
    if relation == Overlaps then
      OrC((if prefixes == [] then [] else [OneOf(prefixes)]) + [EqualTo(constantPath), isDescendantOfConstant])
    else if FieldIsAncestor(relation, fieldIsLeft) then
      if prefixes == [] then Never else OneOf(prefixes)
    else isDescendantOfConstant
  }

  /** A column split into characters, against a constant whose segments are single characters. */
  function BuildCharacterFilter(relation: Relation, characters: string, fieldIsLeft: bool): Condition {
    var prefixes := seq(|characters| + 1, size requires 0 <= size <= |characters| => characters[..size]);
    var strict := if characters == "" then Never else OneOf(prefixes[..|characters|]);
    if relation == Overlaps then OrC([OneOf(prefixes), PrefixedBy(characters)])
    else if FieldIsAncestor(relation, fieldIsLeft) then strict
    else AndC([PrefixedBy(characters), LongerThan(|characters|)])
  }

  // ----- against the evaluator's relations -----

  /** The evaluator's relation between the stored path and the constant, in the plan's order. */
  function CelRelation(relation: Relation, stored: seq<string>, constant: seq<string>, fieldIsLeft: bool): bool {
    var left, right := if fieldIsLeft then stored else constant, if fieldIsLeft then constant else stored;
    RelationOf(relation, Hierarchy(left), Hierarchy(right)) == OfBool(true)
  }

  lemma RelationMeaning(relation: Relation, stored: seq<string>, constant: seq<string>, fieldIsLeft: bool)
    ensures CelRelation(relation, stored, constant, fieldIsLeft) <==>
      if relation == Overlaps then stored <= constant || constant <= stored
      else if FieldIsAncestor(relation, fieldIsLeft) then stored < constant
      else constant < stored
  {
    PrefixIsSegmentPrefix(stored, constant);
    PrefixIsSegmentPrefix(constant, stored);
  }

  lemma PrefixIsSegmentPrefix(a: seq<string>, b: seq<string>)
    ensures SegmentPrefix(a, b) <==> a <= b
  {
    if SegmentPrefix(a, b) && a != [] {
      var i := |a| - 1;
      var last := a[i];
      assert i < |b| && b[i] == last;
      assert forall i | 0 <= i < |a| :: b[i] == a[i];
    }
  }

  lemma IsStrictPrefix(s: string, segments: seq<string>, delimiter: string)
    requires delimiter != [] && segments != []
    ensures Split(s, delimiter) < segments ==> s in StrictPrefixes(segments, delimiter)
    ensures s in StrictPrefixes(segments, delimiter) <==>
      exists k :: 1 <= k < |segments| && s == Join(segments[..k], delimiter)
  {
    var paths := StrictPrefixes(segments, delimiter);
    var parts := Split(s, delimiter);
    if parts < segments {
      JoinSplit(s, delimiter);
      assert segments[..|parts|] == parts;
      assert paths[|parts| - 1] == s;
    }
    if k :| 1 <= k < |segments| && s == Join(segments[..k], delimiter) {
      assert paths[k - 1] == s;
    }
    if s in paths {
      var j :| 0 <= j < |paths| && paths[j] == s;
      assert s == Join(segments[..j + 1], delimiter);
    }
  }

  /** A joined prefix splits back to itself, or it is an ancestor of no kind. */
  lemma AncestorPath(segments: seq<string>, k: nat, delimiter: string)
    requires delimiter != [] && 1 <= k < |segments|
    ensures Split(Join(segments[..k], delimiter), delimiter) < segments <==> SplitsBack(segments[..k], delimiter)
  {
    var s := Join(segments[..k], delimiter);
    var parts := Split(s, delimiter);
    SplitJoin(segments[..k], delimiter);
    if parts < segments {
      JoinSplit(s, delimiter);
      var m := |parts|;
      assert parts == segments[..m];
      if m < k {
        assert segments[..k][..m] == segments[..m];
        JoinGrows(segments[..k], m, delimiter);
      } else if k < m {
        assert segments[..m][..k] == segments[..k];
        JoinGrows(segments[..m], k, delimiter);
      }
    }
  }

  lemma JoinedPrefix(segments: seq<string>, parts: seq<string>, delimiter: string)
    requires segments != [] && segments < parts
    ensures StartsWith(Join(parts, delimiter), Join(segments, delimiter) + delimiter)
  {
    var rest := parts[|segments|..];
    assert parts == segments + rest;
    JoinAppend(segments, rest, delimiter);
  }

  lemma ClosedFront(segments: seq<string>, parts: seq<string>, delimiter: string)
    requires segments < parts && AllClosed(parts[..|parts| - 1], delimiter)
    ensures AllClosed(segments, delimiter)
  {
    var front := parts[..|parts| - 1];
    assert forall i | 0 <= i < |segments| :: segments[i] == front[i];
  }

  /** A stored descendant of the constant starts with it and a delimiter, and closes its segments. */
  lemma DescendantStarts(segments: seq<string>, s: string, delimiter: string)
    requires delimiter != [] && segments != [] && segments < Split(s, delimiter)
    ensures StartsWith(s, Join(segments, delimiter) + delimiter)
    ensures AllClosed(segments, delimiter)
  {
    JoinSplit(s, delimiter);
    JoinedPrefix(segments, Split(s, delimiter), delimiter);
    PartsAreClosed(s, delimiter);
    ClosedFront(segments, Split(s, delimiter), delimiter);
  }

  /** Of closed segments, starting with them and a delimiter is being a descendant. */
  lemma StartsIsDescendant(segments: seq<string>, s: string, delimiter: string)
    requires delimiter != [] && segments != [] && AllClosed(segments, delimiter)
    requires StartsWith(s, Join(segments, delimiter) + delimiter)
    ensures segments < Split(s, delimiter)
  {
    var path := Join(segments, delimiter) + delimiter;
    assert s == path + s[|path|..];
    SplitPrefix(segments, delimiter, s[|path|..]);
  }

  /** The condition under which a field filter is exact on every stored string. */
  predicate Exact(relation: Relation, segments: seq<string>, delimiter: string, fieldIsLeft: bool)
    requires segments != []
  {
    if relation != Overlaps && FieldIsAncestor(relation, fieldIsLeft) then
      forall k | 1 <= k < |segments| :: SplitsBack(segments[..k], delimiter)
    else AllClosed(segments, delimiter)
  }

  /** The SQL filter and the evaluator's relation agree on a stored string. */
  ghost predicate AgreesOn(s: string, relation: Relation, segments: seq<string>, delimiter: string, fieldIsLeft: bool)
    requires segments != [] && delimiter != []
  {
    Holds(BuildFieldFilter(relation, segments, delimiter, fieldIsLeft), Some(s)) ==
    OfTruth(CelRelation(relation, Split(s, delimiter), segments, fieldIsLeft))
  }

  lemma FilterMeaning(relation: Relation, segments: seq<string>, delimiter: string, fieldIsLeft: bool, s: string)
    requires segments != []
    ensures var path := Join(segments, delimiter);
      Holds(BuildFieldFilter(relation, segments, delimiter, fieldIsLeft), Some(s)) == OfTruth(
        if relation == Overlaps then
          s in StrictPrefixes(segments, delimiter) || s == path || StartsWith(s, path + delimiter)
        else if FieldIsAncestor(relation, fieldIsLeft) then s in StrictPrefixes(segments, delimiter)
        else StartsWith(s, path + delimiter))
  {
    if relation == Overlaps {
      var path := Join(segments, delimiter);
      var prefixes := StrictPrefixes(segments, delimiter);
      var cs := (if prefixes == [] then [] else [OneOf(prefixes)]) + [EqualTo(path), PrefixedBy(path + delimiter)];
      var held := seq(|cs|, i requires 0 <= i < |cs| => Holds(cs[i], Some(s)));
      assert Holds(OrC(cs), Some(s)) == AnyOf(held);
      assert |cs| == 2 ==> held == [Holds(cs[0], Some(s)), Holds(cs[1], Some(s))];
      assert |cs| == 3 ==> held == [Holds(cs[0], Some(s)), Holds(cs[1], Some(s)), Holds(cs[2], Some(s))];
    }
  }

  lemma AncestorExact(relation: Relation, segments: seq<string>, delimiter: string, fieldIsLeft: bool, s: string)
    requires segments != [] && delimiter != [] && FieldIsAncestor(relation, fieldIsLeft)
    requires Exact(relation, segments, delimiter, fieldIsLeft)
    ensures AgreesOn(s, relation, segments, delimiter, fieldIsLeft)
  {
    FilterMeaning(relation, segments, delimiter, fieldIsLeft, s);
    RelationMeaning(relation, Split(s, delimiter), segments, fieldIsLeft);
    IsStrictPrefix(s, segments, delimiter);
    if k :| 1 <= k < |segments| && s == Join(segments[..k], delimiter) {
      AncestorPath(segments, k, delimiter);
    }
  }

  lemma ClosedSplitsBack(segments: seq<string>, delimiter: string)
    requires delimiter != [] && segments != [] && AllClosed(segments, delimiter)
    ensures SplitsBack(segments, delimiter)
    ensures forall k | 1 <= k < |segments| :: SplitsBack(segments[..k], delimiter)
  {
    forall k | 1 <= k <= |segments| ensures SplitsBack(segments[..k], delimiter) {
      ClosedIsFree(segments[k - 1], delimiter);
    }
    assert segments[..|segments|] == segments;
  }

  /** On closed constant segments, the three string tests are the three prefix relations. */
  lemma PathMeaning(segments: seq<string>, delimiter: string, s: string)
    requires segments != [] && delimiter != [] && AllClosed(segments, delimiter)
    ensures s in StrictPrefixes(segments, delimiter) <==> Split(s, delimiter) < segments
    ensures s == Join(segments, delimiter) <==> Split(s, delimiter) == segments
    ensures StartsWith(s, Join(segments, delimiter) + delimiter) <==> segments < Split(s, delimiter)
  {
    ClosedSplitsBack(segments, delimiter);
    IsStrictPrefix(s, segments, delimiter);
    if k :| 1 <= k < |segments| && s == Join(segments[..k], delimiter) {
      AncestorPath(segments, k, delimiter);
    }
    EqualPath(segments, delimiter, s);
    if StartsWith(s, Join(segments, delimiter) + delimiter) {
      StartsIsDescendant(segments, s, delimiter);
    }
    if segments < Split(s, delimiter) {
      DescendantStarts(segments, s, delimiter);
    }
  }

  lemma EqualPath(segments: seq<string>, delimiter: string, s: string)
    requires segments != [] && delimiter != [] && SplitsBack(segments, delimiter)
    ensures s == Join(segments, delimiter) <==> Split(s, delimiter) == segments
  {
    SplitJoin(segments, delimiter);
    JoinSplit(s, delimiter);
  }

  lemma DescendantExact(relation: Relation, segments: seq<string>, delimiter: string, fieldIsLeft: bool, s: string)
    requires segments != [] && delimiter != [] && AllClosed(segments, delimiter)
    requires !FieldIsAncestor(relation, fieldIsLeft)
    ensures AgreesOn(s, relation, segments, delimiter, fieldIsLeft)
  {
    var parts := Split(s, delimiter);
    FilterMeaning(relation, segments, delimiter, fieldIsLeft, s);
    RelationMeaning(relation, parts, segments, fieldIsLeft);
    PathMeaning(segments, delimiter, s);
    assert parts <= segments || segments <= parts <==> parts < segments || parts == segments || segments < parts;
  }

  /** A stored path on which an open segment makes the filter and the relation differ. */
  lemma OpenSegmentDiffers(relation: Relation, segments: seq<string>, delimiter: string, fieldIsLeft: bool)
    requires segments != [] && delimiter != [] && !AllClosed(segments, delimiter)
    requires !FieldIsAncestor(relation, fieldIsLeft)
    ensures !AgreesOn(Join(segments, delimiter) + delimiter, relation, segments, delimiter, fieldIsLeft)
  {
    var s := Join(segments, delimiter) + delimiter;
    FilterMeaning(relation, segments, delimiter, fieldIsLeft, s);
    RelationMeaning(relation, Split(s, delimiter), segments, fieldIsLeft);
    OpenSegmentUnrelated(segments, delimiter);
  }

  lemma OpenSegmentUnrelated(segments: seq<string>, delimiter: string)
    requires segments != [] && delimiter != [] && !AllClosed(segments, delimiter)
    ensures var parts := Split(Join(segments, delimiter) + delimiter, delimiter);
      !(segments < parts) && !(parts <= segments)
  {
    OpenIsNoAncestor(segments, Join(segments, delimiter) + delimiter, delimiter);
    JoinSplit(Join(segments, delimiter) + delimiter, delimiter);
    LongerIsNoPrefix(Split(Join(segments, delimiter) + delimiter, delimiter), segments, delimiter);
  }

  lemma OpenIsNoAncestor(segments: seq<string>, s: string, delimiter: string)
    requires segments != [] && delimiter != [] && !AllClosed(segments, delimiter)
    ensures !(segments < Split(s, delimiter))
  {
    if segments < Split(s, delimiter) {
      DescendantStarts(segments, s, delimiter);
    }
  }

  lemma LongerIsNoPrefix(parts: seq<string>, segments: seq<string>, delimiter: string)
    requires delimiter != [] && parts != [] && Join(parts, delimiter) == Join(segments, delimiter) + delimiter
    ensures !(parts <= segments)
  {
    PrefixIsShorter(parts, segments, delimiter);
    assert |Join(parts, delimiter)| > |Join(segments, delimiter)|;
    assert parts <= segments <==> parts < segments || parts == segments;
  }

  /** A proper prefix of the segments joins to a shorter string. */
  lemma PrefixIsShorter(parts: seq<string>, segments: seq<string>, delimiter: string)
    requires delimiter != [] && parts != []
    ensures parts < segments ==> |Join(parts, delimiter)| < |Join(segments, delimiter)|
  {
    if parts < segments {
      assert segments[..|parts|] == parts;
      JoinGrows(segments, |parts|, delimiter);
    }
  }

  /** Which relation the filter lowers decides the condition it needs; nothing weaker is enough. */
  lemma FieldHierarchyExact(relation: Relation, segments: seq<string>, delimiter: string, fieldIsLeft: bool)
    requires segments != [] && delimiter != []
    ensures (forall s: string :: AgreesOn(s, relation, segments, delimiter, fieldIsLeft)) <==>
      Exact(relation, segments, delimiter, fieldIsLeft)
  {
    if Exact(relation, segments, delimiter, fieldIsLeft) {
      forall s: string ensures AgreesOn(s, relation, segments, delimiter, fieldIsLeft) {
        if FieldIsAncestor(relation, fieldIsLeft) {
          AncestorExact(relation, segments, delimiter, fieldIsLeft, s);
        } else {
          DescendantExact(relation, segments, delimiter, fieldIsLeft, s);
        }
      }
    } else if FieldIsAncestor(relation, fieldIsLeft) {
      var k :| 1 <= k < |segments| && !SplitsBack(segments[..k], delimiter);
      var s := Join(segments[..k], delimiter);
      FilterMeaning(relation, segments, delimiter, fieldIsLeft, s);
      RelationMeaning(relation, Split(s, delimiter), segments, fieldIsLeft);
      IsStrictPrefix(s, segments, delimiter);
      AncestorPath(segments, k, delimiter);
      assert !AgreesOn(s, relation, segments, delimiter, fieldIsLeft);
    } else {
      OpenSegmentDiffers(relation, segments, delimiter, fieldIsLeft);
    }
  }

  /** For a one-character delimiter, constant segments without it make every filter exact. */
  lemma OneCharacterExact(relation: Relation, segments: seq<string>, d: char, fieldIsLeft: bool, s: string)
    requires segments != [] && forall i | 0 <= i < |segments| :: d !in segments[i]
    ensures AgreesOn(s, relation, segments, [d], fieldIsLeft)
  {
    forall i | 0 <= i < |segments| ensures Closed(segments[i], [d]) {
      OneCharacter(segments[i], d);
    }
    ClosedSplitsBack(segments, [d]);
    FieldHierarchyExact(relation, segments, [d], fieldIsLeft);
  }

  /**
    A NULL column makes the filter UNKNOWN, CEL's error, with one exception: a constant of one segment
    has no ancestors, and the constant false that says so is false for a NULL column too.
   */
  lemma NullColumn(relation: Relation, segments: seq<string>, delimiter: string, fieldIsLeft: bool)
    requires segments != []
    ensures Holds(BuildFieldFilter(relation, segments, delimiter, fieldIsLeft), None) == Unknown <==>
      !(FieldIsAncestor(relation, fieldIsLeft) && |segments| == 1)
  {
    if relation == Overlaps {
      var c := BuildFieldFilter(relation, segments, delimiter, fieldIsLeft);
      var held := seq(|c.cs|, i requires 0 <= i < |c.cs| => Holds(c.cs[i], None));
      assert Holds(c, None) == AnyOf(held);
      assert forall i | 0 <= i < |held| :: held[i] == Unknown;
      assert held[0] == Unknown;
    }
  }

  // ----- the empty delimiter -----

  function Characters(s: string): seq<string> {
    SplitHierarchy(s, "")
  }

  lemma CharactersPrefix(a: string, b: string)
    ensures Characters(a) <= Characters(b) <==> a <= b
    ensures |Characters(a)| == |a|
  {
    assert forall i | 0 <= i < |a| :: Characters(a)[i] == [a[i]];
    assert forall i | 0 <= i < |b| :: Characters(b)[i] == [b[i]];
    if Characters(a) <= Characters(b) {
      assert forall i | 0 <= i < |a| :: [a[i]] == [b[i]];
      assert forall i | 0 <= i < |a| :: [a[i]][0] == [b[i]][0];
    }
  }

  /** Split per character, the string filter is the evaluator's relation on every stored string. */
  lemma CharacterHierarchyExact(relation: Relation, characters: string, fieldIsLeft: bool, s: string)
    ensures Holds(BuildCharacterFilter(relation, characters, fieldIsLeft), Some(s)) ==
      OfTruth(CelRelation(relation, Characters(s), Characters(characters), fieldIsLeft))
  {
    RelationMeaning(relation, Characters(s), Characters(characters), fieldIsLeft);
    CharactersPrefix(s, characters);
    CharactersPrefix(characters, s);
    CharacterPrefixes(characters, s);
    var c := BuildCharacterFilter(relation, characters, fieldIsLeft);
    if c.OrC? || c.AndC? {
      var cs := c.cs;
      var held := seq(|cs|, i requires 0 <= i < |cs| => Holds(cs[i], Some(s)));
      assert held == [Holds(cs[0], Some(s)), Holds(cs[1], Some(s))];
    }
  }

  lemma CharacterPrefixes(characters: string, s: string)
    ensures var prefixes := seq(|characters| + 1, size requires 0 <= size <= |characters| => characters[..size]);
      (s in prefixes <==> s <= characters) && (s in prefixes[..|characters|] <==> s < characters)
  {
    var prefixes := seq(|characters| + 1, size requires 0 <= size <= |characters| => characters[..size]);
    if s <= characters {
      assert prefixes[|s|] == characters[..|s|] == s;
      assert s != characters ==> prefixes[..|characters|][|s|] == s;
    }
    assert forall k | 0 <= k <= |characters| :: prefixes[k] == characters[..k] && |prefixes[k]| == k;
  }

  /** The same exception for a NULL column: the constant that has no proper prefix. */
  lemma CharacterNullColumn(relation: Relation, characters: string, fieldIsLeft: bool)
    ensures Holds(BuildCharacterFilter(relation, characters, fieldIsLeft), None) == Unknown <==>
      !(FieldIsAncestor(relation, fieldIsLeft) && characters == "")
  {
    var prefixes := seq(|characters| + 1, size requires 0 <= size <= |characters| => characters[..size]);
    HoldsPair(OneOf(prefixes), PrefixedBy(characters), None);
    HoldsPair(PrefixedBy(characters), LongerThan(|characters|), None);
  }

  lemma HoldsPair(a: Condition, b: Condition, column: Option<string>)
    ensures Holds(OrC([a, b]), column) == AnyOf([Holds(a, column), Holds(b, column)])
    ensures Holds(AndC([a, b]), column) == AllOf([Holds(a, column), Holds(b, column)])
  {
    var cs := [a, b];
    assert seq(|cs|, i requires 0 <= i < |cs| => Holds(cs[i], column)) == [Holds(a, column), Holds(b, column)];
  }
}
