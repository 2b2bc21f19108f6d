/** The hierarchy filters over one column, against the evaluator on the whole plan. */
module HierarchyPlans {
  import opened Wrappers
  import opened Texts
  import opened Splitting
  import opened Cel
  import opened Plans
  import opened Evaluator
  import opened EvaluatorLaws
  import opened ThreeValued
  import opened HierarchyLowering

  /** `hierarchy(path)` or `hierarchy(path, delimiter)`. */
  function Call(path: Operand, delimiter: Option<string>): Operand {
    Expr(ToHierarchy, [path] + if delimiter.Some? then [Literal(Str(delimiter.value))] else [])
  }

  function DelimiterOf(delimiter: Option<string>): string {
    if delimiter.Some? then delimiter.value else "."
  }

  /** A column's path and a constant's, each with its own delimiter, in the plan's order. */
  datatype Sides = Sides(relation: Relation, field: Path, fieldDelimiter: Option<string>, constant: string,
    constantDelimiter: Option<string>, fieldIsLeft: bool)
  {
    function Plan(): Operand {
      var field, constant := Call(Variable(field), fieldDelimiter), Call(Literal(Str(constant)), constantDelimiter);
      Expr(Relate(relation), if fieldIsLeft then [field, constant] else [constant, field])
    }

    function Segments(): seq<string> {
      SplitHierarchy(constant, DelimiterOf(constantDelimiter))
    }

    predicate Ancestor() {
      FieldIsAncestor(relation, fieldIsLeft)
    }
  }

  predicate SingleCharacters(segments: seq<string>) {
    forall i | 0 <= i < |segments| :: |segments[i]| == 1
  }

  /** The filter, or the refusal of an empty delimiter that does not split both sides per character. */
  function BuildHierarchyFilter(sides: Sides): Translation<Condition> {
    var delimiter, segments := DelimiterOf(sides.fieldDelimiter), sides.Segments();
    if delimiter == "" || DelimiterOf(sides.constantDelimiter) == "" then
      if delimiter != "" || !SingleCharacters(segments) then Refused
      else Done(BuildCharacterFilter(sides.relation, Join(segments, ""), sides.fieldIsLeft))
    else Done(BuildFieldFilter(sides.relation, segments, delimiter, sides.fieldIsLeft))
  }

  // ----- the evaluator's answer -----

  /** The scope of a row whose column is NULL where the document lacks the attribute. */
  predicate Represents(sc: Scope, field: Path, column: Option<string>) {
    LookUp(field, sc) == if column.Some? then Ok(Str(column.value)) else Err
  }

  lemma CallEvaluates(path: Operand, delimiter: Option<string>, sc: Scope, read: Option<string>)
    requires Evaluate(path, sc) == if read.Some? then Ok(Str(read.value)) else Err
    ensures Evaluate(Call(path, delimiter), sc) ==
      if read.None? then Err else Ok(Hierarchy(SplitHierarchy(read.value, DelimiterOf(delimiter))))
  {
    hide Evaluate, SplitHierarchy;
    if delimiter.None? {
      assert [path] + [] == [path];
      UnaryStep(ToHierarchy, path, sc);
    } else {
      var literal := Literal(Str(delimiter.value));
      assert [path] + [literal] == [path, literal];
      LiteralEvaluates(delimiter.value, sc);
      PairEvaluates(path, literal, sc);
    }
  }

  lemma LiteralEvaluates(s: string, sc: Scope)
    ensures Evaluate(Literal(Str(s)), sc) == Ok(Str(s))
  {
  }

  lemma PairEvaluates(path: Operand, delimiter: Operand, sc: Scope)
    ensures var a, b := Evaluate(path, sc), Evaluate(delimiter, sc);
      Evaluate(Expr(ToHierarchy, [path, delimiter]), sc) ==
      if a.Throw? || b.Throw? then Throw
      else if a.Err? || b.Err? then Err
      else ApplyTwo(ToHierarchy, FormOf(ToHierarchy, [path, delimiter], sc.bindings.Keys), sc.Env(), a.value, b.value)
  {
    hide Evaluate, ApplyTwo, FormOf;
    BinaryStep(ToHierarchy, path, delimiter, sc);
  }

  /** The plan is the relation between the stored path and the constant's, and errs where the column is missing. */
  lemma PlanEvaluates(sides: Sides, sc: Scope, column: Option<string>)
    requires Represents(sc, sides.field, column)
    ensures TriOf(Evaluate(sides.Plan(), sc)) ==
      if column.None? then Unknown
      else OfTruth(CelRelation(sides.relation,
        SplitHierarchy(column.value, DelimiterOf(sides.fieldDelimiter)), sides.Segments(), sides.fieldIsLeft))
  {
    hide SplitHierarchy, Evaluate, RelationOf;
    var field, constant := Variable(sides.field), Literal(Str(sides.constant));
    assert Evaluate(field, sc) == LookUp(sides.field, sc) by { VariableEvaluates(sides.field, sc); }
    LiteralEvaluates(sides.constant, sc);
    CallEvaluates(field, sides.fieldDelimiter, sc, column);
    CallEvaluates(constant, sides.constantDelimiter, sc, Some(sides.constant));
    var x, y := Call(field, sides.fieldDelimiter), Call(constant, sides.constantDelimiter);
    BinaryStep(Relate(sides.relation), x, y, sc);
    BinaryStep(Relate(sides.relation), y, x, sc);
    if column.Some? {
      RelationIsBoolean(sides.relation, SplitHierarchy(column.value, DelimiterOf(sides.fieldDelimiter)),
        sides.Segments());
      RelationIsBoolean(sides.relation, sides.Segments(),
        SplitHierarchy(column.value, DelimiterOf(sides.fieldDelimiter)));
    }
  }

  lemma VariableEvaluates(path: Path, sc: Scope)
    ensures Evaluate(Variable(path), sc) == LookUp(path, sc)
  {
  }

  lemma RelationIsBoolean(relation: Relation, a: seq<string>, b: seq<string>)
    ensures var r := RelationOf(relation, Hierarchy(a), Hierarchy(b)); r == OfBool(true) || r == OfBool(false)
  {
  }

  // ----- both filters, on every row -----

  lemma {:induction false} JoinedCharacters(segments: seq<string>)
    requires SingleCharacters(segments)
    ensures Characters(Join(segments, "")) == segments
    decreases |segments|
  {
    if segments != [] {
      var first, rest := segments[0], segments[1..];
      JoinedCharacters(rest);
      var joined := Join(rest, "");
      assert rest == [] ==> joined == "";
      assert Join(segments, "") == first + joined;
      assert Characters(first + joined) == [first] + Characters(joined) by {
        assert first == [first[0]];
        assert forall i | 1 <= i < |first + joined| :: (first + joined)[i] == joined[i - 1];
      }
    }
  }

  /** What the constant and the delimiters must satisfy for the filter to be right on every row, NULL ones included. */
  predicate ExactOnRows(sides: Sides) {
    if DelimiterOf(sides.fieldDelimiter) == "" then !(sides.Ancestor() && sides.Segments() == [])
    else
      sides.Segments() != [] && !(sides.Ancestor() && |sides.Segments()| == 1) &&
      Exact(sides.relation, sides.Segments(), DelimiterOf(sides.fieldDelimiter), sides.fieldIsLeft)
  }

  /** The filter and the plan agree on a row. */
  ghost predicate AnswersRow(sides: Sides, filter: Condition, sc: Scope, column: Option<string>) {
    Holds(filter, column) == TriOf(Evaluate(sides.Plan(), sc))
  }

  lemma CharacterRows(sides: Sides, sc: Scope, column: Option<string>)
    requires Represents(sc, sides.field, column)
    requires BuildHierarchyFilter(sides).Done? && DelimiterOf(sides.fieldDelimiter) == ""
    ensures AnswersRow(sides, BuildHierarchyFilter(sides).result, sc, column) <==>
      column.Some? || !(sides.Ancestor() && sides.Segments() == [])
  {
    hide Evaluate, CelRelation, BuildCharacterFilter, HierarchyLowering.Holds;
    var segments := sides.Segments();
    var characters := Join(segments, "");
    PlanEvaluates(sides, sc, column);
    JoinedCharacters(segments);
    if column.Some? {
      CharacterHierarchyExact(sides.relation, characters, sides.fieldIsLeft, column.value);
    } else {
      CharacterNullColumn(sides.relation, characters, sides.fieldIsLeft);
    }
  }

  lemma FieldRows(sides: Sides, sc: Scope, column: Option<string>)
    requires Represents(sc, sides.field, column)
    requires BuildHierarchyFilter(sides).Done? && DelimiterOf(sides.fieldDelimiter) != ""
    ensures sides.Segments() != []
    ensures AnswersRow(sides, BuildHierarchyFilter(sides).result, sc, column) <==>
      if column.None? then !(sides.Ancestor() && |sides.Segments()| == 1)
      else AgreesOn(column.value, sides.relation, sides.Segments(), DelimiterOf(sides.fieldDelimiter),
        sides.fieldIsLeft)
  {
    hide Evaluate, CelRelation, BuildFieldFilter, HierarchyLowering.Holds;
    PlanEvaluates(sides, sc, column);
    if column.None? {
      NullColumn(sides.relation, sides.Segments(), DelimiterOf(sides.fieldDelimiter), sides.fieldIsLeft);
    }
  }

  /**
    The filter answers every row as the evaluator answers the plan on that row's document exactly when the
    constant's segments meet the condition; nothing weaker is enough.
   */
  lemma HierarchyPlanExact(sides: Sides, scopes: Option<string> -> Scope)
    requires BuildHierarchyFilter(sides).Done?
    requires forall column :: Represents(scopes(column), sides.field, column)
    ensures (forall column :: AnswersRow(sides, BuildHierarchyFilter(sides).result, scopes(column), column)) <==>
      ExactOnRows(sides)
  {
    hide AnswersRow, Represents, BuildHierarchyFilter, AgreesOn, Exact;
    var filter := BuildHierarchyFilter(sides).result;
    if DelimiterOf(sides.fieldDelimiter) == "" {
      forall column ensures AnswersRow(sides, filter, scopes(column), column) <==>
        column.Some? || !(sides.Ancestor() && sides.Segments() == [])
      {
        CharacterRows(sides, scopes(column), column);
      }
      assert AnswersRow(sides, filter, scopes(None), None) <==> !(sides.Ancestor() && sides.Segments() == []);
    } else {
      var segments, delimiter := sides.Segments(), DelimiterOf(sides.fieldDelimiter);
      FieldRows(sides, scopes(None), None);
      FieldHierarchyExact(sides.relation, segments, delimiter, sides.fieldIsLeft);
      forall s: string ensures AnswersRow(sides, filter, scopes(Some(s)), Some(s)) <==>
        AgreesOn(s, sides.relation, segments, delimiter, sides.fieldIsLeft)
      {
        FieldRows(sides, scopes(Some(s)), Some(s));
      }
      if ExactOnRows(sides) {
        forall column ensures AnswersRow(sides, filter, scopes(column), column) {
          assert column == None || column == Some(column.value);
        }
      }
    }
  }

  /**
    The lowering refuses exactly a constant split into characters beside a column that is not, and a
    column split into characters beside a constant segment of any other length.
   */
  lemma HierarchyRefused(sides: Sides)
    ensures BuildHierarchyFilter(sides).Refused? <==>
      if sides.fieldDelimiter == Some("") then exists segment :: segment in sides.Segments() && |segment| != 1
      else sides.constantDelimiter == Some("")
  {
    hide SplitHierarchy;
  }

  // ----- inputs the lowering accepts and answers differently -----

  /** `overlaps(hierarchy(R.path), hierarchy("a.b", ":"))`: one segment, which the column's split separates. */
  const TWO_DELIMITERS := Sides(Overlaps, ["path"], None, "a.b", Some(":"), true)

  lemma MismatchedDelimiter(sc: Scope)
    requires Represents(sc, ["path"], Some("a.b"))
    ensures BuildHierarchyFilter(TWO_DELIMITERS).Done?
    ensures Holds(BuildHierarchyFilter(TWO_DELIMITERS).result, Some("a.b")) == True
    ensures TriOf(Evaluate(TWO_DELIMITERS.Plan(), sc)) == False
  {
    hide Evaluate, Split;
    Unsplit("a.b", ':');
    SplitAtPoint();
    PlanEvaluates(TWO_DELIMITERS, sc, Some("a.b"));
    RelationMeaning(Overlaps, ["a", "b"], ["a.b"], true);
    assert ["a", "b"][0] != ["a.b"][0];
    FilterMeaning(Overlaps, ["a.b"], ".", true, "a.b");
  }

  lemma Unsplit(s: string, d: char)
    requires d !in s
    ensures Split(s, [d]) == [s]
  {
    OneCharacter(s, d);
  }

  lemma SplitAtPoint()
    ensures Split("a.b", ".") == ["a", "b"]
  {
    OneCharacter("a", '.');
    SplitStep("a", ".", "b");
    Unsplit("b", '.');
    assert "a" + "." + "b" == "a.b";
  }

  /** `!ancestorOf(hierarchy(R.path), hierarchy("root"))` keeps the rows without a path, where CEL errs. */
  const NO_ANCESTORS := Sides(AncestorOf, ["path"], None, "root", None, true)

  lemma NegatedNullKept(sc: Scope)
    requires Represents(sc, ["path"], None)
    ensures BuildHierarchyFilter(NO_ANCESTORS).Done?
    ensures WithPolarity(Holds(BuildHierarchyFilter(NO_ANCESTORS).result, None), true) == True
    ensures TriOf(Evaluate(Expr(Not, [NO_ANCESTORS.Plan()]), sc)) == Unknown
  {
    hide Evaluate, Split, Holds, BuildFieldFilter;
    Unsplit("root", '.');
    assert Holds(BuildFieldFilter(AncestorOf, ["root"], ".", true), None) == False by { NothingAbove(["root"]); }
    PlanEvaluates(NO_ANCESTORS, sc, None);
    NegationErrs(NO_ANCESTORS.Plan(), sc);
  }

  lemma NothingAbove(segments: seq<string>)
    requires |segments| == 1
    ensures Holds(BuildFieldFilter(AncestorOf, segments, ".", true), None) == False
  {
  }

  lemma NegationErrs(plan: Operand, sc: Scope)
    requires TriOf(Evaluate(plan, sc)) == Unknown
    ensures TriOf(Evaluate(Expr(Not, [plan]), sc)) == Unknown
  {
    hide Evaluate;
    UnaryStep(Not, plan, sc);
  }
}
