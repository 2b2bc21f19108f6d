# Verified models of the query-plan adapters

The adapters turn a Cerbos query plan (a CEL expression tree) into a filter of some store. Their invariant is
"the same rows as CEL, or refuse". This Dafny project models the parts where that is hardest to see and proves it.

One evaluator is the reference meaning throughout: `Evaluator.Evaluate`, the Convex adapter's own interpreter, with
CEL's errors, error absorption, lambda scopes, quantifiers and the dependence of arithmetic on an expression's shape.
What it answers is itself stated operator by operator in terms of its operands' values alone (`OperatorLaws`,
`MacroLaws`), over what values, numbers and texts mean (`ValueLaws`, `DoubleLaws`, `GeneralFormat`) and the types a
plan's expressions have (`PlanTypes`).

- **Convex.** The pushdown compiler, with the filter language as a datatype interpreted under Convex's cross-type
  order; the routing of a plan between the filter and the in-memory half; exactly which plans are refused; the
  end-to-end theorem over every kind of plan.
- **Drizzle.** Substitution into lambdas, unrolling, the three-valued macros, hierarchies as string tests, division
  with IEEE arms, `string()` inverted into a number comparison, each with an interpreter of the SQL it emits and
  exactly what it refuses.
- **pgx.** The renderer as a class over a growing buffer and argument list, a reader of its text, numbering.
- **Scanners.** Durations, string order and the negative-zero pass, as loops proved against declarative meanings.

Shared vocabulary: `Doubles` keeps NaN, the infinities and the sign of zero exact and finite arithmetic real;
`Outcome` is a value, CEL's error (`Err`), or an exception that leaves the evaluator (`Throw`); `Tri` is SQL's
TRUE, FALSE and NULL; `Translation` is a result or the refusal the source throws.

## What the proofs found

- `duration()` looks its unit up in a plain object, so `1toString` meets an inherited method and raises a TypeError
  where CEL has an error (`DurationGrammar.RaisesExactly`). Besides the deliberate backstop of `/`, it is the only
  exception of a well-formed plan, and the two are the only ways in which an added attribute changes an answer
  (`Exceptions.MonotoneExactly`, `AddedAttributeThrows`).
- The comparison of a path's column and a constant split on different delimiters is accepted and answered wrongly:
  `overlaps` keeps the stored `a.b` for `hierarchy("a.b", ":")` (`HierarchyPlans.MismatchedDelimiter`);
  `HierarchyPlans.HierarchyPlanExact` gives the exact condition.
- A field compared as an ancestor of a one-segment constant path is answered with a constant false, so a NULL column
  is FALSE there, not NULL, and a negation keeps the row (`HierarchyPlans.NegatedNullKept`).
- `string(x) == "+Inf"` over a column holding an infinity is answered false, and `!=` true, where CEL answers the
  opposite (`NumberStrings.InfiniteColumnMisread`; `NumberStringCorrect` gives the exact condition).
- A division compared with a constant that folds to an infinity is compared with the sentinel 0 instead: over a zero
  denominator `R.a / R.b != 1.0 / 0.0` keeps a row that IEEE arithmetic drops
  (`DivisionCases.InfiniteComparandMisread`). `DivisionCaseExact` gives the exact condition on rows, and
  `QuotientExact` the one on operator, side and constant that settles all rows.
- Substituting a number for a lambda's variable changes `t % 2` (`Substitution.ModuloDiffers`), arithmetic beside a
  CEL int such as `size("a") / t` (`SubstitutionExact.DivisionBesideIntDiffers`), and `string()` of a ternary with an
  int branch (`StringOfTernaryDiffers`). `ArithmeticAgrees` and `StringAgrees` give the exact operand values.
- The negative-zero pass also rewrites an exponent of `-0`, always into what is no JSON number
  (`NegativeZero.MinusZeroExponentBreaks`, `OneToTheMinusZero`; `KeepsJson` gives the exact condition).
- An equality, a membership or a bare variable that is pushed and negated agrees with CEL exactly under the
  conditions of `PushdownCorrect.EqualityLeaf`, `MembershipLeaf` and `VariableLeaf`; orderings need none. `!R.flag`
  over a stored string is kept, and so is `!(R.a == "x")` or `!(R.a in ["x"])` without the attribute
  (`NegatedStringKept`, `NegatedEqualityKept`, `NegatedMembershipKept`).

## Reading order

`Cel`, `DoubleLaws`, `IntLaws`, `Plans`, `Evaluator`, `EvaluatorLaws`, `PlanTypes`, `ValueLaws`, `OperatorLaws`,
`MacroLaws`; then any of `Pushdown`, `PushdownCorrect`, `QueryPlans`, `Validate`, `PlanChecks`; `Substitution`,
`SubstitutionShape`, `SubstitutionExact`, `Unrolling`, `Macros`, `ListLaws`; `Splitting`, `HierarchyLowering`,
`HierarchyPlans`, `SegmentedHierarchies`; `DivisionLowering`, `DivisionCorrect`, `DivisionCases`,
`DivisionRefusals`, `DivisionEvaluates`; `DoubleReading`, `GeneralFormat`, `NumberStrings`; `SqlTrees`, `Rendering`,
`RenderReadBack`, `RenderLexing`, `RenderText`; `DurationParsing`, `DurationGrammar`, `Exceptions`; `CodePoints`;
`NegativeZero`.

## Model

| member | source | states |
|---|---|---|
| Cel.GetNestedValue | convex/src/cel.ts:33-46 | the loop over a current value reads what the recursive path read does, an absent key at any level being the missing-attribute error |
| IntLaws.CarriedExactly | convex/src/cel.ts:501-510 | an int is carried without loss, as a number or past the safe range as a bigint, and errs exactly outside int64 |
| IntLaws.QuotientTruncates | convex/src/cel.ts:543-547 | division truncates toward zero and the remainder takes the dividend's sign |
| IntLaws.ArithmeticIsExact | convex/src/cel.ts:548-569 | every int operation is the exact one, and errs exactly on int64 overflow or a zero divisor |
| IntLaws.IntOfString | convex/src/cel.ts:471-531 | `int(string(i))` is `i` for every int64, on both sides of the safe range |
| DoubleLaws.LessIsBefore | convex/src/cel.ts:104-141 | doubles are ordered and equal as points of the extended real line, and NaN is neither |
| DoubleLaws.RealIsExact | convex/src/cel.ts:498-510 | a whole number's double denotes exactly it, and zero's is the unsigned one |
| DoubleLaws.TruncatesTowardZero | convex/src/cel.ts:512-522 | truncation drops the fraction toward zero, and a double is whole exactly when nothing is dropped |
| DoubleLaws.SumIsExact | convex/src/evaluate.ts:359-360 | a finite sum is the exact one, negative on a zero only when both operands are; opposite infinities have none |
| DoubleLaws.DifferenceIsExact | convex/src/evaluate.ts:361-362 | the same of a difference |
| DoubleLaws.ProductIsExact | convex/src/evaluate.ts:363-364 | a product is exact with the sign of the two, and has no value exactly for an infinity times zero and NaN |
| DoubleLaws.QuotientIsExact | convex/src/evaluate.ts:365-375 | a quotient times the divisor is the dividend; it is infinite exactly over a zero or of an infinity, and has no value exactly for 0/0, infinity over infinity and NaN |
| DoubleLaws.RemainderIsExact | convex/src/evaluate.ts:496-499 | the dividend is a whole number of divisors and the remainder, which is nearer zero than the divisor and has the dividend's sign |
| ValueLaws.EqualIsMeaning | convex/src/cel.ts:51-94 | two values are equal exactly when they mean the same, whichever way an int is carried and in whatever order a map lists its keys, and no NaN is nested in either |
| ValueLaws.LexOrderIsBefore | convex/src/cel.ts:144-155 | a string precedes another where it ends first or has the smaller code point at their first difference, and ties it only when equal |
| ValueLaws.ComparesByOrder | convex/src/cel.ts:96-141 | all six comparisons by the order within a type, false beside NaN, and an error between types save for equality |
| ValueLaws.IntOfText | convex/src/cel.ts:524-529 | `int()` of a string: the int that its sign and its digits, read from the left by their place in `0123456789`, spell; an error outside that language and outside int64 |
| ValueLaws.OnlyIntText | convex/src/cel.ts:471-482 | an int's text spells it, and is the only one without a plus or a superfluous zero that does |
| ValueLaws.DoubleTexts | convex/src/cel.ts:428-428 | the strings `double()` reads are exactly a sign, digits about a point and a power of ten, each optional save one digit |
| ValueLaws.DoubleSpelled | convex/src/cel.ts:439-464 | `string()` of a double: the infinities, NaN and the zeros by their names, and else %g text that reads back to it |
| PlanTypes.ShapesAreTypes | convex/src/evaluate.ts:387-427 | the tests for temporal, int, integral and double operands are one typing of the plan, CEL's overloads of `+` and `-` listed in a table |
| PlanTypes.TernaryType | convex/src/evaluate.ts:545-560 | the numeric type of a ternary is that of the first expression it may stand for that has one |
| PlanTypes.TypingIsSound | convex/src/evaluate.ts:501-531 | an expression that has a value has one of its type: a timestamp, an int64 duration, a whole number, a double |
| OperatorLaws.MissingOperandThrows | convex/src/evaluate.ts:81-132 | a missing operand, and a lambda, an entry or an unknown operator by itself, raise an exception |
| OperatorLaws.FailureSpreads | convex/src/evaluate.ts:129-165 | an operand's exception is the operator's, and else its error |
| OperatorLaws.FailurePasses | convex/src/evaluate.ts:701-706 | the same of the operators of one operand |
| OperatorLaws.StringTests | convex/src/evaluate.ts:730-744 | `contains`, `startsWith` and `endsWith` are true exactly when the receiver is `u + t + v`, with `u` empty for a prefix and `v` for a suffix; an error on anything but strings |
| OperatorLaws.UpperAsciiRaises | convex/src/evaluate.ts:944-952 | each Latin letter is raised in its place and every other character left |
| OperatorLaws.MatchesPattern | convex/src/evaluate.ts:745-756 | `matches` tries its first operand against its second as the pattern; an unsupported pattern and a non-string are errors |
| OperatorLaws.IndexReads | convex/src/evaluate.ts:883-907 | a list is indexed by the whole number a double denotes and a map by its own keys; everything else is an error |
| OperatorLaws.SizeCounts | convex/src/evaluate.ts:922-931 | code points, elements or keys |
| OperatorLaws.InLooks | convex/src/evaluate.ts:715-729 | `in` finds an equal element of a list, or a key of a map |
| OperatorLaws.ListOperations | convex/src/evaluate.ts:759-834 | `except`, `intersect` (of the shorter list), `isSubset` and `hasIntersection` by which elements have an equal one in the other list, in order |
| OperatorLaws.HierarchyOne | convex/src/evaluate.ts:1000-1011 | `hierarchy()` of a string cut at its dots, of a list of strings, and of a hierarchy |
| OperatorLaws.HierarchyTwo | convex/src/evaluate.ts:991-999 | and with a delimiter, the empty one cutting into characters |
| OperatorLaws.Relates | convex/src/evaluate.ts:649-663 | ancestor, descendent and overlap: one path is the other and more segments, strictly for the first two |
| OperatorLaws.Compares | convex/src/evaluate.ts:148-153 | the comparisons, evaluated |
| OperatorLaws.Negates | convex/src/evaluate.ts:701-706 | `not` of a boolean, and an error of anything else |
| OperatorLaws.TernaryAnswers | convex/src/evaluate.ts:983-989 | the condition chooses the branch and the other is not evaluated; its error, and no boolean, is the answer |
| OperatorLaws.TemporalArithmetic | convex/src/evaluate.ts:434-457 | timestamps and durations: exactly the overloads of the table have an answer, the exact sum or difference, from year 1 to 9999 of the Gregorian calendar or within int64 |
| OperatorLaws.IntArithmeticExact | convex/src/evaluate.ts:324-328 | arithmetic of int type is exact over int64 and errs outside it and on a zero divisor |
| OperatorLaws.NumberArithmeticIs | convex/src/evaluate.ts:329-378 | other numbers: an error for an int beside a double and for `%` over a variable or by zero, an exception for a computed zero divisor, and IEEE arithmetic everywhere else |
| OperatorLaws.Concatenates | convex/src/evaluate.ts:338-355 | `+` joins two strings or two lists in order; nothing else takes either |
| OperatorLaws.SinceNowMeasures | convex/src/evaluate.ts:962-974 | `timeSince()` of a timestamp is the time from it to now, or the int64 bound it passes; an error of anything not typed a timestamp |
| OperatorLaws.TimestampParses | convex/src/evaluate.ts:975-981 | `timestamp()` parses a string and nothing else |
| OperatorLaws.DurationParses | convex/src/evaluate.ts:953-960 | `duration()` parses a string, its three outcomes told apart |
| OperatorLaws.IntConverts | convex/src/cel.ts:512-529 | `int()` truncates a double strictly between the int64 bounds toward zero, keeps an int, reads a numeral, and errs otherwise |
| OperatorLaws.DoubleConverts | convex/src/cel.ts:486-496 | `double()` keeps a finite number, takes an int's value and reads a decimal text |
| OperatorLaws.StringConverts | convex/src/cel.ts:471-484 | `string()` spells an int by its plain numeral, and a whole number so exactly where its expression is of int type |
| OperatorLaws.ReferenceReads | convex/src/evaluate.ts:107-124 | a reference reads the lambda variable at its root or else the field its mapper entry names, a stored null being absent under the omitted convention, save for a bare variable |
| OperatorLaws.FieldReads | convex/src/evaluate.ts:908-921 | `get-field` reads the dotted name of its second operand, a reference or a string, below its target |
| MacroLaws.LambdaRead | convex/src/evaluate.ts:177-209 | which operands of a lambda are its body and its one or two names |
| MacroLaws.QuantifierAnswers | convex/src/evaluate.ts:277-302 | the quantifiers over the rows of a list or map, two names binding index and element or key and value: a deciding row outweighs any error, an error the other rows, and `exists_one` takes no error at all |
| MacroLaws.FilterAnswers | convex/src/evaluate.ts:839-853 | `filter()` keeps the elements or keys whose row is true, in order, and errs on any row that is no boolean |
| MacroLaws.MapAnswers | convex/src/evaluate.ts:854-868 | `map()` lists the rows' values, or fails with the first that has none |
| MacroLaws.ListAnswers | convex/src/evaluate.ts:782-792 | the same of a list literal's elements |
| MacroLaws.StructAnswers | convex/src/evaluate.ts:794-813 | a map literal of distinct keys is their map; the first failing value or repeated key ends it |
| EvaluatorLoops.RunJunction | convex/src/evaluate.ts:698-707 | the loop with its saw-an-error flag computes the junction: a deciding operand wins over an error in any position |
| EvaluatorLoops.RunQuantifier | convex/src/evaluate.ts:277-302 | the loop over elements computes the three quantifiers, `exists_one` absorbing no error |
| EvaluatorLoops.RunFilter | convex/src/evaluate.ts:839-853 | the loop keeps in order the elements whose condition is true, and any error is the whole result |
| EvaluatorLoops.RunMap | convex/src/evaluate.ts:854-868 | the loop collects the bodies' values, or the first error |
| EvaluatorLoops.RunList | convex/src/evaluate.ts:781-791 | the loop collects the elements' values, or the first error |
| EvaluatorLoops.RunStruct | convex/src/evaluate.ts:793-812 | the loop builds the map in entry order; an erring value and a repeated key are each an error |
| Exceptions.ThrowsExactly | convex/src/evaluate.ts:81-105 | a well-formed plan raises an exception exactly where evaluation reaches a `duration()` over a string whose scan meets a unit name inherited from the object prototype, or a `/` whose zero divisor no document field supplied; otherwise it yields a value or CEL's error, on every document and scope |
| Exceptions.ValidatedThrows | convex/src/validate.ts:22-45 | the same of every plan that passes structural validation, given the planner's operand counts and lambda placement |
| Exceptions.MonotoneExactly | convex/src/evaluate.ts:81-146 | hence more attributes change an answer of a well-formed plan exactly where they let evaluation reach one of those two |
| Exceptions.AddedAttributeThrows | convex/src/cel.ts:380-383 | a well-formed plan that is true while an attribute is missing and raises an exception once `1toString` is stored in it |
| EvaluatorLaws.Monotone | convex/src/evaluate.ts:81-146 | for every plan, a document that answers every read the old one answered keeps every answer that was no error, through junctions, quantifiers, ternaries, `filter`, `map` and every strict operator, unless an exception stands in its way |
| EvaluatorLaws.AddedFieldsExtend | convex/src/cel.ts:33-46 | adding top-level attributes to a document gives such an extension |
| EvaluatorLaws.Coincidence | convex/src/evaluate.ts:107-121 | two scopes that read alike on a plan's free references, with the same roots bound, give it the same answer, lambda shadowing included |
| Validate.FreeReferencesMapped | convex/src/validate.ts:137-170 | when the reference check passes, every free reference is bound or mapped |
| Validate.DocumentsAgree | convex/src/validate.ts:137-170 | then evaluation depends on the document only through the mapped paths of free references |
| Validate.FreshBinding | convex/src/evaluate.ts:233-253 | binding a name that no free reference uses changes nothing |
| PlanChecks.StructureRefused | convex/src/validate.ts:22-45 | structural validation refuses exactly the plans with an offending node at some position, each operator's offence listed |
| PlanChecks.ListsRefused | convex/src/validate.ts:59-78 | `filter` and `map` are refused exactly where only `and`, `or` and `not` stand above them |
| PlanChecks.NullsRefused | convex/src/validate.ts:80-121 | and a null constant, or a list of one, exactly where it is an operand anywhere |
| PlanChecks.UnmappedRefused | convex/src/validate.ts:137-170 | the reference check passes exactly when every reference read under no binder has an entry and every lambda is well formed |
| PlanChecks.RefusedExactly | convex/src/index.ts:174-208 | exactly which plans the adapter refuses: those four checks, and a condition the engine cannot answer alone without leave to filter after; never an unconditional plan |
| PushdownCorrect.StoredEqualIsCel | convex/src/pushdown.ts:120-130 | the store's deep equality is CEL's on JSON values |
| PushdownCorrect.GuardConfines | convex/src/pushdown.ts:121-141 | under the order that spans types, a literal's type guard holds exactly on stored values of its type |
| PushdownCorrect.OrderingLeaf | convex/src/pushdown.ts:181-205 | an ordering leaf with its guard outside the negation agrees with CEL under both polarities, absent fields included |
| PushdownCorrect.EqualityLeaf | convex/src/pushdown.ts:163-179 | an equality leaf agrees with CEL exactly when the field is present or the answer on an absent field is a false |
| PushdownCorrect.MembershipLeaf | convex/src/pushdown.ts:237-262 | a membership leaf agrees exactly when the field is present or the polarity is even |
| PushdownCorrect.VariableLeaf | convex/src/pushdown.ts:308-312 | a bare variable agrees exactly when the polarity is even or the field holds a boolean |
| PushdownCorrect.NegatedStringKept | convex/src/pushdown.ts:308-312 | `!R.flag` over a stored string is kept, where CEL errs |
| PushdownCorrect.NegatedEqualityKept | convex/src/pushdown.ts:163-179 | `!(R.a == "x")` keeps a document without `a`, where CEL errs |
| PushdownCorrect.NegatedMembershipKept | convex/src/pushdown.ts:237-262 | `!(R.a in ["x"])` keeps a document without `a`, where CEL errs |
| PushdownCorrect.JunctionDecides | convex/src/evaluate.ts:698-707 | when a junction of operands that may err is its deciding value, and when it is the other one |
| PushdownCorrect.JunctionHolds | convex/src/pushdown.ts:332-343 | the emitted junction holds as all or any of its filters, for none and one filter too |
| PushdownCorrect.EmitCorrect | convex/src/pushdown.ts:289-343 | compiler correctness: the emitted filter keeps a document exactly when CEL answers true for the plan, or for its negation under an odd number of nots |
| QueryPlans.BuildFilters | convex/src/index.ts:104-147 | the loop that sorts a root conjunction's operands yields the specified route |
| QueryPlans.AdmissibleIsFaithful | convex/src/pushdown.ts:271-287 | a pushable plan over admissible documents meets every leaf's condition and is not refused |
| QueryPlans.ConjunctionIsTrue | convex/src/index.ts:149-155 | the rebuilt conjunction is true exactly when each of its operands is |
| QueryPlans.PushedIsSelected | convex/src/index.ts:109-115 | the database path's filter alone answers the plan |
| QueryPlans.SplitCorrect | convex/src/index.ts:117-140 | narrowing by the pushable half and deciding by the rest selects exactly where the whole conjunction is true, though either half may err |
| QueryPlans.RouteCorrect | convex/src/index.ts:104-172 | on all three paths the returned filters select exactly the documents on which CEL answers true |
| QueryPlans.OmittedDefaultReadsAlike | convex/src/operands.ts:66-84 | the omitted-null default never changes what a plan reads |
| QueryPlans.EffectiveEntry | convex/src/operands.ts:66-88 | and what it does change: an entry keeps its field, and may be absent exactly when the caller does not declare `nullable: false`, or under the explicit convention declares `nullable: true` |
| QueryPlans.PushesExactly | convex/src/pushdown.ts:271-287 | what is pushed, by the caller's own declarations and the convention: constants, references and one-reference tests, under `and`, `or` and `not` |
| QueryPlans.EndToEnd | convex/src/index.ts:174-208 | for every kind of plan that is not refused, under both null conventions, a caller acting on the result keeps a document exactly when the plan allows it: always, never, or where CEL answers true through the caller's own mapper; the document need only have the attributes that the caller's own declarations and the convention say are always sent |
| ListLaws.EqualReflexive | convex/src/cel.ts:51-94 | a value equals a copy of itself exactly when no NaN is nested in it; `Object.is` makes one and the same list or map equal to itself besides |
| ListLaws.EqualSymmetric | convex/src/cel.ts:51-94 | equality is symmetric over all nested values |
| ListLaws.EqualTransitive | convex/src/cel.ts:51-94 | equality is transitive over all nested values |
| ListLaws.SelectSplits | convex/src/evaluate.ts:761-775 | what `except` drops and keeps is together the whole list, duplicates counted |
| ListLaws.SubsetIsEmptyExcept | convex/src/evaluate.ts:761-781 | `isSubset(a, b)` exactly when `except(a, b)` is empty |
| ListLaws.IntersectionIsNonEmpty | convex/src/evaluate.ts:768-834 | `hasIntersection` exactly when `intersect` is non-empty, in either operand order although `intersect` walks the shorter list |
| ListLaws.ExceptIsFilter | drizzle/src/collections.ts:190-236 | the sizes of `except` and of the rewritten `filter` agree, errors included, unless the removed list errs while the collection is empty |
| ListLaws.ExceptCountIsExact | drizzle/src/collections.ts:196-236 | under the lowering's side condition the rewrite is exact |
| ListLaws.ExceptCountTaken | drizzle/src/collections.ts:196-217 | the rewrite is taken exactly over a constant to remove or a list constant with an element, and then iterates under its own name |
| ListLaws.RefusedExceptDiffers | drizzle/src/collections.ts:210-216 | a plan and a document on which the refused rewrite would differ |
| Substitution.DrillInto | drizzle/src/collections.ts:314-337 | the loop over a path into a constant element reads it or refuses, names inherited from the object prototype left aside |
| SubstitutionShape.SubstitutedAt | drizzle/src/collections.ts:305-368 | node by node: every reference through the variable becomes the constant it reads, unless a lambda on the way binds the variable again, and every other node stays where it stood |
| SubstitutionShape.SubstitutionRefused | drizzle/src/collections.ts:311-340 | it is refused exactly where the element lacks what such a reference reads |
| SubstitutionShape.ExtractsAsEvaluator | drizzle/src/operands.ts:58-94 | the lowering and the evaluator split a lambda alike, wherever the evaluator binds one name |
| SubstitutionShape.LambdaRefused | drizzle/src/operands.ts:58-94 | and the lowering refuses exactly a lambda without two operands, one of them a reference |
| Substitution.SubstituteIsBinding | drizzle/src/collections.ts:305-368 | whenever substitution succeeds and no node's observation of its operands' shapes changes (`NodeKept`), evaluating the substituted expression is evaluating the original with the variable bound, shadowing included |
| Substitution.QuantifierIsFolded | drizzle/src/collections.ts:418-472 | `exists` and `all` over a literal list are the `or` and `and` of the substituted bodies |
| Substitution.MapIsList | drizzle/src/collections.ts:159-185 | `map` over a literal list is the list of the substituted bodies |
| Substitution.ConcatenationsUnroll | drizzle/src/collections.ts:159-163 | the documented case: `[...].map(t, t + R.attr.s)` over a list of any values is the list of the sums |
| Substitution.ModuloDiffers | drizzle/src/collections.ts:305-368 | `t % 2` over a number is an error to the evaluator under the binding and a number once substituted |
| SubstitutionExact.ArithmeticAgrees | drizzle/src/collections.ts:305-368 | an arithmetic node over operands that can be substituted into answers alike except exactly on the named operand values: a fraction beside a CEL int; a whole number beside one where doubles and ints differ; and `%` over two numbers that has lost its variable, the divisor not zero |
| SubstitutionExact.IntsDifferExactly | convex/src/cel.ts:548-569 | when a whole number and an int answer differently as doubles and as int64s: an unsafe or overflowing result, an inexact quotient, a negative zero, `%` |
| SubstitutionExact.StringAgrees | drizzle/src/collections.ts:305-368 | `string()` answers alike except exactly where the substituted fraction takes away an int type that the value is spelled by |
| SubstitutionExact.DivisionBesideIntDiffers | drizzle/src/collections.ts:305-368 | `size("a") / t` over 2 |
| SubstitutionExact.StringOfTernaryDiffers | drizzle/src/collections.ts:305-368 | `string(c ? t : int(1000000.0))` over 0.5, where `c` is false |
| Unrolling.UnrollShape | drizzle/src/collections.ts:164-185 | unrolling changes no shape that `mod`, int arithmetic or `string()` chooses by |
| SubstitutionShape.UnrolledEverywhere | drizzle/src/collections.ts:164-185 | every `map` over a list constant becomes the list of its bodies, one an element, inside out, and every other node stays |
| SubstitutionShape.UnrollingRefused | drizzle/src/collections.ts:164-185 | unrolling is refused exactly under a refused operand, a lambda without a variable, or an element without a field that its body reads |
| Unrolling.UnrollPreserves | drizzle/src/collections.ts:164-185 | unrolling every literal `map` of a plan, nested ones inside out, preserves its value in every scope, wherever each unrolled body can be substituted into |
| Macros.RelationQuantifierCorrect | drizzle/src/collections.ts:575-617 | the CASE over a relation's rows answers as the evaluator's quantifier over the same conditions, under both polarities |
| Macros.RelationCountCorrect | drizzle/src/collections.ts:238-280 | the filtered count over a relation is the size of the evaluator's filtered list, NULL where that errs |
| Macros.ListQuantifierCorrect | drizzle/src/collections.ts:418-506 | the folds of a literal list answer as the evaluator's quantifier, and negation pushed into the fold is SQL's NOT around it |
| Macros.ListCountCorrect | drizzle/src/collections.ts:133-157 | the filtered count of a literal list is the size of the evaluator's filtered list, NULL where that errs |
| Macros.FoldedQuantifierCorrect | drizzle/src/collections.ts:418-506 | the whole literal-list lowering, substitution included, against evaluating the macro itself |
| Splitting.JoinSplit | convex/src/cel.ts:168-169 | joining a split string restores it |
| Splitting.PartsAreClosed | convex/src/cel.ts:168-169 | what a split yields: every part but the last meets its delimiter first at its end, and the last has none |
| Splitting.SplitJoin | drizzle/src/hierarchy.ts:167-176 | segments survive joining and splitting exactly when they are such parts |
| HierarchyLowering.HierarchyStrictPrefixes | drizzle/src/hierarchy.ts:167-176 | the loop lists the joined proper prefixes, shortest first |
| HierarchyLowering.RelationMeaning | convex/src/cel.ts:171-191 | the three relations as prefix tests on segment lists |
| HierarchyLowering.FieldHierarchyExact | drizzle/src/hierarchy.ts:178-234 | the string filter agrees with the segment relation on every stored string exactly under a condition on the constant's segments alone |
| HierarchyLowering.OneCharacterExact | drizzle/src/hierarchy.ts:178-234 | a one-character delimiter that occurs in no constant segment meets that condition for every relation |
| HierarchyLowering.NullColumn | drizzle/src/hierarchy.ts:178-234 | a NULL column gives NULL exactly outside the one-segment ancestor test |
| HierarchyLowering.CharacterHierarchyExact | drizzle/src/hierarchy.ts:302-341 | under the empty delimiter the character filter is the relation on every stored string |
| HierarchyLowering.CharacterNullColumn | drizzle/src/hierarchy.ts:302-341 | the same for a NULL column and the constant without characters |
| HierarchyPlans.HierarchyPlanExact | drizzle/src/hierarchy.ts:343-400 | the filter lowered from a field and a constant, each with its own delimiter, answers every row, NULL ones included, as evaluating the whole plan on that row's document does, exactly under a condition on the constant's segments |
| HierarchyPlans.HierarchyRefused | drizzle/src/hierarchy.ts:343-400 | the two delimiters, and the constant's segments, for which there is no filter |
| HierarchyPlans.MismatchedDelimiter | drizzle/src/hierarchy.ts:387-392 | `hierarchy("a.b", ":")` against a field split on `.`: the stored `a.b` is kept by `overlaps`, where CEL answers false |
| HierarchyPlans.NegatedNullKept | drizzle/src/hierarchy.ts:220-221 | under a `not`, the ancestor test of a one-segment constant keeps the rows whose column is NULL, where CEL errs |
| SegmentedHierarchies.BuildSegmentedHierarchyFilter | drizzle/src/hierarchy.ts:246-289 | the loop with its contradicted flag builds the specified filter |
| SegmentedHierarchies.SegmentedExact | drizzle/src/hierarchy.ts:246-289 | the filter is the evaluator's relation on the two paths, and NULL exactly when a column segment is |
| SegmentedHierarchies.SegmentedPlanExact | convex/src/evaluate.ts:649-674 | the same against evaluating the whole plan, with NULL columns as missing attributes |
| DivisionLowering.NumberComparisonIsCel | drizzle/src/arithmetic.ts:149-175 | the comparison folded in the adapter is CEL's, NaN and infinities included |
| DivisionCorrect.FoundBelow | drizzle/src/arithmetic.ts:98-117 | the division found is never under another denominator, and every division above it divides by a known non-zero constant |
| DivisionCorrect.SqlIsIeee | drizzle/src/comparison.ts:253-257 | on every row and for all constants, SQL's value of an operand is the stored form of the IEEE value, and NULL exactly where a column is missing, the value is NaN or SQL divides by zero |
| DivisionCorrect.FoldIsIeee | drizzle/src/arithmetic.ts:126-147 | the fold computes the enclosing expression from the division's value |
| DivisionCorrect.FoldNonFinite | drizzle/src/comparison.ts:226-240 | a non-finite division stays non-finite through everything above it |
| DivisionCases.NoneFoundNonZero | drizzle/src/arithmetic.ts:98-117 | in an expression where none is found, whether SQL divides by zero is settled by the constants, the same on all rows |
| DivisionCases.GuardsAreExact | drizzle/src/comparison.ts:259-276 | the NULL guards fire exactly when SQL has no value for one of the three operands that is no constant |
| DivisionCases.DivisionCaseExact | drizzle/src/comparison.ts:182-277 | for every plan the lowering accepts and every row, the CASE is the IEEE comparison of the two whole operands exactly under `ExactOn`: an operand is missing, or SQL reads the guarded operands and the taken arm's comparison with 0 is the comparand's |
| DivisionCases.ComparandExact | drizzle/src/comparison.ts:226-240 | against a constant, infinite and NaN ones included, the CASE is right over a zero denominator exactly if the arm's comparison with 0 equals its comparison with the constant |
| DivisionCases.SentinelExactly | drizzle/src/comparison.ts:175-180 | for which operator, side and constant the sentinel 0 stands for the constant under every arm |
| DivisionCases.SettledIsRight | drizzle/src/comparison.ts:226-240 | such a constant, if SQL has a value for it, is compared rightly on every row, however the division is enclosed |
| DivisionCases.QuotientExact | drizzle/src/comparison.ts:226-240 | the CASE for a quotient of two columns against a constant is right on all finite rows if and only if the constant is of that kind: a condition on operator, side and constant alone |
| DivisionCases.DivisionCaseCorrect | drizzle/src/comparison.ts:182-277 | with finite columns and constants that condition always holds, either sign of a stored zero denominator |
| DivisionRefusals.DivisionRefused | drizzle/src/comparison.ts:182-277 | exactly which comparisons have a CASE: one side has one division that a row may make divide by zero, among constants, with no other in its operands, and either a zero whose sign is known or a comparison both infinities answer alike |
| DivisionCases.SentinelStands | drizzle/src/comparison.ts:175-180 | comparing a non-finite value with 0 answers as comparing it with any finite value |
| DivisionCases.ZeroSignIsUnobservable | drizzle/src/comparison.ts:243-251 | rows that differ only in the signs of stored zeros get the same CASE, so where it is right on one of them it is right on the other exactly if their answers are the same |
| DivisionCases.InfiniteComparandMisread | drizzle/src/comparison.ts:747-759 | `R.a / R.b != 1.0 / 0.0` keeps the row with a = 1 and b = 0, where both sides are the same infinity |
| DivisionEvaluates.EvaluatesAsIeee | convex/src/evaluate.ts:356-378 | every operand the lowering accepts evaluates to its IEEE value, to CEL's error where a column is missing, or to an exception exactly at the evaluator's zero-divisor backstop |
| DivisionEvaluates.DivisionPlanExact | drizzle/src/comparison.ts:182-277 | hence, the backstop's exceptions aside, the CASE answers as evaluating the comparison on the row's document exactly under the same condition |
| DivisionEvaluates.DivisionPlanCorrect | drizzle/src/comparison.ts:182-277 | and always with finite columns and constants |
| DoubleReading.ReadsBack | convex/src/cel.ts:439-464 | Go's layout of any sign, shortest digits and exponent reads back to them |
| DoubleReading.SpellingsDiffer | drizzle/src/conversion.ts:3-10 | different sign, digits or exponent print different texts |
| GeneralFormat.OnlyGeneralText | convex/src/cel.ts:431-464 | the text is %g text, and the only such text that reads back to that sign and decimal: an `e` exactly below 10^-4 and from 10^6, then one digit before the point and a signed power of at least two digits, zero-led only to make two; else positional, with no superfluous zero |
| NumberStrings.PrintersAgree | drizzle/src/conversion.ts:11-33 | the two adapters' printers agree on every double, so the second one's text is %g text too |
| NumberStrings.DoubleOfString | convex/src/cel.ts:471-496 | `double(string(x))` is `x` for every finite double, the sign of zero kept |
| NumberStrings.InverseIsExact | drizzle/src/conversion.ts:38-41 | the inverse of a text is a finite `x` exactly when CEL spells `x` so |
| NumberStrings.RefusesZeroAndNaN | drizzle/src/comparison.ts:557-565 | the literals refused are exactly `0`, `-0` and `NaN` |
| NumberStrings.NumberStringCorrect | drizzle/src/comparison.ts:551-578 | the numeric comparison answers `string(x)` against a literal on every row, except exactly an infinite column against its own spelling |
| NumberStrings.InfiniteColumnMisread | drizzle/src/comparison.ts:551-578 | an infinite column against `+Inf`: dropped by `==`, where CEL is true, and kept by `!=`, where it is false |
| CodePoints.CompareCodePoints | convex/src/cel.ts:144-155 | the two-index loop returns the lexicographic order of the decoded code points |
| CodePoints.UnitsDecode | convex/src/cel.ts:144-155 | decoding loses nothing, unpaired surrogates included |
| CodePoints.TotalOrder | convex/src/cel.ts:144-155 | the comparison ties exactly equal strings and reverses with its operands |
| CodePoints.OrderTransitive | convex/src/cel.ts:144-155 | and is transitive |
| CodePoints.ComparesUtf8 | convex/src/cel.ts:107-111 | on well-formed strings it is the order of their UTF-8 bytes |
| CodePoints.UnitOrderDiffers | convex/src/cel.ts:107-111 | a pair of strings that UTF-16 units order the other way |
| CodePoints.LexOrderIsOrder | convex/src/cel.ts:144-155 | the order the evaluator's model uses on strings is the same one |
| DurationParsing.ScanWhole | convex/src/cel.ts:341-350 | the digit loop reads the run's value, or stops exactly when it passes 2^63 |
| DurationParsing.ScanFraction | convex/src/cel.ts:352-376 | the fraction loop keeps the digits up to the first that overflows |
| DurationParsing.ParseCelDuration | convex/src/cel.ts:327-394 | the whole parser terminates with the result that `DurationGrammar` characterises: nanoseconds, an error, or the exception an inherited unit name raises |
| DurationGrammar.UnitsAgree | convex/src/cel.ts:307-316 | exactly eight unit names have a length: 1 ns, 1000 ns a us in its three spellings, 1000 us a ms, 1000 ms a s, 60 s a m and 60 m an h |
| DurationGrammar.InheritedAgree | convex/src/cel.ts:378-383 | and exactly the twelve names that every object inherits raise |
| DurationGrammar.SpelledDuration | convex/src/cel.ts:327-394 | an input spelled by terms yields the signed sum of its numbers times its units' own lengths, or an error exactly when int64 does not hold it |
| DurationGrammar.RaisesExactly | convex/src/cel.ts:378-383 | an exception is raised exactly where terms whose sum still fits are followed by a number with an inherited unit name |
| DurationGrammar.AcceptedIsSpelled | convex/src/cel.ts:327-394 | nothing outside the language is accepted |
| DurationGrammar.AcceptedFits | convex/src/cel.ts:384-393 | every accepted input is an int64, whatever float64 does to a fraction |
| DurationGrammar.WholeDurations | convex/src/cel.ts:327-394 | without a point: accepted exactly when spelled by terms whose exact signed sum, by the units' own lengths, is an int64, -2^63 included, and that sum is the result |
| NegativeZero.KeepNegativeZero | conformance/generator/resources.go:321-346 | the byte loop with its in-string flag produces the specified output |
| NegativeZero.Idempotent | conformance/generator/resources.go:321-346 | a second pass changes nothing, on any bytes and from either state |
| NegativeZero.RunRewritten | conformance/generator/resources.go:338-341 | a whole run of number bytes gains `.0` exactly when it ends in `-0` |
| NegativeZero.StringUntouched | conformance/generator/resources.go:327-335 | the characters of a JSON string, escapes included, are left alone |
| NegativeZero.KeepsJson | conformance/generator/resources.go:317-320 | on JSON text (section 6 of RFC 8259 for its numbers), exactly the number tokens `-0` become `-0.0` and nothing else changes, if and only if no exponent is `-0` |
| NegativeZero.MinusZeroExponentBreaks | conformance/generator/resources.go:338-341 | every JSON number with a `-0` exponent becomes a text that no JSON number has |
| NegativeZero.OneToTheMinusZero | conformance/generator/resources.go:338-341 | `1e-0` becomes `1e-0.0` |
| Rendering.Renderer.constructor | pgx/render.go:27-33 | a new renderer holds no text and no arguments |
| Rendering.Renderer.BindArg | pgx/render.go:35-40 | appends one argument and the placeholder numbered by its place after the offset, with the type `StatesType` pins |
| Rendering.Renderer.WriteList | pgx/render.go:89-99 | the loop writes each element with the separator between them, and stops at a refusal |
| Rendering.Renderer.Write | pgx/render.go:112-224 | appends exactly what the tree prints after what was there, keeping text and arguments in step, or reports the refusal |
| Rendering.Renderer.WriteCase | pgx/render.go:255-277 | the same for a searched CASE with or without ELSE |
| Rendering.Renderer.WriteSubquery | pgx/render.go:323-368 | the same for the three kinds of subquery |
| Rendering.Render | pgx/render.go:27-33 | numbering while writing is numbering the printed pieces afterwards |
| RenderLexing.QuotedUnquotes | pgx/render.go:66-68 | a quoted identifier unquotes to its name, whatever characters it holds |
| RenderLexing.SpellsSql | pgx/render.go:370-400 | every piece that can be printed is its SQL word, operator or function name in full |
| RenderLexing.StatesType | pgx/render.go:49-63 | a bound value's placeholder states its own PostgreSQL type: boolean, double precision, bigint, timestamptz or text |
| RenderLexing.KeywordRead | pgx/render.go:370-400 | the leading characters of each piece the renderer can print decide it, whatever follows |
| RenderLexing.Decodes | pgx/render.go:19-21 | the text and the arguments decode, by that lexer and its own type names, to the pieces they were printed from, each placeholder cast to the type of its argument, at any offset |
| RenderReadBack.ReadsBack | pgx/render.go:112-368 | from its pieces, without a table of precedences, every tree that prints reads back to the one tree of all that print alike |
| RenderText.TextReadsBack | pgx/render.go:112-368 | the same from the characters of the text and the bound arguments, sharing no table with the printer |
| RenderText.CanonPrints | pgx/render.go:112-368 | the tree read back prints the same |
| RenderText.RenderDecidesTree | pgx/render.go:112-368 | two trees render alike exactly when they are equal up to the pairs that print alike |
| RenderText.RefusesExactly | pgx/render.go:112-224 | a node without a spelling anywhere in the tree is reported, and nothing else is |
| RenderText.PlaceholdersCount | pgx/render.go:35-40 | placeholders appear once each, in order, as offset+1 to offset plus the number of arguments, and a text at an offset is the text at 0 with each shifted |
| RenderText.ValuesNeverPrinted | pgx/render.go:19-21 | the text depends on the type of a bound value, never on the value |

## Left out

- Rounding of finite double arithmetic: finite doubles are exact reals with a sign. The division theorems and
  the evaluator's arithmetic say nothing about a result that rounds to zero or overflows.
- `DivisionCases.DivisionCaseExact`: SQL's numbers are SQLite's, which stores NaN as NULL and no sign of a zero;
  integer columns hold no negative zero; operands other than numbers, columns and the four foldable operators are
  refused in the model, and the evaluator's backstop exceptions are set aside in `DivisionEvaluates`.
- `NumberStrings.NumberStringCorrect`: takes shortest round-trip digits and JavaScript's `Number` as primitives, with
  the properties `RoundTrips` names over the doubles IEEE 754 represents.
- Go's float64 product for a duration's fraction: an arbitrary non-negative integer of the digits read and the unit.
- Clock, RFC 3339 parsing and the safe regular-expression engine: fields of `Host`.
- `PushdownCorrect.EmitCorrect`: documents hold no int64, bytes or NaN, fields not marked nullable are stored, and a
  bare negated variable holds a boolean; within a type Convex is taken to order numbers numerically (both zeros
  equal) and strings by code point. The leaf lemmas give the exact conditions.
- Arity and lambda placement, which `validateStructure` does not check: `PlannerShaped` states them.
- `Substitution.SubstituteIsBinding`: lambdas are body-first with one variable, under the explicit-null convention.
  `NodeKept` is a condition on the plan; where it fails, `SubstitutionExact` says on which operand values the node
  still answers alike, and an enclosing operator may absorb the difference.
- `ListLaws.EqualReflexive`: values have no identity in the model.
- `Substitution.DrillInto`: the source tests `segment in current`, which also finds names inherited from the object
  prototype; it then substitutes a function where the model refuses.
- `MacroLaws.TwoNamesThrow`: two-variable lambdas under `filter` and `map`, which validation refuses, throw in the
  model; the source would leave the second name undefined.
- The predicate form of `except` with a lambda, and relation chains, aliases and to-one hops around the macros.
- `HierarchyLowering.FieldHierarchyExact`: `startsWith` is string prefix, and a constant split on a non-empty
  delimiter has at least one segment; the non-string column that is answered with NULL is not part of the model.
- JavaScript object identity, and `Object.prototype` names as bindings or map keys; the key order of integer-like
  map keys.
- The way a path string is cut into segments: paths are segment lists.
- In the renderer's trees, the column fields that are never printed (explicit-null and scalar type).
- The closure parameter of the renderer's parenthesis helper: each method writes its own parentheses.
- Other adapters, plan translation in the Go packages, and the conformance generator's input and output.
