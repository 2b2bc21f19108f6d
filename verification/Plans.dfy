/** Query plans, the caller's mapper, and how a plan's nodes are read. */
module Plans {
  import opened Wrappers
  import opened Cel

  /** A dotted name as its segments; every name has at least one. */
  type Path = p: seq<string> | p != [] witness [""]

  datatype StringTest = Contains | Prefix | Suffix
  datatype Quantifier = Exists | ExistsOne | All
  datatype Relation = AncestorOf | DescendentOf | Overlaps

  /** The operator roster; `Unlisted` stands for every name without an entry. */
  datatype Operator =
    | And | Or | Not | If | In
    | Compare(comparison: Comparison)
    | Arith(arithmetic: Arithmetic)
    | Test(test: StringTest)
    | Matches
    | Except | Intersect | IsSubset | HasIntersection
    | ListOf | Struct | SetField
    | Quantify(quantifier: Quantifier) | Filter | MapEach | Lambda
    | Index | GetField | Size
    | ToString | ToDouble | ToInt | UpperAscii
    | ToDuration | SinceNow | ToTimestamp
    | ToHierarchy | Relate(relation: Relation)
    | Unlisted(name: string)
  {
    /** Whether the operator's second operand is a lambda. */
    predicate Macro() {
      Quantify? || Filter? || MapEach?
    }
  }

  datatype Operand =
    | Literal(value: Value)
    | Variable(path: Path)
    | Expr(operator: Operator, operands: seq<Operand>)

  datatype MapperConfig = MapperConfig(field: Option<Path>, nullable: Option<bool>)

  /** The caller's mapper: a record or a function, either way a lookup by plan reference. */
  type Mapper = Path -> Option<MapperConfig>

  predicate IsMappedReference(reference: Path, mapper: Mapper) {
    mapper(reference).Some?
  }

  function ResolveField(reference: Path, mapper: Mapper): Path {
    match mapper(reference)
    case Some(MapperConfig(Some(field), _)) => field
    case _ => reference
  }

  /** Whether the mapped path may be absent from a document. */
  predicate IsNullableField(reference: Path, mapper: Mapper) {
    match mapper(reference)
    case Some(MapperConfig(_, Some(nullable))) => nullable
    case _ => false
  }

  /** The mapper as the "omitted" convention reads it: an undeclared entry may be absent. */
  function WithOmittedNullDefault(mapper: Mapper): Mapper {
    (reference: Path) =>
      match mapper(reference)
      case None => None
      case Some(config) =>
        Some(config.(nullable := if config.nullable.Some? then config.nullable else Some(true)))
  }

  /** A lambda's body and the one or two names it binds. */
  datatype LambdaParts = LambdaParts(body: Operand, variables: seq<string>)

  predicate LooksLikeLambdaVariable(operand: Operand) {
    operand.Variable? && |operand.path| == 1
  }

  /** The parts of a lambda node; `None` where the source throws. */
  function LambdaComponents(lambda: Operand): (parts: Option<LambdaParts>)
    ensures parts.Some? ==> lambda.Expr? && lambda.operator == Lambda
    ensures parts.Some? ==> parts.value.body in lambda.operands && parts.value.body < lambda
    ensures parts.Some? ==> 1 <= |parts.value.variables| <= 2
  {
    if !lambda.Expr? || lambda.operator != Lambda then None
    else
      var args := lambda.operands;
      if |args| == 3 then
        if LooksLikeLambdaVariable(args[1]) && LooksLikeLambdaVariable(args[2]) then
          Some(LambdaParts(args[0], [args[1].path[0], args[2].path[0]]))
        else None
      else if |args| != 2 then None
      else if LooksLikeLambdaVariable(args[1]) then Some(LambdaParts(args[0], [args[1].path[0]]))
      else if LooksLikeLambdaVariable(args[0]) then Some(LambdaParts(args[1], [args[0].path[0]]))
      else None
  }
}
