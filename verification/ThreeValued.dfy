/** SQL's three-valued logic, and how CEL's outcomes read in it. */
module ThreeValued {
  import opened Cel

  datatype Tri = True | False | Unknown

  function OfTruth(b: bool): Tri {
    if b then True else False
  }

  function NotOf(t: Tri): Tri {
    match t
    case True => False
    case False => True
    case Unknown => Unknown
  }

  function AllOf(ts: seq<Tri>): Tri {
    if False in ts then False else if Unknown in ts then Unknown else True
  }

  function AnyOf(ts: seq<Tri>): Tri {
    if True in ts then True else if Unknown in ts then Unknown else False
  }

  function WithPolarity(t: Tri, negated: bool): Tri {
    if negated then NotOf(t) else t
  }

  /** A condition's outcome as SQL states it: CEL's error, and any non-boolean, is UNKNOWN. */
  function TriOf(o: Outcome): Tri {
    match o
    case Ok(Bool(b)) => OfTruth(b)
    case _ => Unknown
  }
}
