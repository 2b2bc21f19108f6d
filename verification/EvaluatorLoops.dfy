/** The evaluator's loops as the source runs them, each evaluating no further than it must. */
module EvaluatorLoops {
  import opened Cel
  import opened Plans
  import opened Evaluator

  method RunJunction(decisive: bool, operands: seq<Operand>, sc: Scope) returns (r: Outcome)
    ensures r == Junction(decisive, Outcomes(operands, sc), false)
  {
    ghost var outs := Outcomes(operands, sc);
    var sawError := false;
    for i := 0 to |operands|
      invariant Junction(decisive, outs, false) == Junction(decisive, outs[i..], sawError)
    {
      var value := AsBoolean(Evaluate(operands[i], sc));
      if value == OfBool(decisive) {
        return value;
      }
      if value.Throw? {
        return Throw;
      }
      if value.Err? {
        sawError := true;
      }
    }
    return if sawError then Err else OfBool(!decisive);
  }

  method RunQuantifier(q: Quantifier, lambda: LambdaParts, rows: seq<seq<Value>>, sc: Scope) returns (r: Outcome)
    requires lambda.variables != [] && forall i | 0 <= i < |rows| :: rows[i] != []
    ensures r == QuantifierResult(q, BodyOutcomes(lambda, rows, sc), 0, false)
  {
    hide Evaluate, Bind;
    ghost var outs := BodyOutcomes(lambda, rows, sc);
    var trueCount: nat, sawError := 0, false;
    for i := 0 to |rows|
      invariant QuantifierResult(q, outs, 0, false) == QuantifierResult(q, outs[i..], trueCount, sawError)
    {
      var value := AsBoolean(Evaluate(lambda.body, Bind(sc, lambda.variables, rows[i])));
      if value == OfBool(true) {
        trueCount := trueCount + 1;
        if q == Exists {
          return OfBool(true);
        }
      } else if value == OfBool(false) && q == All {
        return OfBool(false);
      } else if value.Throw? {
        return Throw;
      } else if value.Err? {
        sawError := true;
      }
    }
    if sawError {
      return Err;
    }
    return OfBool(if q == Exists then false else if q == ExistsOne then trueCount == 1 else true);
  }

  method RunFilter(lambda: LambdaParts, items: seq<Value>, sc: Scope) returns (r: Outcome)
    requires lambda.variables != []
    ensures var rows := seq(|items|, i requires 0 <= i < |items| => [items[i]]);
      r == FilterResult(items, BodyOutcomes(lambda, rows, sc), [])
  {
    ghost var rows := seq(|items|, i requires 0 <= i < |items| => [items[i]]);
    ghost var outs := BodyOutcomes(lambda, rows, sc);
    var filtered := [];
    for i := 0 to |items|
      invariant FilterResult(items, outs, []) == FilterResult(items[i..], outs[i..], filtered)
    {
      var value := AsBoolean(Evaluate(lambda.body, Bind(sc, lambda.variables, [items[i]])));
      if !value.Ok? {
        return value;
      }
      if value == OfBool(true) {
        filtered := filtered + [items[i]];
      }
    }
    return Ok(List(filtered));
  }

  method RunMap(lambda: LambdaParts, items: seq<Value>, sc: Scope) returns (r: Outcome)
    requires lambda.variables != []
    ensures var rows := seq(|items|, i requires 0 <= i < |items| => [items[i]]);
      r == Collect(BodyOutcomes(lambda, rows, sc), [])
  {
    ghost var rows := seq(|items|, i requires 0 <= i < |items| => [items[i]]);
    ghost var outs := BodyOutcomes(lambda, rows, sc);
    var mapped := [];
    for i := 0 to |items|
      invariant Collect(outs, []) == Collect(outs[i..], mapped)
    {
      var value := Evaluate(lambda.body, Bind(sc, lambda.variables, [items[i]]));
      if !value.Ok? {
        return value;
      }
      mapped := mapped + [value.value];
    }
    return Ok(List(mapped));
  }

  method RunList(operands: seq<Operand>, sc: Scope) returns (r: Outcome)
    ensures r == Collect(Outcomes(operands, sc), [])
  {
    ghost var outs := Outcomes(operands, sc);
    var elements := [];
    for i := 0 to |operands|
      invariant Collect(outs, []) == Collect(outs[i..], elements)
    {
      var value := Evaluate(operands[i], sc);
      if !value.Ok? {
        return value;
      }
      elements := elements + [value.value];
    }
    return Ok(List(elements));
  }

  method RunStruct(operands: seq<Operand>, sc: Scope) returns (r: Outcome)
    ensures r == Entries(EntryKeys(operands), Outcomes(Evaluated(Struct, operands), sc), [], map[])
  {
    ghost var entryKeys := EntryKeys(operands);
    ghost var outs := Outcomes(Evaluated(Struct, operands), sc);
    var keys, entries: Bindings := [], map[];
    for i := 0 to |operands|
      invariant Entries(entryKeys, outs, [], map[]) == Entries(entryKeys[i..], outs[i..], keys, entries)
    {
      if !IsEntry(operands[i]) {
        return Throw;
      }
      var key := operands[i].operands[0].value.s;
      var value := Evaluate(operands[i].operands[1], sc);
      if !value.Ok? {
        return value;
      }
      if key in entries {
        return Err;
      }
      keys, entries := keys + [key], entries[key := value.value];
    }
    return Ok(Map(keys, entries));
  }
}
