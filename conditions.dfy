/** Conditional nodes: a list of clauses `{variable, operator, value}` evaluated one by one and
    combined by a left fold under a logical operator. Both copies of the engine
    (controllers/diagram_controller.py and models/condicional_node.py) evaluate clauses the same
    way; they differ only in where a variable's value is read from and in the default operator. */
module Conditions {
  import opened Wrappers
  import opened Text
  import opened Values

  /** One clause, as the configuration dialog stores it. */
  datatype Clause = Clause(variable: string, operator: string, value: string)

  /** A numeric comparison of both sides as floats; when either side does not convert, the
      comparison is false rather than an error. */
  predicate Compare(greater: bool, left: Value, right: string) {
    match (FloatOf(left), ParseFloat(right))
    case (Some(x), Some(y)) => if greater then x > y else x < y
    case _ => false
  }

  /** The result of one clause when the variable reads as `current`. */
  predicate EvalClause(c: Clause, current: Value) {
    if c.operator == "==" then Str(current) == c.value
    else if c.operator == "!=" then Str(current) != c.value
    else if c.operator == ">" then Compare(true, current, c.value)
    else if c.operator == "<" then Compare(false, current, c.value)
    else false
  }

  /** The clause results, each clause's variable read through `read`. */
  function Results(clauses: seq<Clause>, read: string -> Value): (rs: seq<bool>)
    ensures |rs| == |clauses|
    ensures forall i :: 0 <= i < |clauses| ==> rs[i] == EvalClause(clauses[i], read(clauses[i].variable))
  {
    seq(|clauses|, i requires 0 <= i < |clauses| => EvalClause(clauses[i], read(clauses[i].variable)))
  }

  /** How one more clause result joins the accumulated one under the (upper-cased) operator. */
  function Combine(op: string, acc: bool, next: bool): bool {
    if op == "AND" then acc && next
    else if op == "OR" then acc || next
    else next
  }

  /** The left fold of the clause results: `None` while no clause has been seen, then the first
      result, then each further result combined into the accumulator. */
  function Fold(op: string, rs: seq<bool>): (r: Option<bool>)
    ensures r.None? <==> |rs| == 0
    decreases |rs|
  {
    if |rs| == 0 then None
    else if |rs| == 1 then Some(rs[0])
    else Some(Combine(op, Fold(op, rs[..|rs| - 1]).value, rs[|rs| - 1]))
  }

  /** `if result:` on the folded value; `None` takes the false branch. */
  predicate TakesTrue(r: Option<bool>) {
    r == Some(true)
  }

  /** The clause loop of both engines: the accumulator starts at `None`, the first clause seeds
      it, and every later clause is combined into it under the upper-cased logical operator. */
  method EvaluateClauses(clauses: seq<Clause>, logicalOp: string, read: string -> Value)
    returns (result: Option<bool>)
    ensures result == Fold(Upper(logicalOp), Results(clauses, read))
  {
    var op := Upper(logicalOp);
    ghost var rs := Results(clauses, read);
    result := None;
    var i := 0;
    while i < |clauses|
      invariant 0 <= i <= |clauses|
      invariant result == Fold(op, rs[..i])
    {
      var c := clauses[i];
      var r := EvalClause(c, read(c.variable));
      if result.None? {
        result := Some(r);
      } else {
        result := Some(Combine(op, result.value, r));
      }
      i := i + 1;
      assert rs[..i][..i - 1] == rs[..i - 1];
    }
    assert rs[..|clauses|] == rs;
  }

  // ---------------------------------------------------------------------------
  // properties of the fold

  predicate All(rs: seq<bool>) { forall i :: 0 <= i < |rs| ==> rs[i] }

  predicate Any(rs: seq<bool>) { exists i :: 0 <= i < |rs| && rs[i] }

  /** Under "AND" the fold is the conjunction of all clause results. */
  lemma {:induction false} FoldAndIsConjunction(rs: seq<bool>)
    requires |rs| > 0
    ensures Fold("AND", rs) == Some(All(rs))
    decreases |rs|
  {
    if |rs| > 1 {
      var init := rs[..|rs| - 1];
      FoldAndIsConjunction(init);
      assert All(rs) == (All(init) && rs[|rs| - 1]) by {
        if All(init) && rs[|rs| - 1] {
          forall i | 0 <= i < |rs| ensures rs[i] {
            if i < |rs| - 1 { assert init[i] == rs[i]; }
          }
        }
      }
    }
  }

  /** Under "OR" the fold is the disjunction of all clause results. */
  lemma {:induction false} FoldOrIsDisjunction(rs: seq<bool>)
    requires |rs| > 0
    ensures Fold("OR", rs) == Some(Any(rs))
    decreases |rs|
  {
    if |rs| > 1 {
      var init := rs[..|rs| - 1];
      FoldOrIsDisjunction(init);
      assert Any(rs) == (Any(init) || rs[|rs| - 1]) by {
        if Any(rs) {
          var i :| 0 <= i < |rs| && rs[i];
          if i < |rs| - 1 { assert init[i]; }
        }
        if Any(init) {
          var i :| 0 <= i < |init| && init[i];
          assert rs[i];
        }
      }
    }
  }

  /** Under any other operator, the default "" of the controller included, the last clause
      decides. */
  lemma FoldOtherIsLast(op: string, rs: seq<bool>)
    requires |rs| > 0 && op != "AND" && op != "OR"
    ensures Fold(op, rs) == Some(rs[|rs| - 1])
  {
  }

  /** An empty clause list takes the false branch. */
  lemma EmptyClausesTakeFalse(op: string, read: string -> Value)
    ensures Fold(op, Results([], read)).None?
    ensures !TakesTrue(Fold(op, Results([], read)))
  {
  }

  /** The operator is compared case-insensitively: every spelling of "and" folds as "AND",
      every spelling of "or" as "OR", and any other operator lets the last clause decide. */
  lemma OperatorCaseInsensitive(op: string, rs: seq<bool>)
    requires |rs| > 0
    ensures Lower(op) == "and" ==> Fold(Upper(op), rs) == Some(All(rs))
    ensures Lower(op) == "or" ==> Fold(Upper(op), rs) == Some(Any(rs))
    ensures Lower(op) != "and" && Lower(op) != "or" ==> Fold(Upper(op), rs) == Some(rs[|rs| - 1])
  {
    SameWordIgnoringCase(op, "and");
    SameWordIgnoringCase(op, "or");
    assert Upper("and") == "AND" && Upper("or") == "OR";
    if Lower(op) == "and" {
      FoldAndIsConjunction(rs);
    } else if Lower(op) == "or" {
      FoldOrIsDisjunction(rs);
    } else {
      FoldOtherIsLast(Upper(op), rs);
    }
  }

  // ---------------------------------------------------------------------------
  // properties of a clause

  /** `!=` is exactly the negation of `==`. */
  lemma NotEqualIsNegation(variable: string, value: string, current: Value)
    ensures EvalClause(Clause(variable, "!=", value), current) == !EvalClause(Clause(variable, "==", value), current)
  {
  }

  /** A variable that reads as `None` equals the literal "None" and nothing else. */
  lemma NoneComparesAsText(variable: string, value: string)
    ensures EvalClause(Clause(variable, "==", value), VNone) <==> value == "None"
  {
  }

  /** `>` and `<` are false whenever either side does not parse as a number, and never both
      true. */
  lemma ComparisonsNeverRaise(variable: string, value: string, current: Value)
    ensures (FloatOf(current).None? || ParseFloat(value).None?) ==>
              !EvalClause(Clause(variable, ">", value), current) && !EvalClause(Clause(variable, "<", value), current)
    ensures !(EvalClause(Clause(variable, ">", value), current) && EvalClause(Clause(variable, "<", value), current))
  {
  }

  /** A number compares with a numeric literal as the numbers do. */
  lemma ComparisonOfNumbers(variable: string, i: int, value: string, y: real)
    requires ParseFloat(value) == Some(y)
    ensures EvalClause(Clause(variable, ">", value), VInt(i)) <==> i as real > y
    ensures EvalClause(Clause(variable, "<", value), VInt(i)) <==> (i as real) < y
  {
  }

  /** Any operator other than `==`, `!=`, `>` and `<` yields false. */
  lemma UnknownOperatorIsFalse(c: Clause, current: Value)
    requires c.operator !in ["==", "!=", ">", "<"]
    ensures !EvalClause(c, current)
  {
  }
}
