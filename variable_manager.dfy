/** The declared flow variables (models/variable_manager.py): a dictionary from name to
    `Variable`, edited in place. */
module VariableStore {
  import opened Wrappers
  import opened Values
  import opened Dicts

  /** `Variable(name, var_type, value)`. */
  datatype Variable = Variable(name: string, varType: string, value: Value)

  /** One entry of a saved variable list: `name` and `var_type` are present, `value` may be
      missing. */
  datatype VarRecord = VarRecord(name: string, varType: string, value: Option<Value>)

  type Store = Dict<string, Variable>

  /** Every variable is stored under its own name. */
  ghost predicate WellFormed(d: Store) {
    d.Valid() && forall k :: k in d.entries ==> d.entries[k].name == k
  }

  /** The store after `update_variable(name, value)`: only a declared variable changes, and
      only its value. */
  function Updated(d: Store, name: string, value: Value): (r: Store)
    requires WellFormed(d)
    ensures WellFormed(r)
  {
    if name in d.entries then d.Put(name, d.entries[name].(value := value)) else d
  }

  /** The store `load_variables(data)` builds: the records in order, a later record with the
      same name replacing the earlier one, a missing value read as `None`. */
  function Loaded(data: seq<VarRecord>): (r: Store)
    ensures WellFormed(r)
    decreases |data|
  {
    if |data| == 0 then Empty()
    else
      var rec := data[|data| - 1];
      Loaded(data[..|data| - 1]).Put(rec.name, Variable(rec.name, rec.varType, rec.value.GetOr(VNone)))
  }

  class VariableManager {
    var variables: Store

    ghost predicate Valid()
      reads this
    {
      WellFormed(variables)
    }

    constructor()
      ensures Valid() && variables == Empty()
    {
      variables := Empty();
    }

    /** `add_variable`: a name already declared raises "La variable ya existe" and nothing
        changes; otherwise the new variable is stored and returned. */
    method AddVariable(name: string, varType: string, value: Value) returns (r: Result<Variable, string>)
      requires Valid()
      modifies this
      ensures Valid()
      ensures old(variables.Contains(name)) ==>
                r == Err("La variable ya existe") && variables == old(variables)
      ensures !old(variables.Contains(name)) ==>
                r == Ok(Variable(name, varType, value)) && variables == old(variables).Put(name, r.value)
    {
      if variables.Contains(name) {
        return Err("La variable ya existe");
      }
      var v := Variable(name, varType, value);
      variables := variables.Put(name, v);
      return Ok(v);
    }

    /** `update_variable`. */
    method UpdateVariable(name: string, value: Value)
      requires Valid()
      modifies this
      ensures Valid()
      ensures variables == Updated(old(variables), name, value)
    {
      if variables.Contains(name) {
        variables := variables.Put(name, variables.entries[name].(value := value));
      }
    }

    /** `get_variable`: `None` for an undeclared name. */
    function GetVariable(name: string): (r: Option<Variable>)
      reads this
      ensures r.Some? <==> name in variables.entries
      ensures r.Some? ==> r.value == variables.entries[name]
    {
      variables.Get(name)
    }

    /** `get_all_variables`: one variable per stored name, in insertion order. */
    method GetAllVariables() returns (vs: seq<Variable>)
      requires Valid()
      ensures |vs| == |variables.keys|
      ensures forall i :: 0 <= i < |vs| ==> vs[i] == variables.entries[variables.keys[i]]
      ensures forall i :: 0 <= i < |vs| ==> vs[i].name == variables.keys[i]
    {
      vs := variables.Values();
    }

    /** `load_variables`: the whole store is replaced, record by record. */
    method LoadVariables(data: seq<VarRecord>)
      modifies this
      ensures Valid()
      ensures variables == Loaded(data)
    {
      variables := Empty();
      var i := 0;
      while i < |data|
        invariant 0 <= i <= |data|
        invariant variables == Loaded(data[..i])
      {
        var rec := data[i];
        variables := variables.Put(rec.name, Variable(rec.name, rec.varType, rec.value.GetOr(VNone)));
        i := i + 1;
        assert data[..i][..i - 1] == data[..i - 1];
      }
      assert data[..|data|] == data;
    }
  }

  // ---------------------------------------------------------------------------
  // properties

  /** After a successful `add_variable(n, t, v)`, `get_variable(n)` is that variable, and every
      other name reads as before. */
  lemma AddThenGet(d: Store, name: string, varType: string, value: Value, other: string)
    requires WellFormed(d) && name !in d.entries && other != name
    ensures d.Put(name, Variable(name, varType, value)).Get(name) == Some(Variable(name, varType, value))
    ensures d.Put(name, Variable(name, varType, value)).Get(other) == d.Get(other)
  {
  }

  /** `update_variable` on a declared name changes only that variable's value: the names, their
      order, its type and every other variable stay the same. */
  lemma UpdateChangesOnlyValue(d: Store, name: string, value: Value)
    requires WellFormed(d) && name in d.entries
    ensures Updated(d, name, value).keys == d.keys
    ensures Updated(d, name, value).Get(name) ==
            Some(Variable(name, d.entries[name].varType, value))
    ensures forall k :: k != name ==> Updated(d, name, value).Get(k) == d.Get(k)
  {
  }

  /** `update_variable` on an undeclared name is a no-op: it does not declare the variable. */
  lemma UpdateUndeclaredIsNoop(d: Store, name: string, value: Value)
    requires WellFormed(d) && name !in d.entries
    ensures Updated(d, name, value) == d
    ensures Updated(d, name, value).Get(name).None?
  {
  }

  /** The names `load_variables` declares are exactly the names of the records. */
  lemma {:induction false} LoadedNames(data: seq<VarRecord>, k: string)
    ensures k in Loaded(data).entries <==> exists i :: 0 <= i < |data| && data[i].name == k
    decreases |data|
  {
    if |data| > 0 {
      var init := data[..|data| - 1];
      LoadedNames(init, k);
      if exists i :: 0 <= i < |init| && init[i].name == k {
        var i :| 0 <= i < |init| && init[i].name == k;
        assert data[i].name == k;
      }
      if exists i :: 0 <= i < |data| && data[i].name == k {
        var i :| 0 <= i < |data| && data[i].name == k;
        if i < |data| - 1 { assert init[i].name == k; }
      }
    }
  }

  /** A name's variable comes from the LAST record with that name; a missing value reads as
      `None`. */
  lemma {:induction false} LoadedLastWins(data: seq<VarRecord>, j: nat)
    requires j < |data|
    requires forall i :: j < i < |data| ==> data[i].name != data[j].name
    ensures Loaded(data).Get(data[j].name) ==
            Some(Variable(data[j].name, data[j].varType, data[j].value.GetOr(VNone)))
    decreases |data|
  {
    if j < |data| - 1 {
      var init := data[..|data| - 1];
      assert init[j] == data[j];
      LoadedLastWins(init, j);
    }
  }

  /** A loaded record without a value declares its variable with value `None`. */
  lemma LoadedMissingValue(data: seq<VarRecord>, j: nat)
    requires j < |data| && data[j].value.None?
    requires forall i :: j < i < |data| ==> data[i].name != data[j].name
    ensures Loaded(data).Get(data[j].name).Some?
    ensures Loaded(data).Get(data[j].name).value.value == VNone
  {
    LoadedLastWins(data, j);
  }
}
