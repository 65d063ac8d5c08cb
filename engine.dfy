/** What `DiagramController.handle_execute_flow` computes (controllers/diagram_controller.py):
    starting from the first "inicio" node, each node is executed and the walk follows
    `connected_to`, or `true_connection` / `false_connection` for a conditional, until the
    successor is `None`. Answers are written into the run's `memory` and, for declared
    variables, into the variable store. The walk is bounded by a fuel count, since a cyclic
    graph makes the source loop forever. */
module Engine {
  import opened Wrappers
  import opened Text
  import opened Values
  import opened Dicts
  import opened VariableStore
  import opened Templates
  import opened Conditions
  import opened Configs
  import opened Hosts
  import opened OllamaClient
  import opened FlowNodes

  type Arena = seq<FlowNode>

  /** Every edge of every node of the arena points into the arena. */
  ghost predicate Closed(arena: Arena) {
    forall i :: 0 <= i < |arena| ==> EdgesWithin(arena[i], |arena|)
  }

  /** The state a run changes: the variable store, the run's `memory` and the host call count. */
  datatype RunState = RunState(store: Store, memory: map<string, Value>, calls: nat)

  datatype StepResult = Moved(st: RunState, next: Option<Ref>) | Crash(st: RunState)

  /** How a run ends: no start node (a warning, nothing else happens), the walk reached `None`,
      an exception escaped a node, or the fuel ran out at a node. */
  datatype Outcome = NoStart | Completed(st: RunState) | Crashed(st: RunState) | OutOfFuel(st: RunState, at: Ref)

  /** Writing an answer both to the run's memory and through the variable manager: the memory gets the
      key, a declared variable of that name gets the value, and nothing else changes. */
  function Write(st: RunState, name: string, v: Value): (r: RunState)
    requires WellFormed(st.store)
    ensures WellFormed(r.store) && r.calls == st.calls
    ensures r.memory.Keys == st.memory.Keys + {name} && r.memory[name] == v
    ensures forall k :: k in st.memory && k != name ==> r.memory[k] == st.memory[k]
    ensures r.store.keys == st.store.keys && r.store.entries.Keys == st.store.entries.Keys
    ensures forall k :: k in st.store.entries ==>
              r.store.entries[k].varType == st.store.entries[k].varType &&
              r.store.entries[k].value == (if k == name then v else st.store.entries[k].value)
    ensures forall k :: k in st.store.entries && k != name ==> r.store.entries[k] == st.store.entries[k]
  {
    st.(store := Updated(st.store, name, v), memory := st.memory[name := v])
  }

  /** How a conditional reads a variable: its value when declared, else `None`. */
  function ReadDeclared(store: Store): string -> Value {
    name => if name in store.entries then store.entries[name].value else VNone
  }

  /** The controller's `resolve_field`: a "variable" field reads the declared variable's value,
      "" when it is not declared; any other field is its literal text. */
  function ResolveField(store: Store, f: Field): (v: Value)
    ensures f.kind != "variable" ==> v == VStr(f.value)
    ensures f.kind == "variable" && f.value !in store.entries ==> v == VStr("")
    ensures f.kind == "variable" && f.value in store.entries ==> v == store.entries[f.value].value
  {
    if f.kind == "variable" then
      if f.value in store.entries then store.entries[f.value].value else VStr("")
    else VStr(f.value)
  }

  function ParamPrompt(p: string): string {
    "Ingrese valor para el parámetro '" + p + "':"
  }

  /** The `param_values` dict of a python node and the call count after it: a declared
      parameter takes the variable's value, any other is asked for, in order. */
  function ParamValues(store: Store, params: seq<string>, o: Oracle, calls: nat): (r: (map<string, Value>, nat))
    ensures r.0.Keys == set p | p in params
    ensures calls <= r.1 <= calls + |params|
    decreases |params|
  {
    if |params| == 0 then (map[], calls)
    else
      var (m, c) := ParamValues(store, params[..|params| - 1], o, calls);
      var p := params[|params| - 1];
      assert params == params[..|params| - 1] + [p];
      if p in store.entries then (m[p := store.entries[p].value], c)
      else (m[p := FromAnswer(o.ask(c, ParamPrompt(p)))], c + 1)
  }

  /** The LLM node's answer for a chat reply. */
  function ChatAnswer(reply: Result<string, string>): Value {
    match reply
    case Ok(content) => VStr(content)
    case Err(e) => VStr("Error en LLM: " + e)
  }

  // ---------------------------------------------------------------------------
  // one node

  function AccionStep(n: FlowNode, st: RunState, o: Oracle): StepResult
    requires WellFormed(st.store)
  {
    if n.config.actionType.GetOr("imprimir") == "pregunta" then
      var q := Resolved(n.config.question.GetOr("Ingrese respuesta:"), Declared(st.store));
      var answer := FromAnswer(o.ask(st.calls, q));
      Moved(Write(st.(calls := st.calls + 1), VarName(n.config), answer), n.connectedTo)
    else Moved(st, n.connectedTo)
  }

  function CondicionalStep(n: FlowNode, st: RunState): StepResult {
    var r := Fold(Upper(n.config.logicalOperator.GetOr("")),
                  Results(n.config.conditions.GetOr([]), ReadDeclared(st.store)));
    Moved(st, if TakesTrue(r) then n.trueConnection else n.falseConnection)
  }

  function MultiplesStep(n: FlowNode, st: RunState, o: Oracle): StepResult
    requires WellFormed(st.store)
  {
    var q := n.config.question.GetOr("Seleccione respuesta:");
    var choice := o.choose(st.calls, q, n.config.responses.GetOr([]));
    Moved(Write(st.(calls := st.calls + 1), VarName(n.config), VStr(choice)), n.connectedTo)
  }

  /** The prompt after the "ask when empty" rule, and the call count after it. */
  function LlmPrompt(n: FlowNode, st: RunState, o: Oracle): (Value, nat) {
    var prompt := ResolveField(st.store, n.config.prompt.GetOr(FreeEmpty));
    if prompt == VStr("") then (FromAnswer(o.ask(st.calls, "Ingrese su pregunta:")), st.calls + 1)
    else (prompt, st.calls)
  }

  function LlmStep(n: FlowNode, st: RunState, o: Oracle): StepResult
    requires WellFormed(st.store)
  {
    var (prompt, calls) := LlmPrompt(n, st, o);
    if !prompt.VStr? then Crash(st.(calls := calls))
    else LlmAnswer(n, st.(calls := calls), prompt.s, o)
  }

  /** The chat call for a text prompt, and its answer written. */
  function LlmAnswer(n: FlowNode, st: RunState, prompt: string, o: Oracle): StepResult
    requires WellFormed(st.store)
  {
    var req := LlmRequest(
      ResolveField(st.store, n.config.personality.GetOr(FreeEmpty)),
      ResolveField(st.store, n.config.instructions.GetOr(FreeEmpty)),
      ResolveField(st.store, n.config.context.GetOr(FreeEmpty)),
      VStr(Resolved(prompt, Declared(st.store))));
    var model := ResolveField(st.store, n.config.model.GetOr(FreeEmpty));
    var answer := ChatAnswer(o.chat(st.calls, model, ChatMessages(req)));
    Moved(Write(st.(calls := st.calls + 1), VarName(n.config), answer), n.connectedTo)
  }

  function PythonStep(n: FlowNode, st: RunState, o: Oracle): StepResult
    requires WellFormed(st.store)
  {
    var (values, calls) := ParamValues(st.store, n.config.params.GetOr([]), o, st.calls);
    var outcome := o.exec(calls, n.config.code.GetOr(""), values);
    if outcome.Escaped? then Crash(st.(calls := calls + 1))
    else Moved(Write(st.(calls := calls + 1), VarName(n.config), ExecAnswer(outcome)), n.connectedTo)
  }

  /** One iteration of the `while current_node` loop. */
  function Step(n: FlowNode, st: RunState, o: Oracle): StepResult
    requires WellFormed(st.store)
  {
    if n.nodeType == "accion" then AccionStep(n, st, o)
    else if n.nodeType == "condicional" then CondicionalStep(n, st)
    else if n.nodeType == "multiples" then MultiplesStep(n, st, o)
    else if n.nodeType == "llm" then LlmStep(n, st, o)
    else if n.nodeType == "python" then PythonStep(n, st, o)
    else Moved(st, n.connectedTo)
  }

  /** A step keeps the store well formed, and a successor is one of the node's own edges. */
  lemma StepStaysInside(n: FlowNode, st: RunState, o: Oracle)
    requires WellFormed(st.store)
    ensures WellFormed(Step(n, st, o).st.store)
    ensures Step(n, st, o).Moved? && Step(n, st, o).next.Some? ==> Step(n, st, o).next.value in Edges(n)
  {
  }

  // ---------------------------------------------------------------------------
  // the walk

  /** The walk from `cur` with at most `fuel` node executions. */
  function Run(arena: Arena, cur: Option<Ref>, st: RunState, o: Oracle, fuel: nat): Outcome
    requires Closed(arena) && WellFormed(st.store)
    requires cur.Some? ==> cur.value < |arena|
    decreases fuel
  {
    match cur
    case None => Completed(st)
    case Some(r) =>
      if fuel == 0 then OutOfFuel(st, r)
      else
        StepStaysInside(arena[r], st, o);
        match Step(arena[r], st, o)
        case Crash(st') => Crashed(st')
        case Moved(st', next) => Run(arena, next, st', o, fuel - 1)
  }

  /** The position among `refs` of the first "inicio" node. */
  function FirstStart(arena: Arena, refs: seq<Ref>): (r: Option<nat>)
    requires forall i :: 0 <= i < |refs| ==> refs[i] < |arena|
    ensures r.Some? ==> r.value < |refs| && arena[refs[r.value]].nodeType == "inicio"
    ensures r.Some? ==> forall j :: 0 <= j < r.value ==> arena[refs[j]].nodeType != "inicio"
    ensures r.None? ==> forall j :: 0 <= j < |refs| ==> arena[refs[j]].nodeType != "inicio"
    decreases |refs|
  {
    if |refs| == 0 then None
    else if arena[refs[0]].nodeType == "inicio" then Some(0)
    else match FirstStart(arena, refs[1..])
      case Some(k) => Some(k + 1)
      case None => None
  }

  /** The controller's node dictionary points into the arena. */
  ghost predicate Indexes(arena: Arena, nodes: Dict<string, Ref>) {
    nodes.Valid() && forall k :: k in nodes.entries ==> nodes.entries[k] < |arena|
  }

  /** `handle_execute_flow`: no "inicio" node means nothing happens; otherwise a walk with an
      empty memory from the first "inicio" in dictionary order. */
  function Execute(arena: Arena, nodes: Dict<string, Ref>, store: Store, o: Oracle, calls: nat, fuel: nat): Outcome
    requires Closed(arena) && Indexes(arena, nodes) && WellFormed(store)
  {
    var refs := nodes.Values();
    match FirstStart(arena, refs)
    case None => NoStart
    case Some(k) => Run(arena, Some(refs[k]), RunState(store, map[], calls), o, fuel)
  }

  // ---------------------------------------------------------------------------
  // properties

  /** The run warns and stops before the loop exactly when no listed node is an "inicio" node. */
  lemma NoStartIffNoInicio(arena: Arena, nodes: Dict<string, Ref>, store: Store, o: Oracle, calls: nat, fuel: nat)
    requires Closed(arena) && Indexes(arena, nodes) && WellFormed(store)
    ensures Execute(arena, nodes, store, o, calls, fuel) == NoStart <==>
            forall k :: k in nodes.entries ==> arena[nodes.entries[k]].nodeType != "inicio"
  {
    var refs := nodes.Values();
    if FirstStart(arena, refs).None? {
      forall k | k in nodes.entries ensures arena[nodes.entries[k]].nodeType != "inicio" {
        var i :| 0 <= i < |nodes.keys| && nodes.keys[i] == k;
        assert refs[i] == nodes.entries[k];
      }
    } else {
      var i := FirstStart(arena, refs).value;
      assert nodes.keys[i] in nodes.entries && nodes.entries[nodes.keys[i]] == refs[i];
      RunKeepsDeclarations(arena, Some(refs[i]), RunState(store, map[], calls), o, fuel);
    }
  }

  /** The successor of a node: a conditional goes to its true or false exit according to the
      folded clause result, every other node to `connected_to`; only LLM and python nodes can
      raise. */
  lemma StepSuccessor(n: FlowNode, st: RunState, o: Oracle)
    requires WellFormed(st.store)
    ensures n.nodeType != "llm" && n.nodeType != "python" ==> Step(n, st, o).Moved?
    ensures n.nodeType != "condicional" && Step(n, st, o).Moved? ==> Step(n, st, o).next == n.connectedTo
    ensures n.nodeType == "condicional" ==>
              var r := Fold(Upper(n.config.logicalOperator.GetOr("")),
                            Results(n.config.conditions.GetOr([]), ReadDeclared(st.store)));
              Step(n, st, o) == Moved(st, if r == Some(true) then n.trueConnection else n.falseConnection)
  {
  }

  /** A declared parameter is never asked for: it takes the variable's value. */
  lemma {:induction false} DeclaredParamsAreNotAsked(store: Store, params: seq<string>, o: Oracle, calls: nat, p: string)
    requires p in params && p in store.entries
    ensures ParamValues(store, params, o, calls).0[p] == store.entries[p].value
    decreases |params|
  {
    var init := params[..|params| - 1];
    if params[|params| - 1] != p {
      assert params == init + [params[|params| - 1]];
      assert p in init;
      DeclaredParamsAreNotAsked(store, init, o, calls, p);
    }
  }

  /** With every parameter declared, no question is asked at all. */
  lemma {:induction false} DeclaredParamsAskNothing(store: Store, params: seq<string>, o: Oracle, calls: nat)
    requires forall i :: 0 <= i < |params| ==> params[i] in store.entries
    ensures ParamValues(store, params, o, calls).1 == calls
    decreases |params|
  {
    if |params| > 0 {
      DeclaredParamsAskNothing(store, params[..|params| - 1], o, calls);
    }
  }

  /** Print nodes, conditionals, start nodes and nodes of unknown type change nothing. */
  lemma PassiveNodesChangeNothing(n: FlowNode, st: RunState, o: Oracle)
    requires WellFormed(st.store)
    requires n.nodeType !in ["multiples", "llm", "python"]
    requires n.nodeType == "accion" ==> n.config.actionType.GetOr("imprimir") != "pregunta"
    ensures Step(n, st, o).Moved? && Step(n, st, o).st == st
  {
  }

  /** An answering node writes exactly its variable: `memory` gets the key, a declared variable
      gets the value, and no variable is declared or removed. */
  lemma AnswerWritesOneName(n: FlowNode, st: RunState, o: Oracle)
    requires WellFormed(st.store)
    requires n.nodeType in {"multiples", "llm", "python"} ||
             (n.nodeType == "accion" && n.config.actionType.GetOr("imprimir") == "pregunta")
    requires Step(n, st, o).Moved?
    ensures var st' := Step(n, st, o).st;
      && st'.store.keys == st.store.keys
      && st'.memory.Keys == st.memory.Keys + {VarName(n.config)}
      && (forall k :: k in st.memory && k != VarName(n.config) ==> st'.memory[k] == st.memory[k])
      && (forall k :: k in st.store.entries && k != VarName(n.config) ==> st'.store.entries[k] == st.store.entries[k])
      && (VarName(n.config) in st.store.entries <==> VarName(n.config) in st'.store.entries)
  {
  }

  /** A failing chat never stops the walk: its message is written as the answer. */
  lemma ChatErrorIsWritten(n: FlowNode, st: RunState, o: Oracle, e: string)
    requires WellFormed(st.store) && n.nodeType == "llm"
    requires LlmPrompt(n, st, o).0.VStr?
    requires var (p, calls) := LlmPrompt(n, st, o);
      o.chat(calls, ResolveField(st.store, n.config.model.GetOr(FreeEmpty)),
             ChatMessages(LlmRequest(
               ResolveField(st.store, n.config.personality.GetOr(FreeEmpty)),
               ResolveField(st.store, n.config.instructions.GetOr(FreeEmpty)),
               ResolveField(st.store, n.config.context.GetOr(FreeEmpty)),
               VStr(Resolved(p.s, Declared(st.store)))))) == Err(e)
    ensures Step(n, st, o).Moved? && Step(n, st, o).next == n.connectedTo
    ensures Step(n, st, o).st.memory[VarName(n.config)] == VStr("Error en LLM: " + e)
  {
  }

  /** An LLM node raises exactly when its prompt is not text: a cancelled prompt dialog, or a
      "variable" prompt field naming a non-string variable. */
  lemma LlmCrashesOnlyOnNonText(n: FlowNode, st: RunState, o: Oracle)
    requires WellFormed(st.store) && n.nodeType == "llm"
    ensures Step(n, st, o).Crash? <==> !LlmPrompt(n, st, o).0.VStr?
  {
  }

  /** A python node ends the run exactly when the code raises an exception outside
      `Exception`; every other outcome is written and the walk goes on. */
  lemma PythonCrashesOnlyOnEscape(n: FlowNode, st: RunState, o: Oracle)
    requires WellFormed(st.store) && n.nodeType == "python"
    ensures var (values, calls) := ParamValues(st.store, n.config.params.GetOr([]), o, st.calls);
      var outcome := o.exec(calls, n.config.code.GetOr(""), values);
      && (Step(n, st, o).Crash? <==> outcome.Escaped?)
      && (Step(n, st, o).Crash? ==> Step(n, st, o).st == st.(calls := calls + 1))
      && (!outcome.Escaped? ==> Step(n, st, o).Moved? && Step(n, st, o).next == n.connectedTo &&
                                Step(n, st, o).st.memory[VarName(n.config)] == ExecAnswer(outcome))
  {
  }

  /** A run never declares or removes a variable, and keeps every variable's name and type. */
  lemma {:induction false} RunKeepsDeclarations(arena: Arena, cur: Option<Ref>, st: RunState, o: Oracle, fuel: nat)
    requires Closed(arena) && WellFormed(st.store)
    requires cur.Some? ==> cur.value < |arena|
    ensures var out := Run(arena, cur, st, o, fuel);
      !out.NoStart? &&
      out.st.store.keys == st.store.keys &&
      forall k :: k in st.store.entries ==>
        k in out.st.store.entries && out.st.store.entries[k].varType == st.store.entries[k].varType
    decreases fuel
  {
    match cur
    case None =>
    case Some(r) =>
      if fuel > 0 {
        StepStaysInside(arena[r], st, o);
        var s := Step(arena[r], st, o);
        StepKeepsDeclarations(arena[r], st, o);
        if s.Moved? {
          RunKeepsDeclarations(arena, s.next, s.st, o, fuel - 1);
        }
      }
  }

  /** One step never declares or removes a variable, nor changes a type. */
  lemma StepKeepsDeclarations(n: FlowNode, st: RunState, o: Oracle)
    requires WellFormed(st.store)
    ensures var st' := Step(n, st, o).st;
      st'.store.keys == st.store.keys &&
      forall k :: k in st.store.entries ==>
        k in st'.store.entries && st'.store.entries[k].varType == st.store.entries[k].varType
  {
  }

  /** The walk follows successors: a run from a node that moves on is the run from its
      successor with one unit of fuel less. */
  lemma RunUnfolds(arena: Arena, r: Ref, st: RunState, o: Oracle, fuel: nat)
    requires Closed(arena) && WellFormed(st.store) && r < |arena| && fuel > 0
    requires Step(arena[r], st, o).Moved?
    ensures Step(arena[r], st, o).next.Some? ==> Step(arena[r], st, o).next.value < |arena|
    ensures WellFormed(Step(arena[r], st, o).st.store)
    ensures Run(arena, Some(r), st, o, fuel) ==
            Run(arena, Step(arena[r], st, o).next, Step(arena[r], st, o).st, o, fuel - 1)
  {
    StepStaysInside(arena[r], st, o);
  }
}
