/** The body of the `while current_node` loop of `DiagramController.handle_execute_flow`
    (controllers/diagram_controller.py), one method per node type, each proved to do what
    `Engine.Step` says: the run's `memory` is a local dictionary, the variable store is the
    controller's `VariableManager`, and every dialog, chat and `exec` goes through the host. */
module FlowRun {
  import opened Wrappers
  import opened Values
  import opened VariableStore
  import opened Templates
  import opened Conditions
  import opened Configs
  import opened Hosts
  import opened OllamaClient
  import opened FlowNodes
  import opened Engine

  /** The state the step functions speak of, read off the objects. */
  function StateOf(store: Store, memory: map<string, Value>, calls: nat): RunState {
    RunState(store, memory, calls)
  }

  /** An "accion" node: "imprimir" prints, "pregunta" asks the substituted question and writes
      the answer, any other action does nothing. */
  method RunAccion(n: FlowNode, vm: VariableManager, host: Host, memory: map<string, Value>)
    returns (memory': map<string, Value>)
    requires vm.Valid()
    modifies vm, host
    ensures vm.Valid() && host.outbox == old(host.outbox)
    ensures AccionStep(n, StateOf(old(vm.variables), memory, old(host.calls)), host.oracle) ==
            Moved(StateOf(vm.variables, memory', host.calls), n.connectedTo)
  {
    memory' := memory;
    var actionType := n.config.actionType.GetOr("imprimir");
    if actionType == "imprimir" {
      // the text is printed
    } else if actionType == "pregunta" {
      var answer := AskResolved(vm, host, n.config.question.GetOr("Ingrese respuesta:"));
      var name := VarName(n.config);
      memory' := memory[name := FromAnswer(answer)];
      vm.UpdateVariable(name, FromAnswer(answer));
    }
  }

  /** The question with its declared variables substituted, then `askstring`. */
  method AskResolved(vm: VariableManager, host: Host, text: string) returns (answer: Option<string>)
    modifies host
    ensures answer == host.oracle.ask(old(host.calls), Resolved(text, Declared(vm.variables)))
    ensures host.calls == old(host.calls) + 1 && host.outbox == old(host.outbox)
  {
    var question := Resolve(text, Declared(vm.variables));
    answer := host.Ask(question);
  }

  /** A "condicional" node: the clause loop, then the true or the false exit. */
  method RunCondicional(n: FlowNode, vm: VariableManager) returns (next: Option<Ref>)
    requires vm.Valid()
    ensures forall memory, calls :: CondicionalStep(n, StateOf(vm.variables, memory, calls)) ==
                                    Moved(StateOf(vm.variables, memory, calls), next)
  {
    var result := EvaluateClauses(n.config.conditions.GetOr([]), n.config.logicalOperator.GetOr(""),
                                  ReadDeclared(vm.variables));
    if result == Some(true) {
      next := n.trueConnection;
    } else {
      next := n.falseConnection;
    }
  }

  /** A "multiples" node: the radio-button dialog's choice is written. */
  method RunMultiples(n: FlowNode, vm: VariableManager, host: Host, memory: map<string, Value>)
    returns (memory': map<string, Value>)
    requires vm.Valid()
    modifies vm, host
    ensures vm.Valid() && host.outbox == old(host.outbox)
    ensures MultiplesStep(n, StateOf(old(vm.variables), memory, old(host.calls)), host.oracle) ==
            Moved(StateOf(vm.variables, memory', host.calls), n.connectedTo)
  {
    var question := n.config.question.GetOr("Seleccione respuesta:");
    var responses := n.config.responses.GetOr([]);
    var name := VarName(n.config);
    var choice := host.Choose(question, responses);
    memory' := memory[name := VStr(choice)];
    vm.UpdateVariable(name, VStr(choice));
  }

  /** An "llm" node: the five fields resolved, an empty prompt asked for, the prompt
      substituted (a prompt that is not text makes `re.findall` raise), one chat call whose
      failure becomes the answer "Error en LLM: ...", and the answer written. */
  method RunLlm(n: FlowNode, vm: VariableManager, host: Host, memory: map<string, Value>)
    returns (memory': map<string, Value>, crashed: bool)
    requires vm.Valid()
    modifies vm, host
    ensures vm.Valid() && host.outbox == old(host.outbox)
    ensures var r := LlmStep(n, StateOf(old(vm.variables), memory, old(host.calls)), host.oracle);
      if crashed then r == Crash(StateOf(vm.variables, memory', host.calls))
      else r == Moved(StateOf(vm.variables, memory', host.calls), n.connectedTo)
  {
    var prompt := AskPromptIfEmpty(n, vm, host, memory);
    if !prompt.VStr? {
      return memory, true;
    }
    memory' := AnswerLlm(n, vm, host, memory, prompt.s);
    crashed := false;
  }

  /** The five fields resolved, one chat call whose failure becomes the answer
      "Error en LLM: ...", and the answer written. */
  method AnswerLlm(n: FlowNode, vm: VariableManager, host: Host, memory: map<string, Value>, prompt: string)
    returns (memory': map<string, Value>)
    requires vm.Valid()
    modifies vm, host
    ensures vm.Valid() && host.outbox == old(host.outbox)
    ensures LlmAnswer(n, StateOf(old(vm.variables), memory, old(host.calls)), prompt, host.oracle) ==
            Moved(StateOf(vm.variables, memory', host.calls), n.connectedTo)
  {
    var model := ResolveField(vm.variables, n.config.model.GetOr(FreeEmpty));
    var personality := ResolveField(vm.variables, n.config.personality.GetOr(FreeEmpty));
    var instructions := ResolveField(vm.variables, n.config.instructions.GetOr(FreeEmpty));
    var context := ResolveField(vm.variables, n.config.context.GetOr(FreeEmpty));
    var reply := ChatResolved(vm, host, model, personality, instructions, context, prompt);
    var answer := ChatAnswer(reply);
    var name := VarName(n.config);
    memory' := memory[name := answer];
    vm.UpdateVariable(name, answer);
  }

  /** The prompt field resolved, and asked for when that gives "". */
  method AskPromptIfEmpty(n: FlowNode, vm: VariableManager, host: Host, memory: map<string, Value>)
    returns (prompt: Value)
    modifies host
    ensures (prompt, host.calls) == LlmPrompt(n, StateOf(vm.variables, memory, old(host.calls)), host.oracle)
    ensures host.outbox == old(host.outbox)
  {
    prompt := ResolveField(vm.variables, n.config.prompt.GetOr(FreeEmpty));
    if prompt == VStr("") {
      var asked := host.Ask("Ingrese su pregunta:");
      prompt := FromAnswer(asked);
    }
  }

  /** The prompt with its declared variables substituted, then the chat call. */
  method ChatResolved(vm: VariableManager, host: Host, model: Value, personality: Value,
                      instructions: Value, context: Value, prompt: string)
    returns (reply: Result<string, string>)
    modifies host
    ensures reply == host.oracle.chat(old(host.calls), model, ChatMessages(
              LlmRequest(personality, instructions, context, VStr(Resolved(prompt, Declared(vm.variables))))))
    ensures host.calls == old(host.calls) + 1 && host.outbox == old(host.outbox)
  {
    var text := Resolve(prompt, Declared(vm.variables));
    reply := Chat(host, model, LlmRequest(personality, instructions, context, VStr(text)));
  }

  /** A "python" node: each parameter is the declared variable's value or is asked for, in
      order; the code runs once and its answer, or the error text, is written. An exception
      outside `Exception` escapes the handler and ends the run. */
  method RunPython(n: FlowNode, vm: VariableManager, host: Host, memory: map<string, Value>)
    returns (memory': map<string, Value>, crashed: bool)
    requires vm.Valid()
    modifies vm, host
    ensures vm.Valid() && host.outbox == old(host.outbox)
    ensures var r := PythonStep(n, StateOf(old(vm.variables), memory, old(host.calls)), host.oracle);
      if crashed then r == Crash(StateOf(vm.variables, memory', host.calls))
      else r == Moved(StateOf(vm.variables, memory', host.calls), n.connectedTo)
  {
    var code := n.config.code.GetOr("");
    var params := n.config.params.GetOr([]);
    var name := VarName(n.config);
    var values := GatherParams(vm, host, params);
    var outcome := host.Exec(code, values);
    if outcome.Escaped? {
      return memory, true;
    }
    var answer := ExecAnswer(outcome);
    memory', crashed := memory[name := answer], false;
    vm.UpdateVariable(name, answer);
  }

  /** The `param_values` loop of a python node. */
  method GatherParams(vm: VariableManager, host: Host, params: seq<string>) returns (values: map<string, Value>)
    requires vm.Valid()
    modifies host
    ensures (values, host.calls) == ParamValues(vm.variables, params, host.oracle, old(host.calls))
    ensures host.outbox == old(host.outbox)
  {
    values := map[];
    var i := 0;
    while i < |params|
      invariant 0 <= i <= |params|
      invariant (values, host.calls) == ParamValues(vm.variables, params[..i], host.oracle, old(host.calls))
      invariant host.outbox == old(host.outbox)
    {
      var p := params[i];
      var declared := vm.GetVariable(p);
      var v;
      if declared.Some? {
        v := declared.value.value;
      } else {
        var asked := host.Ask(ParamPrompt(p));
        v := FromAnswer(asked);
      }
      values := values[p := v];
      i := i + 1;
      assert params[..i][..i - 1] == params[..i - 1];
    }
    assert params[..|params|] == params;
  }

  /** One iteration of the loop: the node's effect, then its successor. */
  method RunNode(n: FlowNode, vm: VariableManager, host: Host, memory: map<string, Value>)
    returns (memory': map<string, Value>, next: Option<Ref>, crashed: bool)
    requires vm.Valid()
    modifies vm, host
    ensures vm.Valid() && host.outbox == old(host.outbox)
    ensures var r := Step(n, StateOf(old(vm.variables), memory, old(host.calls)), host.oracle);
      if crashed then r == Crash(StateOf(vm.variables, memory', host.calls))
      else r == Moved(StateOf(vm.variables, memory', host.calls), next)
  {
    crashed := false;
    next := n.connectedTo;
    if n.nodeType == "accion" {
      memory' := RunAccion(n, vm, host, memory);
    } else if n.nodeType == "condicional" {
      memory' := memory;
      next := RunCondicional(n, vm);
    } else if n.nodeType == "multiples" {
      memory' := RunMultiples(n, vm, host, memory);
    } else if n.nodeType == "llm" {
      memory', crashed := RunLlm(n, vm, host, memory);
    } else if n.nodeType == "python" {
      memory', crashed := RunPython(n, vm, host, memory);
    } else {
      memory' := memory;
    }
  }
}
