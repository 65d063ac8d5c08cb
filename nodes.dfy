/** The node classes of models/: `FlowNode` (models/nodes.py) and its variants `InicioNode`,
    `AccionNode`, `CondicionalNode`, `MultiplesNode`, `LLMNode`, `PythonNode`, `SmtpNode` and
    `DefaultNode`. Each variant's `execute(context)` may write into the `context` dict and
    returns the next node; its configuration dialog's `on_ok` rewrites the node's fields from
    the dialog's entries, which are given here as strings. */
module Nodes {
  import opened Wrappers
  import opened Text
  import opened Values
  import opened Templates
  import opened Conditions
  import opened Configs
  import opened Hosts
  import opened OllamaClient

  /** Which variant class a node is an instance of. */
  datatype Kind = Inicio | Accion | Condicional | Multiples | Llm | Python | Smtp | Default

  /** The `context` dict handed to `execute`. */
  class Context {
    var vars: map<string, Value>

    constructor(vars0: map<string, Value>)
      ensures vars == vars0
    {
      vars := vars0;
    }
  }

  /** What `execute` ends with: the node it returns (`null` for `None`), or the message of an
      exception that escapes it. */
  datatype Step = Next(node: Node?) | Failed(message: string)

  /** The fields a variant's constructor sets. */
  datatype Defaults = Defaults(nodeType: string, text: string, title: string, config: Config)

  /** The part of a node `execute` reads. The two exits are `None` while the attribute does not
      exist: no class of models/ ever assigns `true_connection` or `false_connection`. */
  datatype Shape = Shape(kind: Kind, config: Config, connectedTo: Node?,
                         trueConnection: Option<Node?>, falseConnection: Option<Node?>)

  /** What one `execute` call does: the step, the context afterwards, the host call count
      afterwards and the mails handed to `smtplib`. */
  datatype Effect = Effect(step: Step, vars: map<string, Value>, calls: nat, sent: seq<Mail>)

  /** The constructor arguments and config entries of each variant; a `DefaultNode` made by the
      factory for an unknown `tag` gets the capitalised tag followed by " Node" as text. */
  function DefaultsOf(k: Kind, tag: string): Defaults {
    match k
    case Inicio => Defaults("inicio", "Inicio", "Inicio", EmptyConfig)
    case Accion => Defaults("accion", "Acción", "Acción", EmptyConfig.(actionType := Some("imprimir")))
    case Condicional =>
      Defaults("condicional", "Condicional", "Condicional",
               EmptyConfig.(conditions := Some([]), logicalOperator := Some("AND")))
    case Multiples =>
      Defaults("multiples", "Múltiples Respuestas", "Pregunta Múltiple",
               EmptyConfig.(question := Some(""), responses := Some([]), variableName := Some("")))
    case Llm =>
      Defaults("llm", "LLM", "LLM",
               EmptyConfig.(model := Some(FreeEmpty), personality := Some(FreeEmpty),
                            instructions := Some(FreeEmpty), context := Some(FreeEmpty),
                            prompt := Some(FreeEmpty), variableName := Some("")))
    case Python =>
      Defaults("python", "Python", "Ejecutar Código Python",
               EmptyConfig.(code := Some(""), params := Some([]), variableName := Some("")))
    case Smtp => Defaults("smtp", "SMTP", "Enviar Correo", EmptyConfig)
    case Default => Defaults(tag, Capitalize(tag) + " Node", "", EmptyConfig)
  }

  // ---------------------------------------------------------------------------
  // execute, as a function of the node and the context

  /** `context.get(name)`. */
  function Lookup(vars: map<string, Value>, name: string): Value {
    if name in vars then vars[name] else VNone
  }

  function ReadContext(vars: map<string, Value>): string -> Value {
    name => Lookup(vars, name)
  }

  /** `LLMNode`'s `resolve_field`: the context value (empty when missing) for a "variable" field, the
      literal value otherwise. */
  function FieldValue(vars: map<string, Value>, f: Field): Value {
    if f.kind == "variable" then (if f.value in vars then vars[f.value] else VStr("")) else VStr(f.value)
  }

  function ParamPrompt(p: string): string {
    "Ingrese valor para '" + p + "':"
  }

  /** `PythonNode`'s `param_values` and the call count after it: a parameter takes its context
      value, and is asked for only when that value is `None` or missing. */
  function ContextParams(vars: map<string, Value>, params: seq<string>, o: Oracle, calls: nat)
    : (r: (map<string, Value>, nat))
    ensures r.0.Keys == set p | p in params
    ensures calls <= r.1 <= calls + |params|
    decreases |params|
  {
    if |params| == 0 then (map[], calls)
    else
      var (m, c) := ContextParams(vars, params[..|params| - 1], o, calls);
      var p := params[|params| - 1];
      assert params == params[..|params| - 1] + [p];
      if Lookup(vars, p) != VNone then (m[p := vars[p]], c)
      else (m[p := FromAnswer(o.ask(c, ParamPrompt(p)))], c + 1)
  }

  /** The text of the `AttributeError` an unassigned exit raises. */
  function MissingAttribute(name: string): string {
    "'CondicionalNode' object has no attribute '" + name + "'"
  }

  /** Reading an exit attribute. */
  function Exit(exit: Option<Node?>, name: string): Step {
    match exit
    case Some(n) => Next(n)
    case None => Failed(MissingAttribute(name))
  }

  /** `CondicionalNode`'s folded clause result, with "AND" as the default operator and the
      context as the source of variable values. */
  predicate ConditionHolds(c: Config, vars: map<string, Value>) {
    TakesTrue(Fold(Upper(c.logicalOperator.GetOr("AND")), Results(c.conditions.GetOr([]), ReadContext(vars))))
  }

  /** The text `MultiplesNode` asks with. */
  function OptionsPrompt(c: Config): string {
    c.question.GetOr("Seleccione una opción:") + "\nOpciones: " + Join(c.responses.GetOr([]), ", ")
  }

  /** `LLMNode`'s message map once the prompt is known. */
  function NodeRequest(c: Config, vars: map<string, Value>, prompt: string): LlmRequest {
    LlmRequest(FieldValue(vars, c.personality.GetOr(FreeEmpty)),
               FieldValue(vars, c.instructions.GetOr(FreeEmpty)),
               FieldValue(vars, c.context.GetOr(FreeEmpty)),
               VStr(Resolved(prompt, FromContext(vars))))
  }

  /** The mail `SmtpNode` hands to `smtplib` once the port is known. */
  function NodeMail(c: Config, vars: map<string, Value>, port: int): Mail {
    Mail(c.smtpServer.GetOr(""), port, c.user.GetOr(""), c.password.GetOr(""), c.sender.GetOr(""),
         c.to.GetOr(""), Split(c.to.GetOr(""), ","),
         Resolved(c.subject.GetOr(""), FromContext(vars)), Resolved(c.body.GetOr(""), FromContext(vars)),
         c.isHtml.GetOr(false))
  }

  /** The text of the `TypeError` `re.findall` raises on a prompt that is not a string. */
  const NotText := "expected string or bytes-like object"

  /** One `execute(context)` call. */
  function Executed(sh: Shape, vars: map<string, Value>, o: Oracle, calls: nat): Effect {
    match sh.kind
    case Inicio => Effect(Next(sh.connectedTo), vars, calls, [])
    case Default => Effect(Next(sh.connectedTo), vars, calls, [])
    case Accion => AccionEffect(sh, vars, o, calls)
    case Condicional => CondicionalEffect(sh, vars, calls)
    case Multiples => MultiplesEffect(sh, vars, o, calls)
    case Llm => LlmEffect(sh, vars, o, calls)
    case Python => PythonEffect(sh, vars, o, calls)
    case Smtp => SmtpEffect(sh, vars, calls)
  }

  /** `AccionNode.execute`: "imprimir" only passes on; any other action asks the question and
      stores the answer. */
  function AccionEffect(sh: Shape, vars: map<string, Value>, o: Oracle, calls: nat): Effect {
    var c := sh.config;
    if c.actionType.GetOr("imprimir") == "imprimir" then Effect(Next(sh.connectedTo), vars, calls, [])
    else
      var answer := FromAnswer(o.ask(calls, c.question.GetOr("Ingrese respuesta:")));
      Effect(Next(sh.connectedTo), vars[VarName(c) := answer], calls + 1, [])
  }

  /** `CondicionalNode.execute`: the exit chosen by the clauses. */
  function CondicionalEffect(sh: Shape, vars: map<string, Value>, calls: nat): Effect {
    var step := if ConditionHolds(sh.config, vars) then Exit(sh.trueConnection, "true_connection")
                else Exit(sh.falseConnection, "false_connection");
    Effect(step, vars, calls, [])
  }

  /** `MultiplesNode.execute`: asks with the options listed and stores the answer. */
  function MultiplesEffect(sh: Shape, vars: map<string, Value>, o: Oracle, calls: nat): Effect {
    var answer := FromAnswer(o.ask(calls, OptionsPrompt(sh.config)));
    Effect(Next(sh.connectedTo), vars[VarName(sh.config) := answer], calls + 1, [])
  }

  /** `LLMNode.execute`: a prompt that is not text raises; otherwise one chat call, whose error
      propagates and whose reply is stored. */
  function LlmEffect(sh: Shape, vars: map<string, Value>, o: Oracle, calls: nat): Effect {
    var c := sh.config;
    var prompt := FieldValue(vars, c.prompt.GetOr(FreeEmpty));
    if !prompt.VStr? then Effect(Failed(NotText), vars, calls, [])
    else
      var model := FieldValue(vars, c.model.GetOr(FreeEmpty));
      var reply := o.chat(calls, model, ChatMessages(NodeRequest(c, vars, prompt.s)));
      if reply.Err? then Effect(Failed(reply.error), vars, calls + 1, [])
      else Effect(Next(sh.connectedTo), vars[VarName(c) := VStr(reply.value)], calls + 1, [])
  }

  /** `PythonNode.execute`: gathers the parameters, runs the code once and stores its answer;
      an exception outside `Exception` propagates. */
  function PythonEffect(sh: Shape, vars: map<string, Value>, o: Oracle, calls: nat): Effect {
    var c := sh.config;
    var (values, calls') := ContextParams(vars, c.params.GetOr([]), o, calls);
    var outcome := o.exec(calls', c.code.GetOr(""), values);
    if outcome.Escaped? then Effect(Failed(outcome.msg), vars, calls' + 1, [])
    else Effect(Next(sh.connectedTo), vars[VarName(c) := ExecAnswer(outcome)], calls' + 1, [])
  }

  /** `SmtpNode.execute`: sends one mail when the port parses, and ends the walk either way. */
  function SmtpEffect(sh: Shape, vars: map<string, Value>, calls: nat): Effect {
    var c := sh.config;
    var port := ParseInt(c.smtpPort.GetOr("0"));
    if port.None? then Effect(Next(null), vars, calls, [])
    else Effect(Next(null), vars, calls, [NodeMail(c, vars, port.value)])
  }

  // ---------------------------------------------------------------------------
  // on_ok, as functions of the dialog's entries

  /** `CondicionalNode`'s row check: every row with all three entries non-empty after
      stripping becomes a clause of the stripped entries; one incomplete row rejects them all. */
  function ParseRows(rows: seq<Clause>): (r: Option<seq<Clause>>)
    ensures r.Some? ==> |r.value| == |rows|
    decreases |rows|
  {
    if |rows| == 0 then Some([])
    else
      var r := ParseRows(rows[..|rows| - 1]);
      var last := rows[|rows| - 1];
      if r.Some? && Complete(last) then Some(r.value + [Trimmed(last)]) else None
  }

  /** The rows are accepted exactly when every row is complete, and then each clause is its
      row with the entries stripped, in the same order. */
  lemma {:induction false} ParseRowsMeaning(rows: seq<Clause>)
    ensures ParseRows(rows).Some? <==> forall i :: 0 <= i < |rows| ==> Complete(rows[i])
    ensures ParseRows(rows).Some? ==>
              forall i :: 0 <= i < |rows| ==> ParseRows(rows).value[i] == Trimmed(rows[i])
    decreases |rows|
  {
    if |rows| > 0 {
      var init := rows[..|rows| - 1];
      var last := rows[|rows| - 1];
      ParseRowsMeaning(init);
      var r := ParseRows(init);
      if r.Some? && Complete(last) {
        var out := r.value + [Trimmed(last)];
        assert ParseRows(rows) == Some(out);
        forall i | 0 <= i < |rows| ensures Complete(rows[i]) && out[i] == Trimmed(rows[i]) {
          if i < |init| {
            assert Complete(init[i]) && r.value[i] == Trimmed(init[i]);
            assert rows[i] == init[i] && out[i] == r.value[i];
          } else {
            assert rows[i] == last;
          }
        }
      } else if r.None? {
        var j :| 0 <= j < |init| && !Complete(init[j]);
        assert rows[j] == init[j];
      } else {
        assert !Complete(rows[|rows| - 1]);
      }
    }
  }

  /** All three entries of the row are non-empty once stripped (`Filled`, see `FilledIff`). */
  predicate Complete(row: Clause) {
    Filled(row.variable) && Filled(row.operator) && Filled(row.value)
  }

  function Trimmed(row: Clause): Clause {
    Clause(Strip(row.variable), Strip(row.operator), Strip(row.value))
  }

  class Node {
    const kind: Kind
    var id: string
    var x: int
    var y: int
    var nodeType: string
    var text: string
    var title: string
    var config: Config
    var connectedFrom: Node?
    var connectedTo: Node?
    var trueConnection: Option<Node?>
    var falseConnection: Option<Node?>

    /** `FlowNode.__init__` followed by the variant's own config entries; `id` stands for the
        fresh `uuid4` string. */
    constructor(k: Kind, id: string, x: int, y: int, d: Defaults)
      ensures kind == k && this.id == id && this.x == x && this.y == y
      ensures nodeType == d.nodeType && text == d.text && title == d.title && config == d.config
      ensures connectedFrom == null && connectedTo == null
      ensures trueConnection.None? && falseConnection.None?
    {
      kind := k;
      this.id := id;
      this.x := x;
      this.y := y;
      nodeType := d.nodeType;
      text := d.text;
      title := d.title;
      config := d.config;
      connectedFrom := null;
      connectedTo := null;
      trueConnection := None;
      falseConnection := None;
    }

    function ShapeOf(): Shape
      reads this
    {
      Shape(kind, config, connectedTo, trueConnection, falseConnection)
    }

    /** `input_point`: the middle of the left side. */
    function InputPoint(): (p: (int, int))
      reads this
      ensures p == (x, y + 25)
    {
      (x, y + 25)
    }

    /** `output_point`: the input point moved right by the node width 100. */
    function OutputPoint(): (p: (int, int))
      reads this
      ensures p == (InputPoint().0 + 100, InputPoint().1)
    {
      (x + 100, y + 25)
    }

    // -------------------------------------------------------------------------
    // execute

    /** `execute(context)` of the node's variant. */
    method Execute(ctx: Context, host: Host) returns (step: Step)
      modifies ctx, host
      ensures var e := Executed(ShapeOf(), old(ctx.vars), host.oracle, old(host.calls));
        step == e.step && ctx.vars == e.vars && host.calls == e.calls && host.outbox == old(host.outbox) + e.sent
    {
      match kind
      case Inicio => step := Next(connectedTo);
      case Default => step := Next(connectedTo);
      case Accion => step := ExecuteAccion(ctx, host);
      case Condicional => step := ExecuteCondicional(ctx, host);
      case Multiples => step := ExecuteMultiples(ctx, host);
      case Llm => step := ExecuteLlm(ctx, host);
      case Python => step := ExecutePython(ctx, host);
      case Smtp => step := ExecuteSmtp(ctx, host);
    }

    method ExecuteAccion(ctx: Context, host: Host) returns (step: Step)
      requires kind == Accion
      modifies ctx, host
      ensures var e := AccionEffect(ShapeOf(), old(ctx.vars), host.oracle, old(host.calls));
        step == e.step && ctx.vars == e.vars && host.calls == e.calls && host.outbox == old(host.outbox) + e.sent
    {
      var act := config.actionType.GetOr("imprimir");
      if act != "imprimir" {
        var answer := host.Ask(config.question.GetOr("Ingrese respuesta:"));
        ctx.vars := ctx.vars[VarName(config) := FromAnswer(answer)];
      }
      step := Next(connectedTo);
    }

    method ExecuteCondicional(ctx: Context, host: Host) returns (step: Step)
      requires kind == Condicional
      ensures step == CondicionalEffect(ShapeOf(), ctx.vars, host.calls).step
    {
      var result := EvaluateClauses(config.conditions.GetOr([]), config.logicalOperator.GetOr("AND"), ReadContext(ctx.vars));
      if result == Some(true) {
        step := Exit(trueConnection, "true_connection");
      } else {
        step := Exit(falseConnection, "false_connection");
      }
    }

    method ExecuteMultiples(ctx: Context, host: Host) returns (step: Step)
      requires kind == Multiples
      modifies ctx, host
      ensures var e := MultiplesEffect(ShapeOf(), old(ctx.vars), host.oracle, old(host.calls));
        step == e.step && ctx.vars == e.vars && host.calls == e.calls && host.outbox == old(host.outbox) + e.sent
    {
      var answer := host.Ask(OptionsPrompt(config));
      ctx.vars := ctx.vars[VarName(config) := FromAnswer(answer)];
      step := Next(connectedTo);
    }

    method ExecuteLlm(ctx: Context, host: Host) returns (step: Step)
      requires kind == Llm
      modifies ctx, host
      ensures var e := LlmEffect(ShapeOf(), old(ctx.vars), host.oracle, old(host.calls));
        step == e.step && ctx.vars == e.vars && host.calls == e.calls && host.outbox == old(host.outbox) + e.sent
    {
      var vars := ctx.vars;
      var model := FieldValue(vars, config.model.GetOr(FreeEmpty));
      var prompt := FieldValue(vars, config.prompt.GetOr(FreeEmpty));
      if !prompt.VStr? {
        return Failed(NotText);
      }
      var resolved := Resolve(prompt.s, FromContext(vars));
      var req := LlmRequest(FieldValue(vars, config.personality.GetOr(FreeEmpty)),
                            FieldValue(vars, config.instructions.GetOr(FreeEmpty)),
                            FieldValue(vars, config.context.GetOr(FreeEmpty)),
                            VStr(resolved));
      assert req == NodeRequest(config, vars, prompt.s);
      var reply := OllamaClient.Chat(host, model, req);
      match reply
      case Err(e) => step := Failed(e);
      case Ok(answer) =>
        ctx.vars := vars[VarName(config) := VStr(answer)];
        step := Next(connectedTo);
    }

    method ExecutePython(ctx: Context, host: Host) returns (step: Step)
      requires kind == Python
      modifies ctx, host
      ensures var e := PythonEffect(ShapeOf(), old(ctx.vars), host.oracle, old(host.calls));
        step == e.step && ctx.vars == e.vars && host.calls == e.calls && host.outbox == old(host.outbox) + e.sent
    {
      var values := GatherContextParams(ctx, host, config.params.GetOr([]));
      var outcome := host.Exec(config.code.GetOr(""), values);
      if outcome.Escaped? {
        return Failed(outcome.msg);
      }
      ctx.vars := ctx.vars[VarName(config) := ExecAnswer(outcome)];
      step := Next(connectedTo);
    }

    method ExecuteSmtp(ctx: Context, host: Host) returns (step: Step)
      requires kind == Smtp
      modifies host
      ensures var e := SmtpEffect(ShapeOf(), ctx.vars, old(host.calls));
        step == e.step && ctx.vars == e.vars && host.calls == e.calls && host.outbox == old(host.outbox) + e.sent
    {
      var port := ParseInt(config.smtpPort.GetOr("0"));
      if port.Some? {
        var subject := Resolve(config.subject.GetOr(""), FromContext(ctx.vars));
        var body := Resolve(config.body.GetOr(""), FromContext(ctx.vars));
        var to := config.to.GetOr("");
        host.Send(Mail(config.smtpServer.GetOr(""), port.value, config.user.GetOr(""), config.password.GetOr(""),
                       config.sender.GetOr(""), to, Split(to, ","), subject, body, config.isHtml.GetOr(false)));
      }
      step := Next(null);
    }

    // -------------------------------------------------------------------------
    // on_ok of the configuration dialogs

    /** `DefaultNode`'s `on_ok`: the stripped title, which also becomes the text unless empty. */
    method ConfirmDefault(titleEntry: string)
      requires kind == Default
      modifies this`title, this`text, this`config
      ensures title == Strip(titleEntry)
      ensures text == (if title != "" then title else old(text))
      ensures config == old(config)
    {
      title := Strip(titleEntry);
      text := if title != "" then title else text;
    }

    /** `InicioNode`'s `on_ok`: the text is the stripped title, even when empty. */
    method ConfirmInicio(titleEntry: string)
      requires kind == Inicio
      modifies this`title, this`text, this`config
      ensures title == Strip(titleEntry) && text == title
      ensures config == old(config)
    {
      title := Strip(titleEntry);
      text := title;
    }

    /** `AccionNode`'s `on_ok`: "imprimir" keeps the message as `print_text` and as text; any
        other mode keeps the question and the variable, and the text is "? " and the variable. */
    method ConfirmAccion(titleEntry: string, modeEntry: string, messageEntry: string,
                         questionEntry: string, variableEntry: string)
      requires kind == Accion
      modifies this`title, this`text, this`config
      ensures title == Strip(titleEntry)
      ensures Strip(modeEntry) == "imprimir" ==>
                config == old(config).(actionType := Some("imprimir"), printText := Some(Strip(messageEntry))) &&
                text == Strip(messageEntry)
      ensures Strip(modeEntry) != "imprimir" ==>
                config == old(config).(actionType := Some(Strip(modeEntry)), question := Some(Strip(questionEntry)),
                                       variableName := Some(Strip(variableEntry))) &&
                text == "? " + Strip(variableEntry)
    {
      title := Strip(titleEntry);
      var act := Strip(modeEntry);
      config := config.(actionType := Some(act));
      if act == "imprimir" {
        var message := Strip(messageEntry);
        config := config.(printText := Some(message));
        text := message;
      } else {
        var varName := Strip(variableEntry);
        config := config.(question := Some(Strip(questionEntry)), variableName := Some(varName));
        text := "? " + varName;
      }
    }

    /** `CondicionalNode`'s `on_ok`: the title is taken first; then an incomplete row keeps the
        dialog open with clauses, operator and text unchanged, and otherwise the clauses, the
        stripped operator and the text "Condicional" are stored. */
    method ConfirmCondicional(titleEntry: string, rows: seq<Clause>, operatorEntry: string)
      returns (accepted: bool)
      requires kind == Condicional
      modifies this`title, this`text, this`config
      ensures title == Strip(titleEntry)
      ensures accepted <==> ParseRows(rows).Some?
      ensures accepted ==>
                config == old(config).(conditions := ParseRows(rows), logicalOperator := Some(Strip(operatorEntry))) &&
                text == "Condicional"
      ensures !accepted ==> config == old(config) && text == old(text)
    {
      title := Strip(titleEntry);
      var clauses: seq<Clause> := [];
      var i := 0;
      while i < |rows|
        invariant 0 <= i <= |rows|
        invariant ParseRows(rows[..i]) == Some(clauses)
        invariant title == Strip(titleEntry) && config == old(config) && text == old(text)
      {
        var row := rows[i];
        if !Complete(row) {
          ParseRowsMeaning(rows);
          return false;
        }
        clauses := clauses + [Trimmed(row)];
        i := i + 1;
        assert rows[..i][..i - 1] == rows[..i - 1];
      }
      assert rows[..|rows|] == rows;
      config := config.(conditions := Some(clauses), logicalOperator := Some(Strip(operatorEntry)));
      text := "Condicional";
      accepted := true;
    }

    /** `MultiplesNode`'s `on_ok`: the responses are the non-empty stripped comma-separated
        items; the text is "? " and the variable, or "Múltiples" with no variable. */
    method ConfirmMultiples(titleEntry: string, questionEntry: string, responsesEntry: string, variableEntry: string)
      requires kind == Multiples
      modifies this`title, this`text, this`config
      ensures title == Strip(titleEntry)
      ensures config == old(config).(question := Some(Strip(questionEntry)),
                                     responses := Some(SplitStripNonEmpty(responsesEntry, ",")),
                                     variableName := Some(Strip(variableEntry)))
      ensures text == if Strip(variableEntry) != "" then "? " + Strip(variableEntry) else "Múltiples"
    {
      title := Strip(titleEntry);
      var varName := Strip(variableEntry);
      config := config.(question := Some(Strip(questionEntry)),
                        responses := Some(SplitStripNonEmpty(responsesEntry, ",")),
                        variableName := Some(varName));
      text := if varName != "" then "? " + varName else "Múltiples";
    }

    /** `PythonNode`'s `on_ok`: code, parameters, variable and text are stored BEFORE the code
        is compiled, so code that does not compile (`compiles` false) still replaces the
        configuration; only the dialog stays open. */
    method ConfirmPython(titleEntry: string, codeEntry: string, paramsEntry: string, variableEntry: string,
                         compiles: bool)
      returns (closed: bool)
      requires kind == Python
      modifies this`title, this`text, this`config
      ensures title == Strip(titleEntry)
      ensures config == old(config).(code := Some(Strip(codeEntry)),
                                     params := Some(SplitStripNonEmpty(paramsEntry, ",")),
                                     variableName := Some(Strip(variableEntry)))
      ensures text == "Python: " + Strip(variableEntry)
      ensures closed == compiles
    {
      title := Strip(titleEntry);
      config := config.(code := Some(Strip(codeEntry)));
      config := config.(params := Some(SplitStripNonEmpty(paramsEntry, ",")));
      config := config.(variableName := Some(Strip(variableEntry)));
      text := "Python: " + Strip(variableEntry);
      closed := compiles;
    }

    /** `LLMNode`'s `on_ok`: each field's value is replaced by the stripped entry and keeps its
        kind; the text is "LLM: " and the variable. The dialog itself reads all five fields,
        so they are present. */
    method ConfirmLlm(titleEntry: string, modelEntry: string, personalityEntry: string,
                      instructionsEntry: string, contextEntry: string, promptEntry: string, variableEntry: string)
      requires kind == Llm
      requires config.model.Some? && config.personality.Some? && config.instructions.Some?
      requires config.context.Some? && config.prompt.Some?
      modifies this`title, this`text, this`config
      ensures title == Strip(titleEntry)
      ensures config == old(config).(
                model := Some(old(config).model.value.(value := Strip(modelEntry))),
                personality := Some(old(config).personality.value.(value := Strip(personalityEntry))),
                instructions := Some(old(config).instructions.value.(value := Strip(instructionsEntry))),
                context := Some(old(config).context.value.(value := Strip(contextEntry))),
                prompt := Some(old(config).prompt.value.(value := Strip(promptEntry))),
                variableName := Some(Strip(variableEntry)))
      ensures text == "LLM: " + Strip(variableEntry)
    {
      title := Strip(titleEntry);
      config := config.(
        model := Some(config.model.value.(value := Strip(modelEntry))),
        personality := Some(config.personality.value.(value := Strip(personalityEntry))),
        instructions := Some(config.instructions.value.(value := Strip(instructionsEntry))),
        context := Some(config.context.value.(value := Strip(contextEntry))),
        prompt := Some(config.prompt.value.(value := Strip(promptEntry))),
        variableName := Some(Strip(variableEntry)));
      text := "LLM: " + Strip(variableEntry);
    }

    /** `SmtpNode`'s `on_ok`: every entry stripped, `action_type` "smtp", and the text
        "SMTP: " and the subject. */
    method ConfirmSmtp(titleEntry: string, server: string, port: string, user: string, password: string,
                       sender: string, to: string, subject: string, body: string, isHtml: bool)
      requires kind == Smtp
      modifies this`title, this`text, this`config
      ensures title == Strip(titleEntry)
      ensures config == old(config).(smtpServer := Some(Strip(server)), smtpPort := Some(Strip(port)),
                                     user := Some(Strip(user)), password := Some(Strip(password)),
                                     sender := Some(Strip(sender)), to := Some(Strip(to)),
                                     subject := Some(Strip(subject)), body := Some(Strip(body)),
                                     isHtml := Some(isHtml), actionType := Some("smtp"))
      ensures text == "SMTP: " + Strip(subject)
    {
      title := Strip(titleEntry);
      config := config.(smtpServer := Some(Strip(server)), smtpPort := Some(Strip(port)),
                        user := Some(Strip(user)), password := Some(Strip(password)),
                        sender := Some(Strip(sender)), to := Some(Strip(to)),
                        subject := Some(Strip(subject)), body := Some(Strip(body)),
                        isHtml := Some(isHtml), actionType := Some("smtp"));
      text := "SMTP: " + config.subject.value;
    }
  }

  /** The parameter loop of `PythonNode.execute`: each parameter is the context value or, when
      that is missing or `None`, asked for, in order. */
  method GatherContextParams(ctx: Context, host: Host, params: seq<string>) returns (values: map<string, Value>)
    modifies host
    ensures (values, host.calls) == ContextParams(ctx.vars, params, host.oracle, old(host.calls))
    ensures host.outbox == old(host.outbox)
  {
    values := map[];
    var i := 0;
    while i < |params|
      invariant 0 <= i <= |params|
      invariant (values, host.calls) == ContextParams(ctx.vars, params[..i], host.oracle, old(host.calls))
      invariant host.outbox == old(host.outbox)
    {
      var p := params[i];
      var v := Lookup(ctx.vars, p);
      if v == VNone {
        var answer := host.Ask(ParamPrompt(p));
        v := FromAnswer(answer);
      }
      values := values[p := v];
      i := i + 1;
      assert params[..i][..i - 1] == params[..i - 1];
    }
    assert params[..|params|] == params;
  }

  // ---------------------------------------------------------------------------
  // properties of execute

  /** `execute` writes at most the node's own variable: every other context entry is kept and
      no other key appears. */
  lemma ExecuteWritesOnlyItsVariable(sh: Shape, vars: map<string, Value>, o: Oracle, calls: nat)
    ensures var e := Executed(sh, vars, o, calls);
      && e.vars.Keys <= vars.Keys + {VarName(sh.config)}
      && forall k :: k in vars && k != VarName(sh.config) ==> k in e.vars && e.vars[k] == vars[k]
  {
  }

  /** Start, generic, conditional and mail nodes and print actions leave the context as it is. */
  lemma ReadOnlyVariants(sh: Shape, vars: map<string, Value>, o: Oracle, calls: nat)
    requires sh.kind in {Inicio, Default, Condicional, Smtp} ||
             (sh.kind == Accion && sh.config.actionType.GetOr("imprimir") == "imprimir")
    ensures Executed(sh, vars, o, calls).vars == vars
    ensures Executed(sh, vars, o, calls).calls == calls
  {
  }

  /** Every variant but the conditional and the mail node continues with `connected_to`
      whenever it does not raise; the mail node always returns `None`; only conditional, LLM
      and python nodes can raise. */
  lemma SuccessorIsConnectedTo(sh: Shape, vars: map<string, Value>, o: Oracle, calls: nat)
    ensures sh.kind != Condicional && sh.kind != Smtp && Executed(sh, vars, o, calls).step.Next? ==>
              Executed(sh, vars, o, calls).step.node == sh.connectedTo
    ensures sh.kind == Smtp ==> Executed(sh, vars, o, calls).step == Next(null)
    ensures sh.kind !in {Condicional, Llm, Python} ==> Executed(sh, vars, o, calls).step.Next?
  {
  }

  /** An asking action writes the answer under its variable, "respuesta" when none is set. */
  lemma AskingActionWritesAnswer(sh: Shape, vars: map<string, Value>, o: Oracle, calls: nat)
    requires sh.kind == Accion && sh.config.actionType.GetOr("imprimir") != "imprimir"
    ensures var e := Executed(sh, vars, o, calls);
      && e.step == Next(sh.connectedTo)
      && e.vars == vars[VarName(sh.config) := FromAnswer(o.ask(calls, sh.config.question.GetOr("Ingrese respuesta:")))]
      && e.calls == calls + 1
  {
  }

  /** A conditional never changes the context and goes to its true exit exactly when the fold
      (default operator "AND") gives `True`; an exit that was never assigned raises. */
  lemma ConditionalChoosesExit(sh: Shape, vars: map<string, Value>, o: Oracle, calls: nat)
    requires sh.kind == Condicional
    ensures var e := Executed(sh, vars, o, calls);
      && e.vars == vars && e.calls == calls && e.sent == []
      && (ConditionHolds(sh.config, vars) && sh.trueConnection.Some? ==> e.step == Next(sh.trueConnection.value))
      && (!ConditionHolds(sh.config, vars) && sh.falseConnection.Some? ==> e.step == Next(sh.falseConnection.value))
      && (e.step.Failed? <==> (if ConditionHolds(sh.config, vars) then sh.trueConnection.None? else sh.falseConnection.None?))
  {
  }

  /** With no logical operator configured, a conditional requires ALL clauses. */
  lemma {:induction false} ConditionalDefaultIsAnd(c: Config, vars: map<string, Value>)
    requires c.logicalOperator.None? && c.conditions.Some? && |c.conditions.value| > 0
    ensures ConditionHolds(c, vars) <==> All(Results(c.conditions.value, ReadContext(vars)))
  {
    assert Upper("AND") == "AND";
    FoldAndIsConjunction(Results(c.conditions.value, ReadContext(vars)));
  }

  /** A freshly created conditional raises when executed with no clause: the false exit is
      read, and no class of models/ ever assigns it. */
  lemma FreshConditionalRaises(vars: map<string, Value>, o: Oracle, calls: nat)
    ensures var d := DefaultsOf(Condicional, "condicional");
      Executed(Shape(Condicional, d.config, null, None, None), vars, o, calls).step ==
        Failed(MissingAttribute("false_connection"))
  {
    var d := DefaultsOf(Condicional, "condicional");
    assert Results([], ReadContext(vars)) == [];
    assert !ConditionHolds(d.config, vars);
  }

  /** A parameter whose context value is set is never asked for: it takes that value. */
  lemma {:induction false} SetParamsAreNotAsked(vars: map<string, Value>, params: seq<string>, o: Oracle, calls: nat, p: string)
    requires p in params && Lookup(vars, p) != VNone
    ensures ContextParams(vars, params, o, calls).0[p] == vars[p]
    decreases |params|
  {
    var init := params[..|params| - 1];
    if params[|params| - 1] != p {
      assert params == init + [params[|params| - 1]];
      assert p in init;
      SetParamsAreNotAsked(vars, init, o, calls, p);
    }
  }

  /** With every parameter set in the context, no question is asked at all. */
  lemma {:induction false} SetParamsAskNothing(vars: map<string, Value>, params: seq<string>, o: Oracle, calls: nat)
    requires forall i :: 0 <= i < |params| ==> Lookup(vars, params[i]) != VNone
    ensures ContextParams(vars, params, o, calls).1 == calls
    decreases |params|
  {
    if |params| > 0 {
      SetParamsAskNothing(vars, params[..|params| - 1], o, calls);
    }
  }

  /** A python node raises only when the code raises an exception outside `Exception`, and
      then writes nothing; every other outcome, a missing `func` included, is written under its
      variable. */
  lemma PythonRaisesOnlyOnEscape(sh: Shape, vars: map<string, Value>, o: Oracle, calls: nat)
    requires sh.kind == Python
    ensures var (values, calls') := ContextParams(vars, sh.config.params.GetOr([]), o, calls);
      var outcome := o.exec(calls', sh.config.code.GetOr(""), values);
      var e := Executed(sh, vars, o, calls);
      && (e.step.Failed? <==> outcome.Escaped?)
      && (outcome.Escaped? ==> e.step == Failed(outcome.msg) && e.vars == vars)
      && (!outcome.Escaped? ==> e.step == Next(sh.connectedTo) &&
                                e.vars == vars[VarName(sh.config) := ExecAnswer(outcome)])
      && (outcome.NoFunc? ==> e.vars[VarName(sh.config)] == VStr("Error: No se definió la función 'func'"))
  {
  }

  /** An LLM node raises when the chat fails (nothing is written) and when its prompt is not a
      string. */
  lemma LlmFailuresRaise(sh: Shape, vars: map<string, Value>, o: Oracle, calls: nat)
    requires sh.kind == Llm
    ensures var prompt := FieldValue(vars, sh.config.prompt.GetOr(FreeEmpty));
      var e := Executed(sh, vars, o, calls);
      && (!prompt.VStr? ==> e.step == Failed(NotText) && e.calls == calls)
      && (prompt.VStr? ==>
            var reply := o.chat(calls, FieldValue(vars, sh.config.model.GetOr(FreeEmpty)),
                                ChatMessages(NodeRequest(sh.config, vars, prompt.s)));
            (reply.Err? ==> e.step == Failed(reply.error) && e.vars == vars) &&
            (reply.Ok? ==> e.step == Next(sh.connectedTo) && e.vars == vars[VarName(sh.config) := VStr(reply.value)]))
  {
  }

  /** A mail node ends the walk, never writes the context, and hands over one mail exactly
      when the port is an integer; the recipients are the "to" field split on commas and only
      subject and body are resolved. */
  lemma SmtpEndsTheWalk(sh: Shape, vars: map<string, Value>, o: Oracle, calls: nat)
    requires sh.kind == Smtp
    ensures var e := Executed(sh, vars, o, calls);
      && e.step == Next(null) && e.vars == vars && e.calls == calls
      && (|e.sent| == 1 <==> ParseInt(sh.config.smtpPort.GetOr("0")).Some?)
      && |e.sent| <= 1
      && (|e.sent| == 1 ==>
            var m := e.sent[0];
            && m.recipients == Split(sh.config.to.GetOr(""), ",")
            && m.to == sh.config.to.GetOr("") && m.server == sh.config.smtpServer.GetOr("")
            && m.subject == Resolved(sh.config.subject.GetOr(""), FromContext(vars))
            && m.body == Resolved(sh.config.body.GetOr(""), FromContext(vars)))
  {
  }

  // ---------------------------------------------------------------------------
  // properties of on_ok

  /** A filled entry stays filled, and unchanged, when stripped a second time. */
  lemma RestripFilled(s: string)
    requires Filled(s)
    ensures Filled(Strip(s)) && Strip(Strip(s)) == Strip(s)
  {
    FilledIff(s);
    StripStripped(Strip(s));
    FilledIff(Strip(s));
  }

  /** Confirming a conditional dialog pre-filled with stored clauses stores them again. */
  lemma ReconfirmKeepsClauses(rows: seq<Clause>)
    requires ParseRows(rows).Some?
    ensures ParseRows(ParseRows(rows).value) == ParseRows(rows)
  {
    var cs := ParseRows(rows).value;
    ParseRowsMeaning(rows);
    forall i | 0 <= i < |cs| ensures Complete(cs[i]) && Trimmed(cs[i]) == cs[i] {
      assert cs[i] == Trimmed(rows[i]) && Complete(rows[i]);
      RestripFilled(rows[i].variable);
      RestripFilled(rows[i].operator);
      RestripFilled(rows[i].value);
    }
    ParseRowsMeaning(cs);
    assert ParseRows(cs).value == cs;
  }

  /** Confirming the multiple-choice dialog with its responses pre-filled, joined by commas, gives
      back the responses, when they are non-empty, stripped and comma-free (what `on_ok`
      stores always is, unless an item holds a comma). */
  lemma ResponsesRoundTrip(responses: seq<string>)
    requires forall k :: 0 <= k < |responses| ==> responses[k] != "" && IsStripped(responses[k])
    requires forall k :: 0 <= k < |responses| ==> NoOccurrence(responses[k], ",")
    ensures SplitStripNonEmpty(Join(responses, ","), ",") == responses
  {
    assert "," + "" == ",";
    ListRoundTrip(responses, "");
  }

  /** Confirming the python dialog with its parameters pre-filled, joined by ", ", gives back the
      parameters under the same conditions. */
  lemma ParamsRoundTrip(params: seq<string>)
    requires forall k :: 0 <= k < |params| ==> params[k] != "" && IsStripped(params[k])
    requires forall k :: 0 <= k < |params| ==> NoOccurrence(params[k], ",")
    ensures SplitStripNonEmpty(Join(params, ", "), ",") == params
  {
    assert AllSpace(" ");
    assert "," + " " == ", ";
    ListRoundTrip(params, " ");
  }
}
