# Flow editor execution engine, in Dafny

This project models the flow execution engine of a visual flow editor written in Python with
Tkinter. A flow is a graph of typed nodes:

- "inicio" is the start node;
- "accion" prints a message or asks a question;
- "condicional" folds a list of clauses;
- "multiples" asks a multiple-choice question;
- "llm" calls an Ollama chat model;
- "python" runs user code;
- "smtp" sends mail;
- any other tag is a generic node.

The engine appears twice in the source, and both copies are modelled as written.

1. **The controller's engine** (`DiagramController.handle_execute_flow`). It finds the first
   "inicio" node in dictionary order. It then walks `connected_to`, or `true_connection` /
   `false_connection` for a conditional, until the successor is `None`. Answers go into a
   `memory` dict and, for declared variables, into the `VariableManager`.
   - Modules `Engine` (a specification by functions), `FlowRun` (the loop body as methods) and
     `Controller` (class `DiagramController`).
   - The controller also keeps the graph-editing rules the walk relies on:
     - only one start node may be added;
     - the start node cannot be deleted;
     - no self-connections;
     - no second target on an occupied exit;
     - a save/load conversion between node objects and records that name edges by id.
2. **The node classes** of `models/`. Each `execute(context)` changes a context dict and
   returns the next node. `NodeFactory` picks the class from a type tag, and each
   configuration dialog's `on_ok` rewrites the node's title, text and config.
   - Modules `Nodes` (class `Node`, class `Context`), `NodeFactory` and `OllamaClient`.

The two copies differ, and each model keeps its own behaviour:

| rule | controller (`Templates.Declared`, `Engine`) | node classes (`Templates.FromContext`, `Nodes`) |
|---|---|---|
| marker `${name}` for a missing name | left in place | replaced by `""` |
| logical operator when none is configured | `""`, so the last clause wins | `"AND"` |
| failing chat call | its message is written as the answer | the exception escapes |

**Shared modules**

- `Dicts`: an insertion-ordered Python dict.
- `VariableStore`: class `VariableManager`.
- `Values`: `str()`, `int()`, and `float()` on decimal literals with an optional exponent.
- `Text`: `strip`, `split`, `join`, `replace`, `upper`, `capitalize`, and `re.findall` of
  `\$\{([^}]+)\}`.
- `Templates`: `${name}` substitution.
- `Conditions`: one clause and the left fold over the clauses.
- `FlowNodes`: the controller's `FlowNode` record.
- `Graphs`: the invariants of the node graph.
- `Saving`: save/load records.
- `Hosts`: class `Host`.

**Host effects**

Every effect outside the program is a call on a `Host` object:

- the prompt dialogs (`simpledialog.askstring` and the radio-button dialog);
- the Ollama chat call;
- `exec` of user code.

The `Host` answers from a fixed oracle indexed by a call counter, so a run is a function of the
oracle. Mail handed to `smtplib` is appended to the host's outbox.

**The controller runs its own copy**

The controller's loop (controllers/diagram_controller.py:1003-1160) never calls a node class's
`execute`: it repeats each node's behaviour inline, and `Engine` models that copy. So the
policy for a missing template name differs between the two: the controller keeps the marker
(controllers/diagram_controller.py:1017-1021), while `LlmNode` and `SmtpNode` substitute `""`
(models/llm_node.py:95-97, models/smtp_node.py:99-102).

## Model

| member | source | states |
|---|---|---|
| `VariableStore.VariableManager.constructor` | models/variable_manager.py:12-13 | A new manager holds no variables. |
| `VariableStore.VariableManager.AddVariable` | models/variable_manager.py:15-20 | An existing name gives the error "La variable ya existe" and leaves the store unchanged. A new name gets `Variable(name, type, value)` at the end of the dict. |
| `VariableStore.VariableManager.UpdateVariable` | models/variable_manager.py:22-24 | The store becomes `Updated(old, name, value)`; see the two lemmas below. |
| `VariableStore.Updated` | models/variable_manager.py:22-24 | `update_variable(name, value)` as a value: a declared name gets its value replaced in place; any other name leaves the store as it is. The store stays well formed. |
| `VariableStore.UpdateChangesOnlyValue` | models/variable_manager.py:22-24 | For a declared name, only that variable's value changes. Names, order, its type and every other variable stay the same. |
| `VariableStore.UpdateUndeclaredIsNoop` | models/variable_manager.py:22-24 | For an undeclared name, nothing changes and no variable is created. |
| `VariableStore.VariableManager.GetVariable` | models/variable_manager.py:26-27 | `Some` exactly for a declared name, holding the stored variable; `None` otherwise. |
| `VariableStore.AddThenGet` | models/variable_manager.py:15-27 | After adding `(n, t, v)`, getting `n` returns that variable, and every other name reads as before. |
| `VariableStore.VariableManager.GetAllVariables` | models/variable_manager.py:29-30 | One variable per stored name, in insertion order. |
| `VariableStore.VariableManager.LoadVariables` | models/variable_manager.py:32-35 | The store is replaced by `Loaded(data)`, which the loop builds record by record. |
| `VariableStore.Loaded` | models/variable_manager.py:32-35 | The store `load_variables(data)` builds, record by record in order: each record is put under its name, a later record replacing an earlier one, a missing value read as `None`. The store is well formed. |
| `VariableStore.LoadedNames` | models/variable_manager.py:32-35 | A name is loaded if and only if some record carries it. |
| `VariableStore.LoadedLastWins` | models/variable_manager.py:32-35 | The last record with a name decides that variable's type and value. |
| `VariableStore.LoadedMissingValue` | models/variable_manager.py:35 | A record without a value loads as `None`. |
| `Dicts.Dict.Get` | models/variable_manager.py:27 | `dict.get`: `Some` exactly for a present key, holding its value. |
| `Dicts.Dict.Put` | models/variable_manager.py:19 | `d[k] = v`: the mapping is updated. A present key keeps its place and a new key goes last. |
| `Dicts.Dict.Values` | models/variable_manager.py:30 | `list(d.values())`: the values in key order. |
| `Dicts.Dict.Remove` | controllers/diagram_controller.py:752 | `del self.nodes[node.id]`: the key leaves the mapping and every other key keeps its value. The new key list is only bounded (see Left out). |
| `Conditions.EvaluateClauses` | controllers/diagram_controller.py:1032-1064 | The loop's accumulator is `Fold(upper(op), results)`: `None` before the first clause, then the fold of the clause results. |
| `Conditions.Compare` | controllers/diagram_controller.py:1044-1053 | `float(var_val) > float(value)` (or `<`) inside a bare `try`: both sides converted, and a failed conversion gives false. |
| `Conditions.EvalClause` | controllers/diagram_controller.py:1039-1053 | One clause's result: `==` and `!=` compare `str(var_val)` with the text, `>` and `<` go through `Compare`, any other operator is false. |
| `Conditions.Combine` | controllers/diagram_controller.py:1057-1064 | How a further clause result joins the accumulator: `and` under "AND", `or` under "OR", and otherwise the new result replaces it. |
| `Conditions.TakesTrue` | controllers/diagram_controller.py:1066-1073 | `if result:` on the folded value: true only for `True`, so `None` takes the false exit. |
| `Conditions.Fold` | controllers/diagram_controller.py:1055-1064 | The fold is `None` exactly when there is no clause. |
| `Conditions.FoldAndIsConjunction` | models/condicional_node.py:111-116 | With "AND" the result is the conjunction of all clause results. |
| `Conditions.FoldOrIsDisjunction` | models/condicional_node.py:111-118 | With "OR" the result is the disjunction of all clause results. |
| `Conditions.FoldOtherIsLast` | controllers/diagram_controller.py:1062-1064 | With any other operator, `""` included, the last clause's result is the result. |
| `Conditions.EmptyClausesTakeFalse` | controllers/diagram_controller.py:1066-1073 | An empty clause list gives no result, so the false exit is taken. |
| `Conditions.OperatorCaseInsensitive` | controllers/diagram_controller.py:1058-1061 | For any operator, after `upper()`: when its lower case is "and" the fold is the conjunction of the clause results, when it is "or" the disjunction, and otherwise the last clause's result. |
| `Conditions.Results` | controllers/diagram_controller.py:1033-1053 | One result per clause, each evaluated on the value read for its variable. |
| `Conditions.NotEqualIsNegation` | controllers/diagram_controller.py:1040-1043 | `!=` is exactly the negation of `==` on `str(value)`. |
| `Conditions.NoneComparesAsText` | controllers/diagram_controller.py:1038-1041 | An undeclared variable reads as `None`, which equals the literal only when the literal is "None". |
| `Conditions.ComparisonsNeverRaise` | controllers/diagram_controller.py:1044-1053 | If either side fails `float()`, both `>` and `<` are false, and the two are never true together. |
| `Conditions.ComparisonOfNumbers` | controllers/diagram_controller.py:1044-1053 | On an integer variable and a parsable literal, `>` and `<` are numeric comparisons. |
| `Conditions.UnknownOperatorIsFalse` | models/condicional_node.py:96-110 | An operator other than `==`, `!=`, `>` and `<` makes the clause false. |
| `Values.FromAnswer` | controllers/diagram_controller.py:1023-1026 | A cancelled dialog (`None`) is stored as `None`, and text is stored as text. |
| `Values.Truthy` | models/ollama_client.py:17 | Python truthiness, as in `if message["context"]:`: `None`, `""`, `0` and `False` are false, everything else true. |
| `Values.Str` | controllers/diagram_controller.py:1041 | `str()` keeps a string and prints `None` as "None". |
| `Values.IntToString` | controllers/diagram_controller.py:714 | An integer prints as its digits, with a leading '-' when negative. |
| `Values.NatToString` | controllers/diagram_controller.py:714 | `str(n)` for a natural number: a non-empty run of decimal digits, most significant first. |
| `Values.ParseIntOfIntToString` | models/smtp_node.py:106 | `int()` reads back every printed integer. |
| `Values.ParseInt` | models/smtp_node.py:106 | `int(s)` on a string: surrounding whitespace, an optional sign, then decimal digits; `None` stands for the `ValueError`. |
| `Values.DigitsValueOfNatToString` | controllers/diagram_controller.py:714 | The printed digits of `n` have the value `n`. |
| `Values.ParseFloatOfIntToString` | controllers/diagram_controller.py:1046 | `float()` of a printed integer is that integer. |
| `Values.ParseFloat` | controllers/diagram_controller.py:1046 | `float(s)` on a string, for decimal literals with whitespace, a sign, a fraction and an exponent; `None` stands for the `ValueError` (the scope is admitted under Left out). |
| `Values.FloatOfPrintedInt` | controllers/diagram_controller.py:1038-1046 | Comparing `str(i)` numerically is the same as comparing `i`. |
| `Values.FloatOf` | controllers/diagram_controller.py:1046 | `float(None)` fails, and `float(i)` is `i` for an integer. |
| `Values.NoDigitIsNotFloat` | controllers/diagram_controller.py:1045-1048 | Among the decimal literals the model parses, text without a digit fails `float()`. |
| `Text.Strip` | models/inicio_node.py:24 | `str.strip()` over ASCII whitespace: never longer than its input, and starts and ends with a non-space. |
| `Text.StripIsSlice` | models/inicio_node.py:24 | `str.strip()` is a contiguous slice of its input. |
| `Text.FilledIff` | models/condicional_node.py:68-72 | A stripped entry is non-empty exactly when the entry holds a non-space character. |
| `Text.Upper` | models/condicional_node.py:89 | `str.upper()` on ASCII: each character is mapped on its own, `a`-`z` to `A`-`Z`, and the length is kept. |
| `Text.Lower` | models/node_factory.py:29 | The lower-case half of `str.capitalize()`: same length, each character lowered (ASCII only, as `Text.Upper`). |
| `Text.Capitalize` | models/node_factory.py:29 | `str.capitalize()` on ASCII: first character upper case, the rest lower case, same length. |
| `Text.IndexOf` | controllers/diagram_controller.py:681 | The first occurrence of the separator, or proof that there is none. |
| `Text.Split` | models/multiples_node.py:47 | `s.split(sep)` for a non-empty separator: the pieces between successive leftmost occurrences, at least one piece. |
| `Text.Join` | models/python_node.py:37 | `sep.join(parts)`: the parts with the separator between each two. |
| `Text.Replace` | models/llm_node.py:97 | `s.replace(pat, rep)` for a non-empty pattern: the split pieces joined with the replacement. |
| `Text.JoinSplit` | models/multiples_node.py:47 | Joining the pieces of `s.split(sep)` with `sep` gives back `s`. |
| `Text.SplitPiecesAreFree` | models/multiples_node.py:47 | No piece of `s.split(sep)` contains `sep`. |
| `Text.ReplaceByPieces` | models/llm_node.py:97 | `str.replace` replaces every occurrence: it joins the pieces between occurrences with the replacement. |
| `Text.ReplaceAbsent` | models/llm_node.py:97 | Replacing a pattern that does not occur changes nothing. |
| `Text.SplitStripNonEmpty` | models/multiples_node.py:47 | The parsed response list holds only non-empty, stripped items. |
| `Text.ListRoundTrip` | models/multiples_node.py:36-47 | Parsing the dialog's pre-filled text `",".join(items)` (or `", ".join`) gives back the stored list. |
| `Text.EmptyListRoundTrip` | models/python_node.py:37-48 | An empty entry parses to the empty list. |
| `Text.Marker` | models/llm_node.py:97 | The marker of `name` is `"${" + name + "}"`. |
| `Text.FindMarkers` | models/llm_node.py:95 | Every name `re.findall` returns is non-empty and has no `}`. |
| `Text.NoMarkersWithoutOpening` | models/llm_node.py:95 | Text without `${` has no markers. |
| `Text.SingleMarkerFound` | models/llm_node.py:95 | Text with one marker yields exactly its name. |
| `Text.ReplaceSingleMarker` | models/llm_node.py:97 | Replacing the one marker puts the replacement in its place. |
| `Templates.Resolve` | models/smtp_node.py:97-103 | The substitution loop computes `Resolved(text, lookup)`: the names are found first, then replaced one by one. |
| `Templates.Substitute` | controllers/diagram_controller.py:1018-1021 | The `for var in posible_variables` loop: name by name, in order, every marker of a name the lookup resolves is replaced; an unresolved name leaves the text alone. |
| `Templates.Resolved` | controllers/diagram_controller.py:1017-1021 | The whole substitution: the names `re.findall` finds in the original text, substituted in that order. |
| `Templates.Declared` | controllers/diagram_controller.py:1019-1021 | The controller's lookup: a declared variable gives `str(value)`, an undeclared name gives nothing, so its marker stays. |
| `Templates.FromContext` | models/llm_node.py:97 | The node classes' lookup: `str(context.get(var, ""))`, so a missing name becomes empty. |
| `Templates.UnresolvedNamesChangeNothing` | controllers/diagram_controller.py:1018-1021 | Names the lookup does not resolve leave the text unchanged. |
| `Templates.TextWithoutMarkersUnchanged` | controllers/diagram_controller.py:1017-1021 | Text without `${` is unchanged. |
| `Templates.SingleMarker` | controllers/diagram_controller.py:1017-1021 | A single marker is replaced by the lookup's text, or kept when the lookup has none. |
| `Templates.DeclaredMarkerReplaced` | controllers/diagram_controller.py:1019-1021 | For the controller, in text with one marker and any replacement, a declared variable's marker becomes `str(value)`. |
| `Templates.UndeclaredMarkerKept` | controllers/diagram_controller.py:1019-1021 | For the controller, in text with one marker, an undeclared name's marker stays verbatim. |
| `Templates.MissingContextMarkerEmptied` | models/llm_node.py:95-97 | For the node classes, in text with one marker, the marker of a missing name becomes `""`. |
| `Templates.ContextMarkerReplaced` | models/smtp_node.py:99-102 | For the node classes, in text with one marker and any replacement, a present name's marker becomes `str(context[name])`. |
| `Templates.EveryMarkerResolved` | models/smtp_node.py:97-103 | For a template `t0 ${n1} t1 … ${nk} tk` with any number of markers, in any order and repeated: the scan finds `n1 … nk` in order, and the result is the template with each marker replaced by the lookup's text, or kept when the lookup has none. |
| `Templates.DeclaredMarkersResolved` | controllers/diagram_controller.py:1017-1021 | For the controller, on any such template, every marker of a declared variable becomes `str(value)` and every marker of an undeclared name stays verbatim. |
| `Templates.ContextMarkersResolved` | models/llm_node.py:95-97 | For the node classes, on any such template, every marker of a present name becomes `str(context[name])` and every marker of a missing name becomes `""`. |
| `Configs.VarName` | models/accion_node.py:78 | The output variable is `variable_name`, or "respuesta" when it is absent. |
| `Hosts.ExecAnswer` | controllers/diagram_controller.py:1143-1152 | A code run with no `func` gives "Error: No se definió la función 'func'", an exception gives "Error al ejecutar código: " plus its message, and otherwise the value `func` returned. An exception outside `Exception`, such as `SystemExit`, gives no answer: it escapes. |
| `Hosts.Host.constructor` | controllers/diagram_controller.py:999 | A host starts with no call made and nothing sent. |
| `Hosts.Host.Ask` | controllers/diagram_controller.py:1023 | `askstring` answers from the oracle, and the call counts once. |
| `Hosts.Host.Choose` | controllers/diagram_controller.py:1174-1195 | The multiple-choice dialog answers from the oracle, and the call counts once. |
| `Hosts.Host.Chat` | models/ollama_client.py:20-21 | The chat reply comes from the oracle, and the call counts once. |
| `Hosts.Host.Exec` | models/python_node.py:76-83 | Running user code gives the oracle's outcome, and the call counts once. |
| `Hosts.Host.Send` | models/smtp_node.py:119-126 | The mail is appended to the outbox. |
| `OllamaClient.ChatMessages` | models/ollama_client.py:12-19 | Messages: system(personality), system(instructions), system(context) only when context is truthy, then user(prompt); 4 or 3 messages. |
| `OllamaClient.SystemMessagesInOrder` | models/ollama_client.py:13-18 | Everything before the last message is exactly the two or three system messages, in order. |
| `OllamaClient.BuildMessages` | models/ollama_client.py:13-19 | The conditional `append` calls build `ChatMessages(req)`. |
| `OllamaClient.Chat` | models/ollama_client.py:12-21 | `chat` sends `ChatMessages(req)` to the model and returns the reply. |
| `FlowNodes.NewFlowNode` | models/flow_node.py:5-17 | A new node has the given fields, an empty config and no connection of any kind. |
| `FlowNodes.InputPoint` | models/flow_node.py:19-22 | `input_point` is `(x, y + 25)`. |
| `FlowNodes.OutputPoint` | models/flow_node.py:24-27 | `output_point` is `input_point` moved 100 to the right. |
| `NodeFactory.KindOf` | models/node_factory.py:13-29 | The generic class is chosen exactly for a tag outside the seven known tags. |
| `NodeFactory.CreateNode` | models/node_factory.py:13-29 | A fresh node of `KindOf(tag)` with that class's defaults and no connections. |
| `NodeFactory.CreatedTypeIsTag` | models/node_factory.py:13-29 | For every tag, the created node's `node_type` is the tag. |
| `NodeFactory.KnownTagsAreDistinct` | models/node_factory.py:14-27 | Distinct known tags give distinct classes. |
| `NodeFactory.UnknownTagIsDefault` | models/node_factory.py:28-29 | An unknown tag gives the generic class, with text `capitalize(tag) + " Node"`, an empty title and an empty config. |
| `Nodes.Context.constructor` | models/nodes.py:20-26 | A context holds the given variables. |
| `Nodes.Node.constructor` | models/nodes.py:8-17 | A new node has its class's type, text, title and config, and no connection. |
| `Nodes.Node.InputPoint` | models/nodes.py:36-38 | `input_point` is `(x, y + 25)`. |
| `Nodes.Node.OutputPoint` | models/nodes.py:40-42 | `output_point` is `input_point` moved 100 to the right. |
| `Nodes.Node.Execute` | models/nodes.py:20-26 | `execute` returns, writes and sends exactly what `Executed` gives for the node's class. |
| `Nodes.Executed` | models/nodes.py:52-54 | One `execute(context)` by class: start and generic nodes return `connected_to` and touch nothing; every other class goes to its own effect below. |
| `Nodes.AccionEffect` | models/accion_node.py:71-84 | "imprimir" only passes on to `connected_to`; any other action asks the question (default "Ingrese respuesta:") once and stores the answer under the variable. |
| `Nodes.CondicionalEffect` | models/condicional_node.py:87-125 | The true or false exit by the folded clauses, read from the context with "AND" as default; an exit never assigned raises `AttributeError`. The context is unchanged. |
| `Nodes.MultiplesEffect` | models/multiples_node.py:59-67 | One question listing the options, its answer stored under the variable, then `connected_to`. |
| `Nodes.LlmEffect` | models/llm_node.py:84-109 | A prompt that is not text raises; otherwise one chat call over the resolved fields, whose error propagates and whose reply is stored. |
| `Nodes.PythonEffect` | models/python_node.py:65-88 | The parameters gathered, the code run once, and its answer stored; an exception outside `Exception` propagates. |
| `Nodes.SmtpEffect` | models/smtp_node.py:95-129 | One mail sent when the port parses and none otherwise; either way the walk ends and the context is unchanged. |
| `Nodes.ConditionHolds` | models/condicional_node.py:88-120 | The conditional class's fold, with "AND" as the default operator and values read from the context. |
| `Nodes.OptionsPrompt` | models/multiples_node.py:60-64 | The question (default "Seleccione una opción:") followed by the options joined with ", ". |
| `Nodes.FieldValue` | models/llm_node.py:85-89 | The node class's `resolve_field`: a "variable" field reads the context (empty when missing); any other is its literal value. |
| `Nodes.NodeMail` | models/smtp_node.py:97-126 | The mail handed to `smtplib`: server, port, credentials, sender, the recipients split at ",", and subject and body with markers filled from the context. |
| `Nodes.Node.ExecuteAccion` | models/accion_node.py:71-84 | The action class's `execute` matches `AccionEffect`. |
| `Nodes.Node.ExecuteCondicional` | models/condicional_node.py:87-125 | The conditional's `execute` matches `CondicionalEffect` and does not touch the context. |
| `Nodes.Node.ExecuteMultiples` | models/multiples_node.py:59-67 | The multiple-choice class's `execute` matches `MultiplesEffect`. |
| `Nodes.Node.ExecuteLlm` | models/llm_node.py:84-109 | The LLM class's `execute` matches `LlmEffect`. |
| `Nodes.Node.ExecutePython` | models/python_node.py:65-88 | The python class's `execute` matches `PythonEffect`. |
| `Nodes.Node.ExecuteSmtp` | models/smtp_node.py:95-129 | The mail class's `execute` matches `SmtpEffect` and does not touch the context. |
| `Nodes.GatherContextParams` | models/python_node.py:69-75 | The parameter loop computes `ContextParams`. |
| `Nodes.ContextParams` | models/python_node.py:69-75 | The parameter map has exactly the listed parameters as keys, and at most one question is asked per parameter. |
| `Nodes.SetParamsAreNotAsked` | models/python_node.py:70-73 | A parameter with a non-`None` context value takes that value. |
| `Nodes.SetParamsAskNothing` | models/python_node.py:70-73 | When every parameter is set, no question is asked. |
| `Nodes.ExecuteWritesOnlyItsVariable` | models/accion_node.py:83 | A node writes at most its own variable; every other context key keeps its value. |
| `Nodes.ReadOnlyVariants` | models/nodes.py:52-54 | Start, generic, conditional, mail and print-action nodes leave the context as it is and ask nothing. |
| `Nodes.SuccessorIsConnectedTo` | models/inicio_node.py:34-36 | Every class other than conditional and mail returns `connected_to` when it does not raise, and only conditional, LLM and python nodes can raise. The mail node returns `None`. |
| `Nodes.AskingActionWritesAnswer` | models/accion_node.py:76-84 | A non-"imprimir" action asks its question (default "Ingrese respuesta:") and writes the answer under its variable. |
| `Nodes.ConditionalChoosesExit` | models/condicional_node.py:120-125 | A conditional goes to its true exit exactly when the fold is true, to its false exit otherwise, and raises when that exit was never assigned. |
| `Nodes.ConditionalDefaultIsAnd` | models/condicional_node.py:89 | With no operator configured, a conditional requires all its clauses. |
| `Nodes.FreshConditionalRaises` | models/condicional_node.py:6-9 | A new conditional has no clauses, so executing it reads the never-assigned `false_connection` and raises `AttributeError`. |
| `Nodes.PythonRaisesOnlyOnEscape` | models/python_node.py:76-88 | `execute` raises exactly when the code raises outside `Exception` (such as `SystemExit`), and then writes nothing. Every other outcome is written under the variable and `connected_to` is returned. A missing `func` writes the fixed error text. |
| `Nodes.LlmFailuresRaise` | models/llm_node.py:104-109 | A failing chat raises and writes nothing, and so does a non-text prompt. A reply is written under the variable. |
| `Nodes.SmtpEndsTheWalk` | models/smtp_node.py:95-129 | The mail node returns `None` and never writes the context. It sends one mail exactly when the port parses as an integer. The recipients are "to" split on ",", and only subject and body are resolved. |
| `Nodes.ParseRows` | models/condicional_node.py:67-75 | A parse that succeeds keeps one clause per row. |
| `Nodes.Complete` | models/condicional_node.py:67-71 | `if var_name and op and val:` on the stripped entries: all three are non-empty. |
| `Nodes.Trimmed` | models/condicional_node.py:67-70 | The clause stored for a row: each of its three entries stripped. |
| `Nodes.ParseRowsMeaning` | models/condicional_node.py:67-75 | The rows parse exactly when every row has a variable, an operator and a value that are non-blank. Each clause is then its row stripped. |
| `Nodes.ReconfirmKeepsClauses` | models/condicional_node.py:67-76 | Confirming stored clauses a second time changes nothing. |
| `Nodes.RestripFilled` | models/condicional_node.py:68-72 | A stripped non-blank entry is non-blank and stable under another strip. |
| `Nodes.ResponsesRoundTrip` | models/multiples_node.py:36-47 | The responses shown joined by "," parse back to the same list. |
| `Nodes.ParamsRoundTrip` | models/python_node.py:37-48 | The params shown joined by ", " parse back to the same list. |
| `Nodes.Node.ConfirmDefault` | models/nodes.py:69-72 | The title is stripped. The text becomes the title when it is non-empty and otherwise stays. |
| `Nodes.Node.ConfirmInicio` | models/inicio_node.py:23-26 | The title is stripped and the text equals it. |
| `Nodes.Node.ConfirmAccion` | models/accion_node.py:49-63 | "imprimir" stores the message as `print_text` and text. Any other mode stores question and variable, and the text "? var". |
| `Nodes.Node.ConfirmCondicional` | models/condicional_node.py:64-79 | An incomplete row keeps the dialog open and changes nothing but the title. Otherwise it stores the clauses, the stripped operator and the text "Condicional". |
| `Nodes.Node.ConfirmMultiples` | models/multiples_node.py:44-51 | It stores the question, the parsed responses and the variable. The text is "? var", or "Múltiples" with no variable. |
| `Nodes.Node.ConfirmPython` | models/python_node.py:45-57 | Code, params and variable are stored even when the code does not compile. The text is "Python: var", and the dialog closes only when the code compiles. |
| `Nodes.Node.ConfirmLlm` | models/llm_node.py:67-76 | Each field's value is replaced by the stripped entry and keeps its type. The text is "LLM: var". |
| `Nodes.Node.ConfirmSmtp` | models/smtp_node.py:74-87 | It stores every field stripped, `is_html`, and action type "smtp". The text is always "SMTP: subject". |
| `Engine.Write` | controllers/diagram_controller.py:1026-1027 | `memory[name] = v` plus `update_variable`: memory gains the key. Only a declared variable of that name changes, and only its value; nothing else changes. |
| `Engine.ResolveField` | controllers/diagram_controller.py:1085-1090 | A non-"variable" field is its literal value. A "variable" field naming a declared variable is that variable's value, and one naming an undeclared variable is `""`. |
| `Engine.ReadDeclared` | controllers/diagram_controller.py:1037-1038 | How the controller's conditional reads a variable: the declared variable's value, or `None` when it is not declared. |
| `Engine.ChatAnswer` | controllers/diagram_controller.py:1120-1124 | The LLM answer: the reply's text, or "Error en LLM: " plus the message of the exception. |
| `Engine.ParamValues` | controllers/diagram_controller.py:1134-1141 | The parameter map has exactly the listed parameters as keys, and at most one question is asked per parameter. |
| `Engine.DeclaredParamsAreNotAsked` | controllers/diagram_controller.py:1136-1138 | A declared parameter takes the variable's value. |
| `Engine.DeclaredParamsAskNothing` | controllers/diagram_controller.py:1135-1141 | When every parameter is declared, no question is asked. |
| `Engine.FirstStart` | controllers/diagram_controller.py:990-994 | The first "inicio" node in order: none comes before it, and `None` means there is none. |
| `Engine.Execute` | controllers/diagram_controller.py:989-1003 | `handle_execute_flow`: no "inicio" node means nothing happens; otherwise a walk with an empty memory from the first "inicio" in dictionary order. |
| `Engine.Step` | controllers/diagram_controller.py:1003-1160 | One iteration of the `while current_node` loop, by node type; a type without a branch moves to `connected_to` and changes nothing. |
| `Engine.AccionStep` | controllers/diagram_controller.py:1004-1027 | The action branch: "pregunta" asks the substituted question once and writes the answer; any other action changes nothing. Both move to `connected_to`. |
| `Engine.CondicionalStep` | controllers/diagram_controller.py:1029-1073 | The conditional branch: the fold of the clause results under the upper-cased operator picks the true or false exit, and nothing changes. |
| `Engine.MultiplesStep` | controllers/diagram_controller.py:1075-1082 | The multiple-choice branch: one choice dialog, its choice written under the variable, then `connected_to`. |
| `Engine.LlmPrompt` | controllers/diagram_controller.py:1102-1105 | The resolved prompt, asked for with "Ingrese su pregunta:" when it resolves to `""`, and the call count after it. |
| `Engine.LlmStep` | controllers/diagram_controller.py:1084-1128 | The LLM branch: a prompt that is not text crashes the run (`re.findall` raises); otherwise `LlmAnswer`. |
| `Engine.LlmAnswer` | controllers/diagram_controller.py:1107-1128 | The chat call over the resolved fields and the substituted prompt, with the reply or the error text written under the variable, then `connected_to`. |
| `Engine.PythonStep` | controllers/diagram_controller.py:1130-1156 | The python branch: the parameters gathered, one execution, a crash when the code escapes `Exception`, otherwise its answer written and `connected_to`. |
| `Engine.Run` | controllers/diagram_controller.py:1003-1160 | The `while current_node` loop: steps from the current node until the successor is `None`, a step crashes, or the fuel runs out. |
| `Engine.NoStartIffNoInicio` | controllers/diagram_controller.py:990-997 | The run returns before the loop exactly when no listed node has type "inicio". |
| `Engine.StepSuccessor` | controllers/diagram_controller.py:1066-1073 | Only LLM and python nodes can raise. A conditional moves to its true or false exit by the fold and changes nothing. Every other node moves to `connected_to`. |
| `Engine.StepStaysInside` | controllers/diagram_controller.py:1160 | The successor is one of the node's own edges. |
| `Engine.RunUnfolds` | controllers/diagram_controller.py:1003-1160 | A run from a node that moves on is the run from its successor. |
| `Engine.PassiveNodesChangeNothing` | controllers/diagram_controller.py:1006-1008 | Print actions, conditionals, start and other nodes change neither memory nor store. |
| `Engine.AnswerWritesOneName` | controllers/diagram_controller.py:1026-1027 | Ask, choice, LLM and python nodes write exactly their variable. Memory gains it, and only a declared variable of that name changes. |
| `Engine.ChatErrorIsWritten` | controllers/diagram_controller.py:1120-1128 | A failing chat writes "Error en LLM: " plus its message and the walk goes on. |
| `Engine.LlmCrashesOnlyOnNonText` | controllers/diagram_controller.py:1104-1108 | An LLM node raises exactly when its prompt is not text: a cancelled prompt dialog, or a "variable" prompt field naming a declared variable that holds a non-string. |
| `Engine.PythonCrashesOnlyOnEscape` | controllers/diagram_controller.py:1143-1152 | A python node raises exactly when the code raises outside `Exception`, and then changes nothing but the call count. Otherwise the answer is written and the walk moves to `connected_to`. |
| `Engine.StepKeepsDeclarations` | controllers/diagram_controller.py:1027 | A step never declares or removes a variable, nor changes a type. |
| `Engine.RunKeepsDeclarations` | controllers/diagram_controller.py:1003-1160 | A whole run keeps the declared names, their order and their types. |
| `FlowRun.RunAccion` | controllers/diagram_controller.py:1004-1027 | The action branch of the loop performs `AccionStep`. |
| `FlowRun.AskResolved` | controllers/diagram_controller.py:1017-1023 | The question is asked after substituting the declared variables. |
| `FlowRun.RunCondicional` | controllers/diagram_controller.py:1029-1073 | The conditional branch picks the successor `CondicionalStep` gives and changes nothing. |
| `FlowRun.RunMultiples` | controllers/diagram_controller.py:1075-1082 | The multiple-choice branch performs `MultiplesStep`. |
| `FlowRun.RunLlm` | controllers/diagram_controller.py:1084-1128 | The LLM branch performs `LlmStep`: it raises on a non-text prompt and otherwise moves on. |
| `FlowRun.AskPromptIfEmpty` | controllers/diagram_controller.py:1102-1105 | An empty prompt is asked for. |
| `FlowRun.AnswerLlm` | controllers/diagram_controller.py:1108-1128 | The substituted prompt is sent and the reply or error text is written. |
| `FlowRun.ChatResolved` | controllers/diagram_controller.py:1108-1122 | The chat receives the messages built from the resolved fields and the substituted prompt. |
| `FlowRun.RunPython` | controllers/diagram_controller.py:1130-1156 | The python branch performs `PythonStep`, and reports a crash exactly when `PythonStep` does. |
| `FlowRun.GatherParams` | controllers/diagram_controller.py:1134-1141 | The parameter loop computes `ParamValues`. |
| `FlowRun.RunNode` | controllers/diagram_controller.py:1003-1160 | One loop iteration performs `Step`. |
| `Graphs.KeyedIsInjective` | controllers/diagram_controller.py:716 | Keys are node ids, so two keys name the same node only when they are equal. |
| `Graphs.Unlinked` | controllers/diagram_controller.py:723-762 | The node's exits into `r` are removed and nothing else changes. |
| `Controller.HasStart` | controllers/diagram_controller.py:710 | True exactly when some listed node has type "inicio". |
| `Controller.DetachedChangesNothing` | controllers/diagram_controller.py:731-748 | `connected_from` is never set, so the deletion's edge clean-up changes nothing. |
| `Controller.Detached` | controllers/diagram_controller.py:731-748 | `handle_delete_node`'s edge clean-up as written: the node named by `connected_from` loses its `connected_to`, then, for a non-conditional, the target of `connected_to` loses its `connected_from`. |
| `Controller.Placed` | controllers/diagram_controller.py:713-715 | The node `handle_add_node` creates: at (100, 100·count) with text "Type n" and an empty title. |
| `Controller.FirstNodeTag` | controllers/diagram_controller.py:800-804 | The first tag of the clicked item that is a node id, or `None` when there is none. |
| `Controller.Attached` | controllers/diagram_controller.py:827-842 | Exactly the chosen exit gets the target: true or false for a conditional, `connected_to` otherwise. |
| `Controller.ControllerParams` | controllers/diagram_controller.py:680-681 | A blank entry gives no params. Otherwise every piece is stripped. |
| `Controller.ControllerParamsRoundTrip` | controllers/diagram_controller.py:657-681 | The params shown joined by ", " parse back to the same list. |
| `Controller.ControllerParamsKeepEmpty` | controllers/diagram_controller.py:681 | Unlike the node class, the controller keeps empty pieces: "a,,b" gives ["a", "", "b"], not ["a", "b"]. |
| `Controller.DiagramController.constructor` | controllers/diagram_controller.py:13-27 | No nodes, and an empty variable manager. |
| `Controller.DiagramController.AddNode` | controllers/diagram_controller.py:708-721 | A second "inicio" is refused and nothing changes. Otherwise the node is placed at (100, 100 × count) with text "Type n", listed under its id and added to the graph manager's ids. At most one start node is kept. |
| `Controller.DiagramController.DeleteNode` | controllers/diagram_controller.py:723-762 | As written: it deletes exactly when the selected node is listed, is not the start node, and is one of the graph manager's ids; otherwise `remove_node` raises, the handler catches it, and nothing changes. A deletion removes the key and the graph id and leaves edges into the node. |
| `Controller.DiagramController.DeleteNodeFixed` | controllers/diagram_controller.py:723-762 | As intended: it deletes exactly when the selected node is listed and is not the start node, removes its graph id, and clears every exit into it, so no listed node points at it. |
| `Controller.DiagramController.Connect` | controllers/diagram_controller.py:798-852 | It connects exactly when the target is an input point of another listed node and the exit is free. Then only that exit is set; otherwise nothing changes. |
| `Controller.DiagramController.DeleteConnection` | controllers/diagram_controller.py:944-975 | It clears exactly when the node is listed and the chosen exit is drawn: a set `connected_to` on a non-conditional, a set true or false exit on a conditional. Then only that exit is cleared; otherwise nothing changes. |
| `Controller.DiagramController.SaveFlow` | controllers/diagram_controller.py:41-69 | The saved dict holds one record per listed node, in order, and the variables. |
| `Controller.DiagramController.LoadFlow` | controllers/diagram_controller.py:80-146 | The nodes are rebuilt from the records and linked by id. The variables are replaced only when present. The graph has no dangling edge. |
| `Controller.DiagramController.ExecuteFlow` | controllers/diagram_controller.py:989-1160 | The run is `Execute(...)` on the controller's nodes and variables. |
| `Controller.FindStart` | controllers/diagram_controller.py:990-994 | The search loop computes `FirstStart`. |
| `Controller.Walk` | controllers/diagram_controller.py:1003-1160 | The `while current_node` loop computes `Run`. |
| `Controller.CreateAll` | controllers/diagram_controller.py:103-107 | The node-creation loop computes `CreatedHeap` and `CreatedNodes`. |
| `Controller.LinkAll` | controllers/diagram_controller.py:115-130 | The linking loop computes `Linked`. |
| `Controller.UnlinkAll` | controllers/diagram_controller.py:731-748 | The corrected clean-up loop computes `UnlinkedAll`. |
| `Controller.UnlinkedAll` | controllers/diagram_controller.py:731-748 | Each node has its exits into `r` cleared. |
| `Controller.AddKeepsSound` | controllers/diagram_controller.py:708-719 | Adding a node keeps the graph invariants, and keeps the single start node unless a second "inicio" is added. |
| `Controller.RemoveKeepsSound` | controllers/diagram_controller.py:752 | Removing a key keeps the graph invariants. |
| `Controller.AttachKeepsSound` | controllers/diagram_controller.py:827-842 | Setting an exit to a listed node keeps the invariants and adds no dangling edge. |
| `Controller.ClearKeepsSound` | controllers/diagram_controller.py:944-970 | Clearing an exit keeps the invariants and adds no dangling edge. |
| `Controller.UnlinkKeepsSound` | controllers/diagram_controller.py:723-762 | The corrected deletion keeps the invariants. |
| `Controller.RemovedKeepsNoDangling` | controllers/diagram_controller.py:723-762 | After the corrected deletion no listed node points at a node that is not listed. |
| `Saving.IdOf` | controllers/diagram_controller.py:54-56 | An edge is saved as its target's id, or `None`. |
| `Saving.RecordOf` | controllers/diagram_controller.py:46-57 | A node's record: its id, position, type, text, title and config, and its three exits as ids. |
| `Saving.Records` | controllers/diagram_controller.py:44-59 | One record per listed node, in dictionary order. |
| `Saving.VarRecords` | controllers/diagram_controller.py:62-69 | One record (name, type, value) per variable, in order. |
| `Saving.Fresh` | controllers/diagram_controller.py:104-106 | A loaded node keeps the record's id, position, type and text, takes `""` for a missing title and `{}` for a missing config, and has no edge yet. |
| `Saving.CreatedNodes` | controllers/diagram_controller.py:103-107 | Every record's id is a key, and each key names a record with that id. |
| `Saving.CreatedLastWins` | controllers/diagram_controller.py:103-107 | With repeated ids, a key names the last record with that id: no later record carries it. |
| `Saving.CreatedHeap` | controllers/diagram_controller.py:103-107 | One fresh node per record. |
| `Saving.Target` | controllers/diagram_controller.py:117-130 | A saved id is linked only when it is non-empty and names a loaded node. |
| `Saving.LinkNode` | controllers/diagram_controller.py:115-130 | Only the exits change. `connected_to` is restored for every node, true and false only for a conditional. |
| `Saving.Linked` | controllers/diagram_controller.py:115-130 | The linking loop: each record in order links the node now listed under its id. |
| `Saving.LoadedHeap` | controllers/diagram_controller.py:103-130 | The graph `load_flow` builds: the nodes created from the records, then linked by id. |
| `Saving.LoadedIsSound` | controllers/diagram_controller.py:103-130 | Any loaded flow satisfies the graph invariants and has no dangling edge. |
| `Saving.LinkedKeepsTidy` | controllers/diagram_controller.py:115-130 | Linking keeps every node tidy: no `connected_from`, exits to listed nodes, and true and false exits only on conditionals. |
| `Saving.CreatedDistinct` | controllers/diagram_controller.py:103-107 | With distinct ids, record `i` is loaded as the `i`-th node. |
| `Saving.LoadDistinct` | controllers/diagram_controller.py:103-130 | With distinct ids, the loaded nodes follow the records in order, each linked from its record. |
| `Saving.RecordsDistinct` | controllers/diagram_controller.py:44-59 | The saved records carry the dictionary's keys in order, so their ids are distinct. |
| `Saving.SavedLoadInOrder` | controllers/diagram_controller.py:41-107 | Loading the saved records gives the same keys in the same order. |
| `Saving.SaveLoadRoundTrip` | controllers/diagram_controller.py:41-130 | Save then load gives back every node with the same fields, and every edge to the same id. |
| `Saving.NodesRoundTrip` | controllers/diagram_controller.py:41-130 | Each listed node comes back as a node like it. |
| `Saving.NodeRoundTrip` | controllers/diagram_controller.py:46-57 | The node saved as the `i`-th record comes back like it. |
| `Saving.ExitRoundTrip` | controllers/diagram_controller.py:115-130 | A saved exit is restored exactly when it was set, and to a node with the same id. |
| `Saving.SavedVariablesRoundTrip` | controllers/diagram_controller.py:62-69 | Loading the saved variables gives back the same store. |
| `Saving.LoadedPrefix` | controllers/diagram_controller.py:62-69 | Loading the first `i` saved variables gives the first `i` variables. |
| `DeleteFinding.DeleteLeavesEdge` | controllers/diagram_controller.py:723-752 | Deleting "b" from the flow "a" → "b" leaves the edge from "a" to "b" in place. |
| `DeleteFinding.AfterDangles` | controllers/diagram_controller.py:723-752 | After that deletion the graph has a dangling edge. |
| `DeleteFinding.DeletedNodeStillRuns` | controllers/diagram_controller.py:989-1160 | Running that flow still visits the deleted "b", asks it and writes "respuesta". |
| `DeleteFinding.ReloadDropsDeletedNode` | controllers/diagram_controller.py:41-130 | After save and load, the same flow stops at "a" and asks nothing. |
| `DeleteFinding.FixedDeleteClearsEdge` | controllers/diagram_controller.py:723-762 | The corrected deletion clears the exit of "a". |
| `DeleteFinding.FixedDeleteMatchesReload` | controllers/diagram_controller.py:723-762 | After the corrected deletion nothing dangles, and the run agrees with the saved and reloaded one. |
| `DeleteFinding.DeleteAfterLoad` | controllers/diagram_controller.py:80-146 | After loading the flow "a" → "b", deleting "b" leaves it listed; the corrected deletion removes it. |

## Left out

- The Tkinter views are not modelled: canvas items, colours, highlighting, the dragging of nodes (`handle_canvas_drag`, `handle_canvas_release`), and the construction of every dialog. User input reaches the model as the entry strings of each `on_ok`.
- The controller's own node configuration dialogs (`handle_node_configuration`, `show_action_config_dialog` and the others) are not modelled. The exception is the parameter parsing of `show_python_config_dialog`. Also left out: `handle_start_connection`, `handle_start_delete_connection` and `handle_delete_key`, which only reset selection flags or forward to `handle_delete_node`.
- Connection line ids are canvas items. A connection is named by its node and exit instead (`Controller.DiagramController.DeleteConnection`).
- File I/O is not modelled:
  - the file dialogs, `json.dump` / `json.load`, and the error messages for unreadable files;
  - `load_default_variables` and `handle_add_variable`;
  - the memory snapshot written to `memoria/<uuid>.json` after a run.
- `SaveFlow` returns the dict that would be written, and `LoadFlow` takes the dict that was read.
- Malformed files are not modelled: records are typed, so the `KeyError` of a record without "x" or "id" cannot arise.
- `uuid.uuid4()` ids are parameters (`AddNode`'s `id`, `CreateNode`'s `id`).
- `models/graph_manager.py` is modelled only as the set of ids it holds (`graphIds`), which decides whether `remove_node` raises. Its networkx edges are not modelled: `add_edge` is never called, so the `remove_edge` call of `handle_delete_connection` (controllers/diagram_controller.py:953) always raises after the exit was cleared, and the handler catches it.
- The prompt dialogs, the multiple-choice dialog, the Ollama chat call and `exec` of user code are oracle answers.
  - A run is modelled for any oracle.
  - Compilation errors are part of the `exec` outcome.
  - The `compile` check of `PythonNode.on_ok` is a boolean parameter.
- SMTP delivery is not modelled: MIME construction, `starttls`, `login` and `sendmail`. A mail node hands a mail record to the outbox.
- A failure after the port is parsed (a refused connection, bad credentials) is not modelled: the model treats every parsable port as delivered.
- `print` output is not modelled.
- `Engine.Run` takes a fuel bound, since a cyclic flow makes the source loop forever. A run out of fuel is reported as such and says nothing about what the source would do next.
- `Values.ParseFloat` models `float()` on decimal literals: surrounding ASCII whitespace, an optional sign, digits with an optional fraction, and an optional `e`/`E` exponent. "inf", "nan", "infinity", underscores, non-ASCII digits and IEEE rounding are left out, and comparisons are on exact reals. Values are `None`, strings, integers and booleans: floats, lists and dicts returned by user code are not modelled.
- The engine run changes only the variable manager and the host. The controller's `self.nodes` during a run is the same as before, so the walk reads a fixed arena.
- The node classes' `context.get("root")` (the Tk root passed to dialogs) is not modelled.
- `Variable.__str__` is not modelled: nothing in the core reads it.
- Values.NoDigitIsNotFloat: holds for the modelled literals only. Python's `float()` also accepts "inf", "nan" and "-Infinity", which have no digit.
- Text.Strip: strips ASCII whitespace only. Python also strips other Unicode whitespace, such as '\xa0' and '\u3000'.
- Text.Upper: maps ASCII letters only. Python maps every cased letter, and can lengthen the text ('ß' gives "SS").
- Text.Capitalize: maps ASCII letters only, as `Text.Upper` does; Python's `capitalize` can also lengthen the text.
- Nodes.SmtpEndsTheWalk: the port is read by `Values.ParseInt`, which takes ASCII digits with an optional sign. Python's `int()` also accepts underscores between digits ("5_87") and non-ASCII digits.
- Templates.DeclaredMarkerReplaced: text with one marker; any number of markers is `Templates.DeclaredMarkersResolved`.
- Templates.UndeclaredMarkerKept: text with one marker; any number of markers is `Templates.DeclaredMarkersResolved`.
- Templates.MissingContextMarkerEmptied: text with one marker; any number of markers is `Templates.ContextMarkersResolved`.
- Templates.ContextMarkerReplaced: text with one marker; any number of markers is `Templates.ContextMarkersResolved`.
- Templates.DeclaredMarkersResolved: covers clean templates only: literal text without `${` and not ending in `$`, names free of `$` and `}`, and declared values whose `str()` is free of `$` and `{`. Python accepts any template.
- Templates.ContextMarkersResolved: covers clean templates only: literal text without `${` and not ending in `$`, names free of `$` and `}`, and context values whose `str()` is free of `$` and `{`. Python accepts any template.
- Templates.EveryMarkerResolved: covers templates whose literal text has no `${` and does not end in `$`, with names free of `$` and `}` and replacements free of `$` and `{`. A replacement that forms a new marker for a later name is not described.
- `Dicts.Dict.Remove`: states the new mapping but only a bound on the new key list, not its order.
- `Controller.ControllerParams`: its own contract states only that the items are stripped and when the list is empty. The full behaviour is stated by `ControllerParamsRoundTrip` and `ControllerParamsKeepEmpty`.

## Findings

| source | as written | input that shows it | evidently intended | confidence | as-written member | corrected member |
|---|---|---|---|---|---|---|
| controllers/diagram_controller.py:731-752 | `handle_delete_node` clears incoming edges through `node.connected_from`. No code ever sets `connected_from`, so edges into the deleted node stay, and the run still visits the deleted node. | A start node "a" with `connected_to` = "b", where "b" is a "multiples" node. Delete "b", then run: "b" is still asked and "respuesta" is written. After save and load the same flow stops at "a" (`DeleteFinding.DeletedNodeStillRuns`, `DeleteFinding.ReloadDropsDeletedNode`). | Deleting a node clears every exit that leads to it, so a deleted node is never executed and the graph has no dangling edge. | not executed | `Controller.DiagramController.DeleteNode` | `Controller.DiagramController.DeleteNodeFixed` |
| controllers/diagram_controller.py:751 | `load_flow` (controllers/diagram_controller.py:103-107) lists the loaded nodes in `self.nodes` but never adds them to `graph_manager`. Deleting a loaded node calls `graph_manager.remove_node`, which raises; the handler catches the error before `del self.nodes[node.id]`, so the node stays listed. | Load the flow "a" → "b" and delete "b": "b" is still listed (`DeleteFinding.DeleteAfterLoad`). | A loaded node can be deleted like one added by hand. | not executed | `Controller.DiagramController.DeleteNode` | `Controller.DiagramController.DeleteNodeFixed` |
