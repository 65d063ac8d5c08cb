/** A node's `config` dictionary. Every key is optional, and each reader supplies its own default
    with `config.get(key, default)`; `None` here is a key that is absent. */
module Configs {
  import opened Wrappers
  import opened Conditions

  /** An LLM field `{"type": kind, "value": value}`: `kind` "variable" names a variable,
      anything else ("free") is literal text. */
  datatype Field = Field(kind: string, value: string)

  /** `{"type": "free", "value": ""}`, the default of every LLM field. */
  const FreeEmpty := Field("free", "")

  datatype Config = Config(
    actionType: Option<string>,
    printText: Option<string>,
    question: Option<string>,
    variableName: Option<string>,
    conditions: Option<seq<Clause>>,
    logicalOperator: Option<string>,
    responses: Option<seq<string>>,
    model: Option<Field>,
    personality: Option<Field>,
    instructions: Option<Field>,
    context: Option<Field>,
    prompt: Option<Field>,
    code: Option<string>,
    params: Option<seq<string>>,
    smtpServer: Option<string>,
    smtpPort: Option<string>,
    user: Option<string>,
    password: Option<string>,
    sender: Option<string>,
    to: Option<string>,
    subject: Option<string>,
    body: Option<string>,
    isHtml: Option<bool>)

  /** `{}`. */
  const EmptyConfig := Config(None, None, None, None, None, None, None, None, None, None, None, None,
                              None, None, None, None, None, None, None, None, None, None, None)

  /** The variable an answering node writes: its "variable_name" entry, "respuesta" by default. */
  function VarName(c: Config): (name: string)
    ensures c.variableName.None? ==> name == "respuesta"
    ensures c.variableName.Some? ==> name == c.variableName.value
  {
    c.variableName.GetOr("respuesta")
  }
}
