/** Everything the engine asks of the outside world: text dialogs (`simpledialog.askstring`),
    the radio-button dialog of the controller, the Ollama chat call, `exec` of user code and
    handing a mail to `smtplib`. Each answer is a fixed function of a global call counter and
    of what was asked, so a run is determined by the oracle it is given. */
module Hosts {
  import opened Wrappers
  import opened Values

  /** `{'role': role, 'content': content}` in a chat request. */
  datatype Message = Message(role: string, content: Value)

  /** What running user code gives: the value `func(**params)` returned, no `func` defined, an
      `Exception` (from `compile`, `exec` or the call) with its message, or an exception that is
      not an `Exception` (`SystemExit` from `sys.exit()`, `KeyboardInterrupt`), which the
      `except Exception` of both engines lets through. */
  datatype ExecOutcome = Returned(v: Value) | NoFunc | Raised(msg: string) | Escaped(msg: string)

  /** A message handed to `smtplib`: connection settings, envelope and the resolved content. */
  datatype Mail = Mail(server: string, port: int, user: string, password: string,
                       sender: string, to: string, recipients: seq<string>,
                       subject: string, body: string, isHtml: bool)

  /** What a python node writes for an `exec` outcome that its handler catches: the returned
      value, or the error text both copies of the engine use. */
  function ExecAnswer(e: ExecOutcome): (v: Value)
    requires !e.Escaped?
    ensures e.NoFunc? ==> v == VStr("Error: No se definió la función 'func'")
    ensures e.Raised? ==> v == VStr("Error al ejecutar código: " + e.msg)
    ensures e.Returned? ==> v == e.v
  {
    if e.Returned? then e.v
    else if e.NoFunc? then VStr("Error: No se definió la función 'func'")
    else VStr("Error al ejecutar código: " + e.msg)
  }

  datatype Oracle = Oracle(
    ask: (nat, string) -> Option<string>,
    choose: (nat, string, seq<string>) -> string,
    chat: (nat, Value, seq<Message>) -> Result<string, string>,
    exec: (nat, string, map<string, Value>) -> ExecOutcome)

  class Host {
    const oracle: Oracle
    /** The number of calls made so far; the next call is answered for this index. */
    var calls: nat
    /** Every mail handed to `smtplib`, oldest first. */
    var outbox: seq<Mail>

    constructor(o: Oracle)
      ensures oracle == o && calls == 0 && outbox == []
    {
      oracle := o;
      calls := 0;
      outbox := [];
    }

    /** `simpledialog.askstring(title, prompt)`: `None` when cancelled. */
    method Ask(prompt: string) returns (answer: Option<string>)
      modifies this
      ensures answer == oracle.ask(old(calls), prompt)
      ensures calls == old(calls) + 1 && outbox == old(outbox)
    {
      answer := oracle.ask(calls, prompt);
      calls := calls + 1;
    }

    /** The controller's radio-button dialog: the selected response, "" when none is selected. */
    method Choose(question: string, responses: seq<string>) returns (choice: string)
      modifies this
      ensures choice == oracle.choose(old(calls), question, responses)
      ensures calls == old(calls) + 1 && outbox == old(outbox)
    {
      choice := oracle.choose(calls, question, responses);
      calls := calls + 1;
    }

    /** `ollama.chat(model=model, messages=messages)`: the reply's content, or the exception's
        message. */
    method Chat(model: Value, messages: seq<Message>) returns (reply: Result<string, string>)
      modifies this
      ensures reply == oracle.chat(old(calls), model, messages)
      ensures calls == old(calls) + 1 && outbox == old(outbox)
    {
      reply := oracle.chat(calls, model, messages);
      calls := calls + 1;
    }

    /** `compile` and `exec` of `code`, then `func(**params)`. */
    method Exec(code: string, params: map<string, Value>) returns (outcome: ExecOutcome)
      modifies this
      ensures outcome == oracle.exec(old(calls), code, params)
      ensures calls == old(calls) + 1 && outbox == old(outbox)
    {
      outcome := oracle.exec(calls, code, params);
      calls := calls + 1;
    }

    /** `smtplib.SMTP(...)` ... `sendmail(...)`: the mail is recorded; delivery is not modelled. */
    method Send(mail: Mail)
      modifies this
      ensures outbox == old(outbox) + [mail] && calls == old(calls)
    {
      outbox := outbox + [mail];
    }
  }
}
