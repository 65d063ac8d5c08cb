/** The message list `OllamaClient.chat` sends (models/ollama_client.py). */
module OllamaClient {
  import opened Wrappers
  import opened Values
  import opened Hosts

  /** The four entries of the `message` dict handed to `OllamaClient.chat`. */
  datatype LlmRequest = LlmRequest(personality: Value, instructions: Value, context: Value, prompt: Value)

  /** The chat messages for a request: the personality and the instructions as system
      messages, the context as a third system message only when it is truthy, and the prompt as
      the user message at the end. */
  function ChatMessages(req: LlmRequest): (ms: seq<Message>)
    ensures |ms| == (if Truthy(req.context) then 4 else 3)
    ensures ms[0] == Message("system", req.personality)
    ensures ms[1] == Message("system", req.instructions)
    ensures Truthy(req.context) ==> ms[2] == Message("system", req.context)
    ensures ms[|ms| - 1] == Message("user", req.prompt)
    ensures forall i :: 0 <= i < |ms| - 1 ==> ms[i].role == "system"
  {
    var base := [Message("system", req.personality), Message("system", req.instructions)];
    var withContext := if Truthy(req.context) then base + [Message("system", req.context)] else base;
    withContext + [Message("user", req.prompt)]
  }

  /** `chat`'s list building: two system messages, a conditional append, a final append. */
  method BuildMessages(req: LlmRequest) returns (ms: seq<Message>)
    ensures ms == ChatMessages(req)
  {
    ms := [Message("system", req.personality), Message("system", req.instructions)];
    if Truthy(req.context) {
      ms := ms + [Message("system", req.context)];
    }
    ms := ms + [Message("user", req.prompt)];
  }

  /** `OllamaClient(model).chat(message)`: the reply for the built messages. */
  method Chat(host: Hosts.Host, model: Value, req: LlmRequest) returns (reply: Result<string, string>)
    modifies host
    ensures reply == host.oracle.chat(old(host.calls), model, ChatMessages(req))
    ensures host.calls == old(host.calls) + 1 && host.outbox == old(host.outbox)
  {
    var ms := BuildMessages(req);
    reply := host.Chat(model, ms);
  }

  /** The user message is the only one that carries the prompt's role; the system messages are
      exactly personality, instructions and, when truthy, context, in that order. */
  lemma SystemMessagesInOrder(req: LlmRequest)
    ensures var ms := ChatMessages(req);
      ms[..|ms| - 1] == [Message("system", req.personality), Message("system", req.instructions)] +
                        (if Truthy(req.context) then [Message("system", req.context)] else [])
  {
  }
}
