/**
 * Chat messages as the scripts build them: Python dictionaries with string
 * keys whose values are strings or `None`; the Gradio chat history, a list
 * that callbacks append to in place; `clean_messages`, which both digital
 * twin apps define with the same text; and the reply an app gives when the
 * agent run raises.
 */
module Messages {

  /** A dictionary value: a string or Python's `None`. */
  datatype Value = NoneValue | Str(text: string)

  /** A message dictionary such as `{"role": "user", "content": "Hi"}`. */
  type Message = map<string, Value>

  /** `msg.get(key)`: the value under `key`, or `None` when the key is missing. */
  function Get(m: Message, key: string): Value
  {
    if key in m then m[key] else NoneValue
  }

  /** `{"role": role, "content": content}` */
  function MakeMessage(role: string, content: Value): Message
  {
    map["role" := Str(role), "content" := content]
  }

  function SystemMessage(prompt: string): Message
  {
    MakeMessage("system", Str(prompt))
  }

  function UserMessage(text: string): Message
  {
    MakeMessage("user", Str(text))
  }

  function AssistantMessage(content: Value): Message
  {
    MakeMessage("assistant", content)
  }

  /**
   * `{"role": msg.get("role"), "content": msg.get("content")}`: exactly the
   * two keys, every other key dropped, a missing one filled with `None`.
   */
  function CleanMessage(m: Message): (r: Message)
    ensures r.Keys == {"role", "content"}
    ensures r["role"] == Get(m, "role") && r["content"] == Get(m, "content")
    ensures forall k :: k in m && k != "role" && k != "content" ==> k !in r
  {
    map["role" := Get(m, "role"), "content" := Get(m, "content")]
  }

  /** A message that has exactly the keys role and content comes out of cleaning unchanged. */
  lemma CleanMessageKeepsTwoKeyMessage(m: Message)
    requires m.Keys == {"role", "content"}
    ensures CleanMessage(m) == m
  {
    assert CleanMessage(m).Keys == m.Keys;
  }

  /** Every message built by `MakeMessage` survives cleaning unchanged. */
  lemma CleanMessageKeepsMadeMessage(role: string, content: Value)
    ensures CleanMessage(MakeMessage(role, content)) == MakeMessage(role, content)
  {
    CleanMessageKeepsTwoKeyMessage(MakeMessage(role, content));
  }

  /** Cleaning twice is cleaning once. */
  lemma CleanMessageIdempotent(m: Message)
    ensures CleanMessage(CleanMessage(m)) == CleanMessage(m)
  {
    CleanMessageKeepsTwoKeyMessage(CleanMessage(m));
  }

  /** `clean_messages(messages)`: a new list, same length and order, each message cleaned. */
  method CleanMessages(messages: seq<Message>) returns (cleaned: seq<Message>)
    ensures |cleaned| == |messages|
    ensures forall i :: 0 <= i < |messages| ==> cleaned[i] == CleanMessage(messages[i])
  {
    cleaned := [];
    for i := 0 to |messages|
      invariant |cleaned| == i
      invariant forall j :: 0 <= j < i ==> cleaned[j] == CleanMessage(messages[j])
    {
      cleaned := cleaned + [CleanMessage(messages[i])];
    }
  }

  /** The reply both digital twin apps give when the agent run raises. */
  const Apology := "Sorry, I encountered an issue generating that response."

  /**
   * The outcome of `Runner.run` followed by `final_output_as(ChatResponse)`:
   * the parsed `llm_response`, or an exception from either step.
   */
  datatype AgentRun = Completed(llmResponse: string) | Raised

  /** The `try`/`except Exception` around the agent run: the response, or the apology on any exception. */
  function FinalResponse(run: AgentRun): (reply: string)
    ensures run.Completed? ==> reply == run.llmResponse
    ensures run.Raised? ==> reply == Apology
  {
    match run
    case Completed(response) => response
    case Raised => Apology
  }

  /** A Gradio chat history in "messages" format: a list that callbacks update in place. */
  class ChatHistory {
    var entries: seq<Message>

    constructor (initial: seq<Message>)
      ensures entries == initial
    {
      entries := initial;
    }

    /** `history.append(m)` (and `history += [m]`, which extends the same list). */
    method Append(m: Message)
      modifies this
      ensures entries == old(entries) + [m]
    {
      entries := entries + [m];
    }
  }
}
