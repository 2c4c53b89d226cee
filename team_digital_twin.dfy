/**
 * The chat callback of the team digital twin: Gradio passes the history as a
 * list of message dictionaries; the callback builds a fresh list (system
 * prompt, the history, the new user message), cleans it, runs the agent and
 * falls back to a fixed apology.
 */
module TeamDigitalTwin {
  import opened Messages

  /**
   * `chat(message, history)`: the agent is sent `len(history) + 2` messages,
   * the system prompt first, every history entry cleaned to role and content
   * in its place, the new user message last; the reply is the agent's response
   * or the apology. The caller's history list is only read.
   */
  method Chat(message: string, history: ChatHistory, systemPrompt: string, agent: seq<Message> -> AgentRun)
    returns (sent: seq<Message>, reply: string)
    ensures |sent| == |history.entries| + 2
    ensures sent[0] == SystemMessage(systemPrompt)
    ensures forall i :: 0 <= i < |history.entries| ==> sent[i + 1] == CleanMessage(history.entries[i])
    ensures sent[|sent| - 1] == UserMessage(message)
    ensures reply == FinalResponse(agent(sent))
  {
    var conversation := [SystemMessage(systemPrompt)];
    conversation := conversation + history.entries;
    conversation := conversation + [UserMessage(message)];
    sent := CleanMessages(conversation);
    CleanMessageKeepsMadeMessage("system", Str(systemPrompt));
    CleanMessageKeepsMadeMessage("user", Str(message));
    reply := FinalResponse(agent(sent));
  }
}
