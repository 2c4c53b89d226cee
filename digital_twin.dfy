/**
 * The chat callback of the single-persona digital twin: Gradio passes the
 * history as `[user, bot]` pairs; the callback rebuilds an OpenAI-style
 * message list (system prompt, the truthy halves of every pair, the new user
 * message), cleans it, runs the agent and falls back to a fixed apology.
 * The profile text is whitespace-normalised with `" ".join(s.split())`,
 * which is `Text.NormalizeWhitespace`.
 */
module DigitalTwin {
  import opened Messages

  /** A Gradio pair: what the user wrote and what the bot answered, either possibly `None`. */
  type Pair = (Value, Value)

  /** `if x:` on a pair element: a non-empty string is true; `None` and `""` are false. */
  predicate Truthy(v: Value)
  {
    v.Str? && v.text != ""
  }

  /** The messages one pair contributes: the user's, then the assistant's, each only when truthy. */
  function PairMessages(pair: Pair): seq<Message>
  {
    (if Truthy(pair.0) then [MakeMessage("user", pair.0)] else [])
    + (if Truthy(pair.1) then [MakeMessage("assistant", pair.1)] else [])
  }

  /** The messages the whole history contributes, pair after pair. */
  function HistoryMessages(history: seq<Pair>): seq<Message>
  {
    if history == [] then [] else PairMessages(history[0]) + HistoryMessages(history[1..])
  }

  /** The number of truthy elements across all pairs. */
  function TruthyCount(history: seq<Pair>): nat
  {
    if history == [] then 0
    else (if Truthy(history[0].0) then 1 else 0) + (if Truthy(history[0].1) then 1 else 0)
         + TruthyCount(history[1..])
  }

  /** The messages of a joined history are those of its parts, in order. */
  lemma {:induction false} HistoryMessagesAppend(h1: seq<Pair>, h2: seq<Pair>)
    ensures HistoryMessages(h1 + h2) == HistoryMessages(h1) + HistoryMessages(h2)
  {
    if h1 == [] {
      assert h1 + h2 == h2;
    } else {
      assert (h1 + h2)[0] == h1[0];
      assert (h1 + h2)[1..] == h1[1..] + h2;
      HistoryMessagesAppend(h1[1..], h2);
    }
  }

  /** The messages of the first `i + 1` pairs: those of the first `i`, then those of pair `i`. */
  lemma HistoryMessagesSnoc(history: seq<Pair>, i: nat)
    requires i < |history|
    ensures HistoryMessages(history[..i + 1]) == HistoryMessages(history[..i]) + PairMessages(history[i])
  {
    assert history[..i + 1] == history[..i] + [history[i]];
    HistoryMessagesAppend(history[..i], [history[i]]);
    assert [history[i]][1..] == [];
  }

  /** The four shapes of one pair's messages, by which of its halves are truthy. */
  lemma PairMessagesCases(pair: Pair)
    ensures Truthy(pair.0) && Truthy(pair.1) ==>
              PairMessages(pair) == [MakeMessage("user", pair.0), MakeMessage("assistant", pair.1)]
    ensures Truthy(pair.0) && !Truthy(pair.1) ==> PairMessages(pair) == [MakeMessage("user", pair.0)]
    ensures !Truthy(pair.0) && Truthy(pair.1) ==> PairMessages(pair) == [MakeMessage("assistant", pair.1)]
    ensures !Truthy(pair.0) && !Truthy(pair.1) ==> PairMessages(pair) == []
  {
  }

  /**
   * One message per truthy pair element, never more than two per pair; every
   * message is a user or an assistant message with exactly the keys role and
   * content, and carries the truthy text it came from.
   */
  lemma {:induction false} HistoryMessagesShape(history: seq<Pair>)
    ensures |HistoryMessages(history)| == TruthyCount(history) <= 2 * |history|
    ensures forall m :: m in HistoryMessages(history) ==>
              m.Keys == {"role", "content"}
              && (m["role"] == Str("user") || m["role"] == Str("assistant"))
              && Truthy(m["content"])
  {
    if history != [] {
      HistoryMessagesShape(history[1..]);
    }
  }

  /** The conversation sent for `message`: system prompt, the history's messages, the new user message. */
  function Conversation(systemPrompt: string, history: seq<Pair>, message: string): seq<Message>
  {
    [SystemMessage(systemPrompt)] + HistoryMessages(history) + [UserMessage(message)]
  }

  /**
   * The conversation has exactly one system message, first; it ends with the
   * new user message; and cleaning leaves every one of its messages unchanged.
   */
  lemma ConversationShape(systemPrompt: string, history: seq<Pair>, message: string)
    ensures var c := Conversation(systemPrompt, history, message);
      && 2 <= |c| <= 2 * |history| + 2
      && c[0] == SystemMessage(systemPrompt)
      && (forall i :: 0 < i < |c| ==> Get(c[i], "role") != Str("system"))
      && c[|c| - 1] == UserMessage(message)
      && (forall i :: 0 <= i < |c| ==> CleanMessage(c[i]) == c[i])
  {
    var c := Conversation(systemPrompt, history, message);
    HistoryMessagesShape(history);
    forall i | 0 <= i < |c|
      ensures CleanMessage(c[i]) == c[i]
      ensures 0 < i ==> Get(c[i], "role") != Str("system")
    {
      if 0 < i < |c| - 1 {
        assert c[i] == HistoryMessages(history)[i - 1];
        assert c[i] in HistoryMessages(history);
      }
      CleanMessageKeepsTwoKeyMessage(c[i]);
    }
  }

  /** The loop of `chat` that turns the pairs into messages. */
  method BuildConversation(systemPrompt: string, history: seq<Pair>, message: string)
    returns (conversation: seq<Message>)
    ensures conversation == Conversation(systemPrompt, history, message)
  {
    conversation := [SystemMessage(systemPrompt)];
    for i := 0 to |history|
      invariant conversation == [SystemMessage(systemPrompt)] + HistoryMessages(history[..i])
    {
      var userMsg := history[i].0;
      var botMsg := history[i].1;
      PairMessagesCases(history[i]);
      if Truthy(userMsg) {
        conversation := conversation + [MakeMessage("user", userMsg)];
      }
      if Truthy(botMsg) {
        conversation := conversation + [MakeMessage("assistant", botMsg)];
      }
      HistoryMessagesSnoc(history, i);
    }
    assert history[..|history|] == history;
    conversation := conversation + [UserMessage(message)];
  }

  /**
   * `chat(message, history)`: what is sent to the agent is the conversation
   * (cleaning changes none of its messages), and the reply is the agent's
   * response or, when the run raises, the apology.
   */
  method Chat(message: string, history: seq<Pair>, systemPrompt: string, agent: seq<Message> -> AgentRun)
    returns (sent: seq<Message>, reply: string)
    ensures sent == Conversation(systemPrompt, history, message)
    ensures reply == FinalResponse(agent(sent))
  {
    var conversation := BuildConversation(systemPrompt, history, message);
    sent := CleanMessages(conversation);
    ConversationShape(systemPrompt, history, message);
    reply := FinalResponse(agent(sent));
  }
}
