/**
 * The MetalWorksAI chatbot: the first job name from the estimate table that
 * occurs in the lower-cased last message selects a job; a selected job is
 * answered from the table (with a picture), anything else by the chat model.
 */
module MetalWorksChat {
  import opened Options
  import opened Text
  import opened Messages
  import opened KeywordDispatch

  /** The system message prepended to the history sent to the chat model. */
  const SystemText: string :=
    "You are a helpful assistant for a sheet metal and welding business called MetalWorksAI. "
    + "You provide short, witty, and practical answers in one sentence. "
    + "You can give rough estimates for welding jobs based on material type, alloy, size, and work type (indoor or outdoor). "
    + "You can also generate images of sheet metal projects or welded structures if requested. "
    + "Be professional but friendly, and provide helpful advice about metal types, welding techniques, and project feasibility."

  /** `job_estimates`, in insertion order; note the trailing space of `"weld "`. */
  function JobEstimates(): Table
  {
    [
      ("kitchen hood", "300 per foot"),
      ("fence panel", "$300 per yard"),
      ("weld ", "$100 per hour"),
      ("wall cover", "$250 per sheet")
    ]
  }

  /** `get_job_estimate(job)`: the estimate sentence for a job of the table; `None` where Python raises `KeyError`. */
  function GetJobEstimate(job: string): (r: Option<string>)
    ensures r.Some? <==> job in Keys(JobEstimates())
    ensures r.Some? ==> StartsWith(r.value, "The estimated cost for " + job + " is ")
    ensures r.Some? ==> r.value == "The estimated cost for " + job + " is " + Lookup(JobEstimates(), job).value
  {
    match Lookup(JobEstimates(), job)
    case None => None
    case Some(price) =>
      var r := "The estimated cost for " + job + " is " + price;
      assert r[..|"The estimated cost for " + job + " is "|] == "The estimated cost for " + job + " is ";
      Some(r)
  }

  /** No job is listed twice. */
  lemma JobsDistinct()
    ensures DistinctKeys(JobEstimates())
  {
    var t := JobEstimates();
    assert t[0].0[0] == 'k' && t[1].0[0] == 'f' && t[2].0[0] == 'w' && t[3].0[0] == 'w';
    assert t[2].0[1] == 'e' && t[3].0[1] == 'a';
  }

  /** Every job of the table has its estimate sentence, with the value stored under it. */
  lemma EstimateForEveryJob()
    ensures forall k :: 0 <= k < |JobEstimates()| ==>
              GetJobEstimate(JobEstimates()[k].0) == Some("The estimated cost for " + JobEstimates()[k].0 + " is " + JobEstimates()[k].1)
  {
    JobsDistinct();
    forall k | 0 <= k < |JobEstimates()|
      ensures Lookup(JobEstimates(), JobEstimates()[k].0) == Some(JobEstimates()[k].1)
    {
      LookupAt(JobEstimates(), k);
    }
  }

  /** The estimate for the welding job repeats the key's trailing space. */
  lemma WeldEstimate()
    ensures GetJobEstimate("weld ") == Some("The estimated cost for weld  is $100 per hour")
  {
    assert JobEstimates()[2] == ("weld ", "$100 per hour");
    assert Lookup(JobEstimates(), "weld ") == Some("$100 per hour");
    WeldSentence();
  }

  /** The estimate sentence for `"weld "`, written out: two spaces before `is`. */
  lemma WeldSentence()
    ensures "The estimated cost for " + "weld " + " is " + "$100 per hour"
            == "The estimated cost for weld  is $100 per hour"
  {
  }

  /** The welding key without its trailing space is not in the table, so it has no estimate. */
  lemma WeldWithoutSpaceHasNoEstimate()
    ensures GetJobEstimate("weld") == None
  {
    var keys := Keys(JobEstimates());
    assert |keys| == 4;
    assert forall k :: 0 <= k < 4 ==> keys[k] != "weld" by {
      assert keys[0][0] == 'k' && keys[1][0] == 'f' && keys[3][0] == 'w' && keys[3][1] == 'a';
      assert |keys[2]| == 5;
    }
  }

  /** The job `multi_agent_chat` selects for a message. */
  function JobFor(message: string): Option<string>
  {
    SelectedKey(Keys(JobEstimates()), Lower(message))
  }

  /**
   * `"weld "` matches only when a space follows: a message whose lower-cased
   * text ends in `weld`, with no `weld ` before that, never selects it.
   */
  lemma TrailingWeldNotSelected(message: string)
    requires EndsWith(Lower(message), "weld")
    requires !Contains(Lower(message)[..|message| - 4], "weld ")
    ensures JobFor(message) != Some("weld ")
  {
    var text := Lower(message);
    assert text == text[..|text| - 4] + "weld";
    NoOccurrenceAcrossTail(text[..|text| - 4], "weld", "weld ");
  }

  /** A few dispatch decisions: `"Weld it"` selects `"weld "`, `"Weld"` alone selects nothing. */
  lemma JobForExamples()
    ensures JobFor("Weld it") == Some("weld ")
    ensures JobFor("Weld") == None
  {
    var keys := Keys(JobEstimates());
    assert keys == ["kitchen hood", "fence panel", "weld ", "wall cover"];
    assert Lower("Weld it") == "weld it";
    assert Lower("Weld") == "weld";
    StartsWithContains("weld it", "weld ");
    assert FirstMatchFrom(keys, "weld it", 2) == Some(2);
    assert FirstMatchFrom(keys, "weld it", 1) == Some(2);
    assert FirstMatchFrom(keys, "weld it", 0) == Some(2);
    assert FirstMatchFrom(keys, "weld", 0) == None;
  }

  /** The prompt `artist_agent(job)` sends to the image model. */
  function ImagePrompt(job: string): string
  {
    "A image of " + job + " in art deco style."
  }

  /**
   * `multi_agent_chat(history)`. Reading the last message may raise, and then
   * nothing changes. For a selected job the table's sentence is appended in
   * place and the image model is asked for a picture of the job; if that
   * call raises, the exception propagates with the sentence already
   * appended, else the same list is returned with the picture. Otherwise
   * the chat model is asked, with the system message followed by the history
   * as it was; if that call raises, nothing is appended, else its reply is
   * appended and the same list is returned with no picture.
   */
  method MultiAgentChat(history: ChatHistory, complete: seq<Message> -> Outcome<Value>, draw: string -> Outcome<Image>)
    returns (turn: ChatTurn, request: Option<seq<Message>>)
    modifies history
    ensures LatestText(old(history.entries)).Failed? ==>
              turn == RaisedError(LatestText(old(history.entries)).error) && request == None
              && history.entries == old(history.entries)
    ensures LatestText(old(history.entries)).Found? ==>
              var job := JobFor(LatestText(old(history.entries)).text);
              && (job.Some? ==>
                    && request == None
                    && GetJobEstimate(job.value).Some?
                    && history.entries == old(history.entries) + [AssistantMessage(Str(GetJobEstimate(job.value).value))]
                    && turn == match draw(ImagePrompt(job.value))
                               case Answered(image) => Returned(history, Some(image))
                               case CallRaised => RaisedError(ApiError))
              && (job.None? ==>
                    && request == Some([SystemMessage(SystemText)] + old(history.entries))
                    && (complete(request.value).Answered? ==>
                          && history.entries == old(history.entries) + [AssistantMessage(complete(request.value).value)]
                          && turn == Returned(history, None))
                    && (complete(request.value).CallRaised? ==>
                          history.entries == old(history.entries) && turn == RaisedError(ApiError)))
  {
    var latest := LatestText(history.entries);
    if latest.Failed? {
      return RaisedError(latest.error), None;
    }
    var message := latest.text;
    var messages := [SystemMessage(SystemText)] + history.entries;
    var job := SelectKey(Keys(JobEstimates()), message);
    if job.Some? {
      var answer := GetJobEstimate(job.value);
      history.Append(AssistantMessage(Str(answer.value)));
      request := None;
      var image := draw(ImagePrompt(job.value));
      if image.CallRaised? {
        return RaisedError(ApiError), None;
      }
      turn := Returned(history, Some(image.value));
    } else {
      request := Some(messages);
      var response := complete(messages);
      if response.CallRaised? {
        return RaisedError(ApiError), request;
      }
      history.Append(AssistantMessage(response.value));
      turn := Returned(history, None);
    }
  }
}
