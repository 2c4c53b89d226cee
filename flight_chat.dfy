/**
 * The FlightAI chatbot: the first city from the ticket table that occurs in
 * the lower-cased last message selects a destination; a selected city is
 * answered from the table (with a picture), anything else by the chat model.
 */
module FlightChat {
  import opened Options
  import opened Text
  import opened Messages
  import opened KeywordDispatch

  /** The system message, built from two pieces with no space between them. */
  const SystemText: string :=
    "You are a helpful assistant for an airlined called FlightAI."
    + "Give short, wity, snarky answers that are one sentence long"

  /** `ticket_prices`, in insertion order. */
  function TicketPrices(): Table
  {
    [("london", "$799"), ("paris", "$899"), ("tokyo", "$1400"), ("sydney", "$1700")]
  }

  /** `get_ticket_prices(city)`: the price sentence for a city of the table; `None` where Python raises `KeyError`. */
  function GetTicketPrices(city: string): (r: Option<string>)
    ensures r.Some? <==> city in Keys(TicketPrices())
    ensures r.Some? ==> StartsWith(r.value, "A flight to " + city + " cost ")
    ensures r.Some? ==> r.value == "A flight to " + city + " cost " + Lookup(TicketPrices(), city).value
  {
    match Lookup(TicketPrices(), city)
    case None => None
    case Some(price) =>
      var r := "A flight to " + city + " cost " + price;
      assert r[..|"A flight to " + city + " cost "|] == "A flight to " + city + " cost ";
      Some(r)
  }

  /** No city is listed twice. */
  lemma CitiesDistinct()
    ensures DistinctKeys(TicketPrices())
  {
    var t := TicketPrices();
    assert t[0].0[0] == 'l' && t[1].0[0] == 'p' && t[2].0[0] == 't' && t[3].0[0] == 's';
  }

  /** Every city of the table has its price sentence, with the price stored under it. */
  lemma PriceForEveryCity()
    ensures forall k :: 0 <= k < |TicketPrices()| ==>
              GetTicketPrices(TicketPrices()[k].0) == Some("A flight to " + TicketPrices()[k].0 + " cost " + TicketPrices()[k].1)
  {
    CitiesDistinct();
    forall k | 0 <= k < |TicketPrices()|
      ensures Lookup(TicketPrices(), TicketPrices()[k].0) == Some(TicketPrices()[k].1)
    {
      LookupAt(TicketPrices(), k);
    }
  }

  /** The table's prices, word for word; a city outside the table has none. */
  lemma TicketPriceExamples()
    ensures GetTicketPrices("paris") == Some("A flight to paris cost $899")
    ensures GetTicketPrices("Paris") == None
  {
    assert Keys(TicketPrices()) == ["london", "paris", "tokyo", "sydney"];
    assert Lookup(TicketPrices(), "paris") == Some("$899");
    assert "A flight to " + "paris" + " cost " + "$899" == "A flight to paris cost $899";
  }

  /** The city `mixed_chat` selects for a message. */
  function CityFor(message: string): Option<string>
  {
    SelectedKey(Keys(TicketPrices()), Lower(message))
  }

  /** Selection is by substring: "Parisian" selects paris. */
  lemma CityForSubstring()
    ensures CityFor("Any Parisian cafes?") == Some("paris")
  {
    var keys := Keys(TicketPrices());
    assert keys == ["london", "paris", "tokyo", "sydney"];
    var a := Lower("Any Parisian cafes?");
    assert a == "any parisian cafes?";
    AbsentFirstChar(a, "london");
    assert a[4..9] == "paris";
    assert OccursAt(a, "paris", 4);
    assert FirstMatchFrom(keys, a, 1) == Some(1);
    assert FirstMatchFrom(keys, a, 0) == Some(1);
  }

  /** Selection follows table order: a message naming Tokyo before London selects london, listed first. */
  lemma CityForTableOrder()
    ensures CityFor("Tokyo or London?") == Some("london")
  {
    var keys := Keys(TicketPrices());
    assert keys == ["london", "paris", "tokyo", "sydney"];
    var b := Lower("Tokyo or London?");
    assert b == "tokyo or london?";
    assert b[9..15] == "london";
    assert OccursAt(b, "london", 9);
    assert FirstMatchFrom(keys, b, 0) == Some(0);
  }

  /** A message naming no listed city selects nothing. */
  lemma CityForNoCity()
    ensures CityFor("Rome") == None
  {
    var keys := Keys(TicketPrices());
    assert keys == ["london", "paris", "tokyo", "sydney"];
    var c := Lower("Rome");
    assert c == "rome";
    AbsentFirstChar(c, "london");
    AbsentFirstChar(c, "paris");
    AbsentFirstChar(c, "tokyo");
    AbsentFirstChar(c, "sydney");
    assert FirstMatchFrom(keys, c, 0) == None;
  }

  /** The prompt `artist_agent(city)` sends to the image model. */
  function ImagePrompt(city: string): string
  {
    "An image representing a vacation in a " + city + ", showing tourist sites in art decko style."
  }

  /**
   * `mixed_chat(history)`. Reading the last message may raise, and then
   * nothing changes. For a selected city the table's sentence is appended in
   * place and the image model is asked for a picture of the city; if that
   * call raises, the exception propagates with the sentence already
   * appended, else the same list is returned with the picture. Otherwise
   * the chat model is asked, with the system message followed by the history
   * as it was; if that call raises, nothing is appended, else its reply is
   * appended and the same list is returned with no picture.
   */
  method MixedChat(history: ChatHistory, complete: seq<Message> -> Outcome<Value>, draw: string -> Outcome<Image>)
    returns (turn: ChatTurn, request: Option<seq<Message>>)
    modifies history
    ensures LatestText(old(history.entries)).Failed? ==>
              turn == RaisedError(LatestText(old(history.entries)).error) && request == None
              && history.entries == old(history.entries)
    ensures LatestText(old(history.entries)).Found? ==>
              var city := CityFor(LatestText(old(history.entries)).text);
              && (city.Some? ==>
                    && request == None
                    && GetTicketPrices(city.value).Some?
                    && history.entries == old(history.entries) + [AssistantMessage(Str(GetTicketPrices(city.value).value))]
                    && turn == match draw(ImagePrompt(city.value))
                               case Answered(image) => Returned(history, Some(image))
                               case CallRaised => RaisedError(ApiError))
              && (city.None? ==>
                    && request == Some([SystemMessage(SystemText)] + old(history.entries))
                    && (complete(request.value).Answered? ==>
                          && history.entries == old(history.entries) + [AssistantMessage(complete(request.value).value)]
                          && turn == Returned(history, None))
                    && (complete(request.value).CallRaised? ==>
                          history.entries == old(history.entries) && turn == RaisedError(ApiError)))
  {
    var latest := LatestText(history.entries);
    if latest.Failed? {
      return RaisedError(latest.error), None;
    }
    var message := latest.text;
    var messages := [SystemMessage(SystemText)] + history.entries;
    var city := SelectKey(Keys(TicketPrices()), message);
    if city.Some? {
      var answer := GetTicketPrices(city.value);
      history.Append(AssistantMessage(Str(answer.value)));
      request := None;
      var image := draw(ImagePrompt(city.value));
      if image.CallRaised? {
        return RaisedError(ApiError), None;
      }
      turn := Returned(history, Some(image.value));
    } else {
      request := Some(messages);
      var response := complete(messages);
      if response.CallRaised? {
        return RaisedError(ApiError), request;
      }
      history.Append(AssistantMessage(response.value));
      turn := Returned(history, None);
    }
  }
}
