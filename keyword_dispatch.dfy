/**
 * What the two toy tool-dispatch chatbots share: a price table (a Python
 * dict, iterated in insertion order), the loop that picks the first table
 * key found in the lower-cased last message, the errors that reading that
 * message can raise, and `do_entry`, which puts the user's message on the
 * Gradio history and clears the textbox.
 */
module KeywordDispatch {
  import opened Options
  import opened Text
  import opened Messages

  /** A dict from strings to strings, as its `(key, value)` items in insertion order. */
  type Table = seq<(string, string)>

  /** `table.keys()`, in insertion order. */
  function Keys(table: Table): seq<string>
  {
    seq(|table|, i requires 0 <= i < |table| => table[i].0)
  }

  /** `table[key]`: the value stored under `key`, or `None` where Python raises `KeyError`. */
  function Lookup(table: Table, key: string): (r: Option<string>)
    ensures r.Some? <==> key in Keys(table)
    ensures r.Some? ==> (key, r.value) in table
  {
    assert table != [] ==> Keys(table) == [table[0].0] + Keys(table[1..]);
    if table == [] then None
    else if table[0].0 == key then Some(table[0].1)
    else Lookup(table[1..], key)
  }

  /** No key is stored twice, as in a dict. */
  predicate DistinctKeys(table: Table)
  {
    forall i, j :: 0 <= i < j < |table| ==> table[i].0 != table[j].0
  }

  /** In a table without repeated keys, looking up the key of an item gives that item's value. */
  lemma {:induction false} LookupAt(table: Table, k: nat)
    requires DistinctKeys(table) && k < |table|
    ensures Lookup(table, table[k].0) == Some(table[k].1)
  {
    if k > 0 {
      assert table[0].0 != table[k].0;
      var rest := table[1..];
      forall i, j | 0 <= i < j < |rest|
        ensures rest[i].0 != rest[j].0
      {
        assert rest[i] == table[i + 1] && rest[j] == table[j + 1];
      }
      LookupAt(rest, k - 1);
    }
  }

  /**
   * The index of the first key, from `from` on, that occurs in `text`: every
   * earlier key is absent from `text`; `None` when no key occurs at all.
   */
  function FirstMatchFrom(keys: seq<string>, text: string, from: nat): (r: Option<nat>)
    requires from <= |keys|
    decreases |keys| - from
    ensures r.Some? ==> from <= r.value < |keys| && Contains(text, keys[r.value])
    ensures r.Some? ==> forall j :: from <= j < r.value ==> !Contains(text, keys[j])
    ensures r.None? ==> forall j :: from <= j < |keys| ==> !Contains(text, keys[j])
  {
    if from == |keys| then None
    else if Contains(text, keys[from]) then Some(from)
    else FirstMatchFrom(keys, text, from + 1)
  }

  /** The key the dispatch loop settles on for `text`: the first key that occurs in it. */
  function SelectedKey(keys: seq<string>, text: string): (r: Option<string>)
    ensures r.None? <==> forall j :: 0 <= j < |keys| ==> !Contains(text, keys[j])
    ensures r.Some? ==> r.value in keys && Contains(text, r.value)
    ensures r.Some? ==> exists i :: 0 <= i < |keys| && keys[i] == r.value && forall j :: 0 <= j < i ==> !Contains(text, keys[j])
  {
    match FirstMatchFrom(keys, text, 0)
    case None => None
    case Some(i) => Some(keys[i])
  }

  /**
   * `for task in table.keys(): if task in message.lower(): job = task; break`:
   * the first key, in insertion order, that occurs in the lower-cased message.
   */
  method SelectKey(keys: seq<string>, message: string) returns (found: Option<string>)
    ensures found == SelectedKey(keys, Lower(message))
  {
    found := None;
    var i := 0;
    while i < |keys|
      invariant 0 <= i <= |keys|
      invariant FirstMatchFrom(keys, Lower(message), 0) == FirstMatchFrom(keys, Lower(message), i)
    {
      if Contains(Lower(message), keys[i]) {
        found := Some(keys[i]);
        break;
      }
      i := i + 1;
    }
  }

  /**
   * The exceptions a chat callback can raise: reading the last message
   * (`IndexError`, `KeyError`, `AttributeError`), or a failed call to the
   * chat or image model (`ApiError`).
   */
  datatype PyError = IndexError | KeyError | AttributeError | ApiError

  /** What a call to the chat or image model yields: its answer, or an exception. */
  datatype Outcome<T> = Answered(value: T) | CallRaised

  /** The text of `history[-1]["content"]`, or the exception reading it raises (`None.lower()` raises `AttributeError`). */
  datatype LastText = Failed(error: PyError) | Found(text: string)

  /**
   * `history[-1]["content"].lower()` up to the call of `lower()`: `IndexError`
   * on an empty history, `KeyError` when the last message has no content,
   * `AttributeError` when its content is `None`, and the text otherwise.
   */
  function LatestText(entries: seq<Message>): (r: LastText)
    ensures entries == [] ==> r == Failed(IndexError)
    ensures entries != [] && "content" !in entries[|entries| - 1] ==> r == Failed(KeyError)
    ensures entries != [] && "content" in entries[|entries| - 1] && entries[|entries| - 1]["content"] == NoneValue ==>
              r == Failed(AttributeError)
    ensures r.Found? <==> entries != [] && Get(entries[|entries| - 1], "content").Str?
    ensures r.Found? ==> Str(r.text) == entries[|entries| - 1]["content"]
  {
    if entries == [] then Failed(IndexError)
    else
      var last := entries[|entries| - 1];
      if "content" !in last then Failed(KeyError)
      else match last["content"]
        case NoneValue => Failed(AttributeError)
        case Str(t) => Found(t)
  }

  /** A generated picture, as the image model returns it. */
  datatype Image = Image(pixels: seq<int>)

  /** What a chat callback does: returns the (same) history and an optional image, or raises. */
  datatype ChatTurn = RaisedError(error: PyError) | Returned(history: ChatHistory, image: Option<Image>)

  /**
   * `do_entry(message, history)`: a missing history becomes a new empty list;
   * exactly one user message is appended to it in place; the textbox is cleared.
   */
  method DoEntry(message: string, history: ChatHistory?) returns (textbox: string, updated: ChatHistory)
    modifies history
    ensures textbox == ""
    ensures history != null ==> updated == history && updated.entries == old(history.entries) + [UserMessage(message)]
    ensures history == null ==> fresh(updated) && updated.entries == [UserMessage(message)]
  {
    if history == null {
      updated := new ChatHistory([]);
    } else {
      updated := history;
    }
    updated.Append(UserMessage(message));
    textbox := "";
  }
}
