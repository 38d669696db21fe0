/** The reply extraction at the end of `handle_message` in app.py: after a
    run, the thread's message list (`messages.data`) is walked in reverse,
    only the last content block of each message is inspected, and every
    text block found overwrites the local `response`, which is then sent to
    the chat UI. The remote calls that produce the list are not modelled:
    the list is the input. */
module ReplyExtraction {

  import opened Wrappers

  /** Who wrote a thread message. */
  datatype Role = User | Assistant

  /** One content block of a message: a text block (`MessageTextContent`)
      or any other kind (an image, a file). */
  datatype Block = Text(value: string) | NonText

  /** One entry of `messages.data`. */
  datatype Message = Message(role: Role, content: seq<Block>)

  /** Why the handler fails instead of sending a reply. */
  datatype Failure =
    | EmptyContent     // `content[-1]` on an empty list raises IndexError
    | ResponseUnbound  // no text was found, so `response` is never assigned

  /** What the handler ends with: the text sent to the UI, or the failure. */
  datatype Outcome = Reply(text: string) | Failed(failure: Failure)

  /** The last content block of a message is text. */
  predicate EndsWithText(m: Message) {
    m.content != [] && m.content[|m.content| - 1].Text?
  }

  /** The text of the last content block of a message that ends with text. */
  function LastText(m: Message): string
    requires EndsWithText(m)
  {
    m.content[|m.content| - 1].value
  }

  /** Every message has at least one content block. */
  predicate AllHaveContent(messages: seq<Message>) {
    forall j :: 0 <= j < |messages| ==> messages[j].content != []
  }

  /** `i` is the smallest index of a message whose last block is text. */
  predicate IsFirstText(messages: seq<Message>, i: int) {
    && 0 <= i < |messages|
    && EndsWithText(messages[i])
    && forall j :: 0 <= j < i ==> !EndsWithText(messages[j])
  }

  /** The smallest index of a message whose last block is text, if any. */
  function FirstTextIndex(messages: seq<Message>): (r: Option<nat>)
    ensures r.Some? ==> IsFirstText(messages, r.value)
    ensures r.None? ==> forall j :: 0 <= j < |messages| ==> !EndsWithText(messages[j])
  {
    if messages == [] then None
    else if EndsWithText(messages[0]) then Some(0)
    else match FirstTextIndex(messages[1..])
         case None => None
         case Some(i) => Some(i + 1)
  }

  /** What the handler does with the message list. A message without
      content blocks stops the walk with an error wherever it stands. Among
      the others the reply is the text of the first message, by index, that
      ends with text: the reversed walk visits it last, so its assignment to
      `response` is the one that survives. */
  function Extracted(messages: seq<Message>): (r: Outcome)
    ensures r == Failed(EmptyContent) <==> !AllHaveContent(messages)
    ensures r == Failed(ResponseUnbound) <==>
              AllHaveContent(messages) &&
              forall j :: 0 <= j < |messages| ==> !EndsWithText(messages[j])
    ensures r.Reply? ==>
              AllHaveContent(messages) &&
              exists i :: IsFirstText(messages, i) && r.text == LastText(messages[i])
  {
    if !AllHaveContent(messages) then Failed(EmptyContent)
    else match FirstTextIndex(messages)
         case None => Failed(ResponseUnbound)
         case Some(i) => Reply(LastText(messages[i]))
  }

  /** The loop of `handle_message`: walk the list from its end to its
      start, stop with an error on a message without content, and let each
      message ending with text overwrite `response`. */
  method ExtractReply(messages: seq<Message>) returns (r: Outcome)
    ensures r == Extracted(messages)
  {
    var response: Option<string> := None;
    var k := |messages|;
    while k > 0
      invariant 0 <= k <= |messages|
      invariant AllHaveContent(messages[k..])
      invariant response.None? ==>
                  forall j :: k <= j < |messages| ==> !EndsWithText(messages[j])
      invariant response.Some? ==>
                  exists i :: k <= i < |messages| && EndsWithText(messages[i]) &&
                              response.value == LastText(messages[i]) &&
                              forall j :: k <= j < i ==> !EndsWithText(messages[j])
    {
      k := k - 1;
      var message := messages[k];
      if message.content == [] {
        return Failed(EmptyContent);
      }
      var last := message.content[|message.content| - 1];
      if last.Text? {
        response := Some(last.value);
      }
    }
    assert messages[0..] == messages;
    match response
    case None =>
      r := Failed(ResponseUnbound);
    case Some(text) =>
      r := Reply(text);
  }

  // ---------------------------------------------------------------------
  // Properties of the extraction

  /** Only `content[-1]` is inspected: rewriting every block of a message
      except its last one changes nothing, so a text block earlier in a
      message never becomes the reply. */
  lemma OnlyLastBlockCounts(messages: seq<Message>, i: nat, earlier: seq<Block>)
    requires i < |messages| && messages[i].content != []
    ensures var m := messages[i];
            var rewritten := Message(m.role, earlier + [m.content[|m.content| - 1]]);
            Extracted(messages[i := rewritten]) == Extracted(messages)
  {
    var m := messages[i];
    var changed := messages[i := Message(m.role, earlier + [m.content[|m.content| - 1]])];
    assert forall j :: 0 <= j < |messages| ==>
             (changed[j].content == [] <==> messages[j].content == []) &&
             (EndsWithText(changed[j]) <==> EndsWithText(messages[j])) &&
             (EndsWithText(changed[j]) ==> LastText(changed[j]) == LastText(messages[j]));
    FirstTextUnique(changed, messages);
  }

  /** The first-text index depends only on which messages end with text. */
  lemma FirstTextUnique(a: seq<Message>, b: seq<Message>)
    requires |a| == |b|
    requires forall j :: 0 <= j < |a| ==> (EndsWithText(a[j]) <==> EndsWithText(b[j]))
    ensures FirstTextIndex(a) == FirstTextIndex(b)
  {
  }

  /** Messages after a qualifying one never take over the reply: the walk
      reaches the smaller index last and its assignment overwrites theirs. */
  lemma LaterMessagesDoNotOverride(messages: seq<Message>, later: seq<Message>)
    requires Extracted(messages).Reply?
    requires AllHaveContent(later)
    ensures Extracted(messages + later) == Extracted(messages)
  {
    var i := FirstTextIndex(messages).value;
    assert IsFirstText(messages + later, i);
    var both := messages + later;
    assert forall j :: 0 <= j < |both| ==> both[j].content != [] by {
      forall j | 0 <= j < |both| ensures both[j].content != [] {
        if j >= |messages| { assert both[j] == later[j - |messages|]; }
      }
    }
  }

  /** A message at index 0 that ends with text is the reply whenever the
      walk gets through the whole list. */
  lemma FrontMessageWins(first: Message, rest: seq<Message>)
    requires EndsWithText(first) && AllHaveContent(rest)
    ensures Extracted([first] + rest) == Reply(LastText(first))
  {
  }

  /** A message without content blocks makes the handler fail wherever it
      stands, even after messages that end with text. */
  lemma EmptyContentAnywhereFails(before: seq<Message>, role: Role, after: seq<Message>)
    ensures Extracted(before + [Message(role, [])] + after) == Failed(EmptyContent)
  {
    assert (before + [Message(role, [])] + after)[|before|].content == [];
  }

  /** For the list `[user: "hi", assistant: "hello"]` the reply is "hi":
      the message with the smaller index wins, not the later one. */
  lemma TwoMessageExample()
    ensures Extracted([Message(User, [Text("hi")]), Message(Assistant, [Text("hello")])])
            == Reply("hi")
  {
  }
}
