/** The shape of one stored chat turn and the well-formedness test that the
    service's tests apply to a conversation's list of turns. */
module Messages {

  const USER: string := "user"
  const ASSISTANT: string := "assistant"

  /** One entry of a conversation's `messages` column: `{"role": ..., "content": ...}`. */
  datatype Message = Message(role: string, content: string)

  /** The role the turn at index `i` must carry: user at even indices, assistant at odd ones. */
  function ExpectedRole(i: nat): (r: string)
    ensures r == USER <==> i % 2 == 0
    ensures r == ASSISTANT <==> i % 2 == 1
  {
    if i % 2 == 0 then USER else ASSISTANT
  }

  /** Roles alternate user/assistant, starting with user at index 0. */
  predicate Alternates(msgs: seq<Message>)
  {
    forall i :: 0 <= i < |msgs| ==> msgs[i].role == ExpectedRole(i)
  }

  /** `validate_message_structure`: every role is user or assistant, every
      content is non-empty, and the roles alternate starting with user. The
      check on the role's value is implied by the alternation, so a list is
      well formed exactly when it alternates and has no empty content. */
  predicate WellFormed(msgs: seq<Message>)
    ensures WellFormed(msgs) <==> Alternates(msgs) && forall i :: 0 <= i < |msgs| ==> msgs[i].content != ""
  {
    && (forall i :: 0 <= i < |msgs| ==> msgs[i].role == USER || msgs[i].role == ASSISTANT)
    && (forall i :: 0 <= i < |msgs| ==> |msgs[i].content| > 0)
    && Alternates(msgs)
  }

  /** A list made of complete user/assistant exchanges: even length and alternating. */
  predicate Paired(msgs: seq<Message>)
  {
    |msgs| % 2 == 0 && Alternates(msgs)
  }

  /** The two turns one exchange adds: the user's prompt, then the assistant's reply. */
  function Exchange(prompt: string, reply: string): (r: seq<Message>)
    ensures |r| == 2 && Paired(r)
    ensures r[0] == Message(USER, prompt) && r[1] == Message(ASSISTANT, reply)
  {
    [Message(USER, prompt), Message(ASSISTANT, reply)]
  }

  /** The first exchange is well formed exactly when neither text is empty. */
  lemma ExchangeWellFormed(prompt: string, reply: string)
    ensures WellFormed(Exchange(prompt, reply)) <==> prompt != "" && reply != ""
  {
  }

  /** Appending one exchange to a paired list keeps it paired. */
  lemma AppendExchangeKeepsPaired(msgs: seq<Message>, prompt: string, reply: string)
    requires Paired(msgs)
    ensures Paired(msgs + Exchange(prompt, reply))
  {
  }

  /** Appending one exchange whose texts are non-empty keeps a well-formed
      list well formed. */
  lemma AppendExchangeKeepsWellFormed(msgs: seq<Message>, prompt: string, reply: string)
    requires WellFormed(msgs) && |msgs| % 2 == 0
    requires prompt != "" && reply != ""
    ensures WellFormed(msgs + Exchange(prompt, reply))
  {
  }

  /** The turns after a run of updates, one `(prompt, reply)` exchange each, in order. */
  function AppendExchanges(msgs: seq<Message>, exchanges: seq<(string, string)>): (r: seq<Message>)
    decreases |exchanges|
  {
    if exchanges == [] then msgs
    else AppendExchanges(msgs + Exchange(exchanges[0].0, exchanges[0].1), exchanges[1..])
  }

  /** After any run of updates a paired list is still paired, the original list
      is a prefix, and exactly two turns were added per update. */
  lemma {:induction false} AppendExchangesKeepsPaired(msgs: seq<Message>, exchanges: seq<(string, string)>)
    requires Paired(msgs)
    ensures Paired(AppendExchanges(msgs, exchanges))
    ensures |AppendExchanges(msgs, exchanges)| == |msgs| + 2 * |exchanges|
    ensures msgs <= AppendExchanges(msgs, exchanges)
    decreases |exchanges|
  {
    if exchanges != [] {
      var next := msgs + Exchange(exchanges[0].0, exchanges[0].1);
      AppendExchangeKeepsPaired(msgs, exchanges[0].0, exchanges[0].1);
      AppendExchangesKeepsPaired(next, exchanges[1..]);
      assert msgs <= next;
    }
  }

  /** After any run of updates whose prompts and replies are non-empty, a
      well-formed list of even length is still well formed. */
  lemma {:induction false} AppendExchangesKeepsWellFormed(msgs: seq<Message>, exchanges: seq<(string, string)>)
    requires WellFormed(msgs) && |msgs| % 2 == 0
    requires forall k :: 0 <= k < |exchanges| ==> exchanges[k].0 != "" && exchanges[k].1 != ""
    ensures WellFormed(AppendExchanges(msgs, exchanges))
    decreases |exchanges|
  {
    if exchanges != [] {
      AppendExchangeKeepsWellFormed(msgs, exchanges[0].0, exchanges[0].1);
      assert forall k :: 0 <= k < |exchanges[1..]| ==> exchanges[1..][k] == exchanges[k + 1];
      AppendExchangesKeepsWellFormed(msgs + Exchange(exchanges[0].0, exchanges[0].1), exchanges[1..]);
    }
  }
}
