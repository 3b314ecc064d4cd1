/** The conversation store behind the chat endpoints: one table row per
    conversation, keyed by an auto-assigned integer id, holding a tag and the
    list of turns. The text-generation service's tag and replies are given to
    the operations as parameters. */
module ChatStore {
  import opened Outcomes
  import opened Messages
  import opened Envelope

  const NOT_FOUND_MESSAGE: string := "Conversation not found"

  /** One row of the `messages` table; its `conversation_id` is the map key. */
  datatype Conversation = Conversation(tag: string, messages: seq<Message>)

  /** The answer to a lookup of an id that has no row. */
  function NotFound(): (r: Response)
    ensures r.status == NOT_FOUND && r.error && r.data == EmptyObject && r.message == NOT_FOUND_MESSAGE
  {
    Response(NOT_FOUND, EmptyObject, NOT_FOUND_MESSAGE, true)
  }

  /** The `data` of a successful read or create: the row's id, tag and turns. */
  function RecordOf(id: int, c: Conversation): Data
  {
    Record(id, c.tag, c.messages)
  }

  class Store {
    /** The table: conversation id to row. */
    var rows: map<int, Conversation>
    /** The id the next insert receives. */
    var nextId: int

    /** Ids are 1, 2, ... in insertion order with no gaps (an integer primary
        key with no deletes), and every row holds complete user/assistant
        exchanges. In particular the next id is not yet taken. */
    ghost predicate Valid()
      reads this
      ensures Valid() ==> nextId !in rows && forall id :: id in rows ==> 1 <= id < nextId
    {
      && nextId >= 1
      && (forall id :: id in rows <==> 1 <= id < nextId)
      && (forall id :: id in rows ==> Paired(rows[id].messages))
    }

    /** An empty table. */
    constructor ()
      ensures Valid() && rows == map[] && nextId == 1
    {
      rows := map[];
      nextId := 1;
    }

    /** `create_conversation`: store the prompt and the reply as the first
        exchange under a new id, and return that id, the tag and the two turns. */
    method Create(prompt: string, tag: string, reply: string) returns (id: int, resp: Response)
      requires Valid()
      modifies this
      ensures Valid()
      ensures id !in old(rows) && id == old(nextId) && nextId == old(nextId) + 1
      ensures rows == old(rows)[id := Conversation(tag, Exchange(prompt, reply))]
      ensures resp == Succeeded(Record(id, tag, [Message(USER, prompt), Message(ASSISTANT, reply)]))
    {
      id := nextId;
      var conversation := Conversation(tag, Exchange(prompt, reply));
      rows := rows[id := conversation];
      nextId := nextId + 1;
      resp := Succeeded(RecordOf(id, conversation));
    }

    /** `get_conversation`: the row under `id`, or the not-found answer. The
        store is left as it was. */
    method Get(id: int) returns (resp: Response)
      ensures id !in rows ==> resp == NotFound()
      ensures id in rows ==> resp == Succeeded(Record(id, rows[id].tag, rows[id].messages))
    {
      if id !in rows {
        return NotFound();
      }
      resp := Succeeded(RecordOf(id, rows[id]));
    }

    /** `update_conversation`: append the prompt and the service's reply to
        the row under `id` and return the reply. An absent id, or a call to
        the service that raises, leaves the store as it was. */
    method Update(id: int, prompt: string, reply: Outcome<string>) returns (resp: Response)
      requires Valid()
      modifies this
      ensures Valid()
      ensures nextId == old(nextId)
      ensures id !in old(rows) ==> resp == NotFound() && rows == old(rows)
      ensures id in old(rows) && reply.Raised? ==>
                resp == Rejected(INTERNAL_ERROR, reply.message) && rows == old(rows)
      ensures id in old(rows) && reply.Done? ==>
                && rows == old(rows)[id := Conversation(old(rows)[id].tag,
                                                        old(rows)[id].messages + Exchange(prompt, reply.value))]
                && resp == Succeeded(Text(reply.value))
    {
      if id !in rows {
        return NotFound();
      }
      if reply.Raised? {
        return Rejected(INTERNAL_ERROR, reply.message);
      }
      var conversation := rows[id];
      AppendExchangeKeepsPaired(conversation.messages, prompt, reply.value);
      rows := rows[id := conversation.(messages := conversation.messages + Exchange(prompt, reply.value))];
      resp := Succeeded(Text(reply.value));
    }
  }

  /** The update test's create-then-update sequence, extended with a read-back
      of the id as the get test does after a create. The read shows the same
      id and tag and the four turns in order, and they are well formed exactly
      when all four texts are non-empty. */
  method CreateUpdateGet(prompt: string, tag: string, reply: string, followUp: string, nextReply: string)
    returns (created: Response, updated: Response, read: Response)
    ensures created.status == OK && created.data.Record? && |created.data.messages| == 2
    ensures updated == Succeeded(Text(nextReply))
    ensures read.status == OK && read.data.Record?
    ensures read.data.conversationId == created.data.conversationId && read.data.tag == tag
    ensures read.data.messages == [Message(USER, prompt), Message(ASSISTANT, reply),
                                   Message(USER, followUp), Message(ASSISTANT, nextReply)]
    ensures WellFormed(read.data.messages) <==> prompt != "" && reply != "" && followUp != "" && nextReply != ""
  {
    var store := new Store();
    var id;
    id, created := store.Create(prompt, tag, reply);
    updated := store.Update(id, followUp, Done(nextReply));
    read := store.Get(id);
    var turns := read.data.messages;
    if WellFormed(turns) {
      assert |turns[0].content| > 0 && |turns[1].content| > 0;
      assert |turns[2].content| > 0 && |turns[3].content| > 0;
    }
  }
}
