/** The chat() request handler of app.py, with its collaborators given as
    values: the stored sessions and messages are a small in-memory store,
    the embedding rows of the document (with their similarities) and its
    image rows are inputs, the fresh session id is an input, and the
    model's answer is an input (None when the call to the model raises, in
    which case nothing of the request is committed). */
module Chat {
  import opened Wrappers
  import opened Ranking
  import opened Retrieval
  import opened Prompt

  datatype ChatError = MessageRequired | ModelCallFailed

  /** A row of chat_sessions. */
  datatype Session = Session(id: string, title: string)

  /** A row of messages. */
  datatype StoredMessage = StoredMessage(sessionId: string, role: string, content: string,
                                         imageIds: Option<string>, pdfReferences: Option<string>)

  /** What a successful request yields: the session it was recorded under,
      the message list sent to the model and the context that was found. */
  datatype ChatReply = ChatReply(sessionId: string, outbound: seq<Message>, context: Option<Context>)

  /** Python truthiness of an optional string: present and non-empty. */
  predicate Truthy(s: Option<string>) {
    s.Some? && s.value != ""
  }

  /** The history query: role and content of the session's messages, in the
      order they were stored. */
  function History(messages: seq<StoredMessage>, sessionId: string): seq<Message>
    decreases |messages|
  {
    if messages == [] then []
    else
      var n := |messages| - 1;
      var m := messages[n];
      History(messages[..n], sessionId) + (if m.sessionId == sessionId then [Message(m.role, m.content)] else [])
  }

  /** The chat_sessions and messages tables. */
  class ChatStore {
    var sessions: seq<Session>
    var messages: seq<StoredMessage>

    constructor ()
      ensures sessions == [] && messages == []
    {
      sessions := [];
      messages := [];
    }

    /** The loop over the history query's rows. */
    method ReadHistory(sessionId: string) returns (history: seq<Message>)
      ensures history == History(messages, sessionId)
    {
      history := [];
      for i := 0 to |messages|
        invariant history == History(messages[..i], sessionId)
      {
        assert messages[..i + 1][..i] == messages[..i];
        var m := messages[i];
        if m.sessionId == sessionId {
          history := history + [Message(m.role, m.content)];
        }
      }
      assert messages[..|messages|] == messages;
    }
  }

  /** chat(): validate the message, open a session when none is given,
      store the user's message, retrieve context from the document when one
      is given, read the session's history and build the outbound message
      list; when the model answers, store the answer with its image and
      reference fields and commit, otherwise roll everything back. */
  method Chat(db: ChatStore, message: Option<string>, sessionId: Option<string>, pdfId: Option<string>,
              newSessionId: string, rows: seq<EmbeddingRow>, table: seq<ImageRow>, answer: Option<string>)
    returns (r: Result<ChatReply, ChatError>)
    modifies db
    ensures !Truthy(message) ==> r == Failure(MessageRequired)
    ensures Truthy(message) && answer.None? ==> r == Failure(ModelCallFailed)
    ensures r.Success? <==> Truthy(message) && answer.Some?
    ensures r.Failure? ==> db.sessions == old(db.sessions) && db.messages == old(db.messages)
    ensures r.Success? ==>
              var m := message.value;
              var sid := if Truthy(sessionId) then sessionId.value else newSessionId;
              var reply := r.value;
              && Truthy(message) && answer.Some?
              && reply.sessionId == sid
              && db.sessions == old(db.sessions) + (if Truthy(sessionId) then [] else [Session(newSessionId, SessionTitle(m))])
              && db.messages == old(db.messages) + [
                   StoredMessage(sid, "user", m, None, None),
                   StoredMessage(sid, "assistant", answer.value, ImageIdsField(reply.context), PdfRefsField(reply.context))]
              && reply.outbound == Outbound(History(old(db.messages), sid) + [Message("user", m)], UserContent(m, reply.context))
              && (!Truthy(pdfId) ==> reply.context == None)
              && (Truthy(pdfId) ==> Retrieved(reply.context, pdfId.value, rows, table))
  {
    if !Truthy(message) {
      return Failure(MessageRequired);
    }
    var m := message.value;
    var savedSessions, savedMessages := db.sessions, db.messages;
    var sid := newSessionId;
    if Truthy(sessionId) {
      sid := sessionId.value;
    } else {
      db.sessions := db.sessions + [Session(sid, SessionTitle(m))];
    }
    db.messages := db.messages + [StoredMessage(sid, "user", m, None, None)];
    var context: Option<Context> := None;
    if Truthy(pdfId) {
      context := Retrieve(pdfId.value, rows, table);
    }
    assert Truthy(pdfId) ==> Retrieved(context, pdfId.value, rows, table);
    var history := db.ReadHistory(sid);
    assert db.messages[..|db.messages| - 1] == savedMessages;
    var outbound := Outbound(history, UserContent(m, context));
    if answer.None? {
      db.sessions, db.messages := savedSessions, savedMessages;
      return Failure(ModelCallFailed);
    }
    db.messages := db.messages + [StoredMessage(sid, "assistant", answer.value, ImageIdsField(context), PdfRefsField(context))];
    r := Success(ChatReply(sid, outbound, context));
  }

  /** Reading the history after storing the user's message ends it with that
      message, and history[:-1] drops exactly it: the model receives the
      system message, the session's earlier turns unchanged and in order,
      and the rewritten question once. */
  lemma OutboundForwardsEarlierTurns(earlier: seq<Message>, message: string, userContent: string)
    ensures Outbound(earlier + [Message("user", message)], userContent)
            == [SystemMessage] + earlier + [Message("user", userContent)]
  {
    var history := earlier + [Message("user", message)];
    assert history[..|history| - 1] == earlier;
  }

  /** The history of a session lists exactly the session's messages, in
      order, and nothing of other sessions. */
  lemma {:induction false} HistoryMembers(messages: seq<StoredMessage>, sessionId: string)
    ensures |History(messages, sessionId)| <= |messages|
    ensures forall h :: h in History(messages, sessionId) <==>
              exists m :: m in messages && m.sessionId == sessionId && h == Message(m.role, m.content)
    decreases |messages|
  {
    if messages != [] {
      var n := |messages| - 1;
      HistoryMembers(messages[..n], sessionId);
      assert messages == messages[..n] + [messages[n]];
    }
  }

  /** Storing a message of another session leaves a session's history as it
      was; storing one of the session appends its role and content. */
  lemma HistoryAfterStore(messages: seq<StoredMessage>, m: StoredMessage, sessionId: string)
    ensures m.sessionId != sessionId ==> History(messages + [m], sessionId) == History(messages, sessionId)
    ensures m.sessionId == sessionId ==>
              History(messages + [m], sessionId) == History(messages, sessionId) + [Message(m.role, m.content)]
  {
    assert (messages + [m])[..|messages|] == messages;
  }
}
