/** `RagService.make_query`: one conversation turn. The session is looked up
    first, then the index is searched with the query, a Context is built from
    the chunks found (only when there are some), and the query is sent to the
    same session with that context as grounding. */
module RagService {
  import opened Wrappers
  import opened Models
  import opened DocumentStore
  import opened ContextModel
  import opened Llm
  import VectorStore

  const NoBuildContext := "'LLMSession' object has no attribute 'build_context'"
  const NoSendMessage := "'LLMSession' object has no attribute 'send_message'"

  /** `make_query` as it stands: after the lookup and the search it calls
      `session.build_context` (when chunks were found) or
      `session.send_message`, neither of which `LLMSession` defines, so every
      call that gets past the search raises AttributeError and no reply is
      ever returned. Nothing is changed. */
  method MakeQueryAsWritten(handler: LLMHandler, db: DocumentDB, encode: string -> Embedding,
                            distance: (Embedding, Embedding) -> real, query: string, sessionId: string)
    returns (r: Result<(string, Option<Context>), Error>)
    ensures r.Failure?
    ensures Find(handler.sessions, sessionId).None? ==> r.error == IndexError
    ensures Find(handler.sessions, sessionId).Some? && query == "" ==>
              r.error == ValueError("Can't embed empty string")
    ensures Find(handler.sessions, sessionId).Some? && query != "" ==>
              r.error == AttributeError(
                if db.GetKNearest(encode(query), VectorStore.DefaultK, distance) != [] then NoBuildContext else NoSendMessage)
  {
    var session := handler.GetSession(sessionId);
    if session.Failure? {
      return Failure(session.error);
    }
    var related := VectorStore.Search(db, encode, distance, query, VectorStore.DefaultK);
    if related.Failure? {
      return Failure(related.error);
    }
    if related.value != [] {
      return Failure(AttributeError(NoBuildContext));
    }
    return Failure(AttributeError(NoSendMessage));
  }

  /** The grounding text a context gives the model. */
  function Grounding(context: Option<Context>): (r: Option<string>)
    ensures r.Some? <==> context.Some?
  {
    match context
    case None => None
    case Some(ctx) => Some(Render(ctx))
  }

  /** The context a list of found chunks gives: none for no chunks, else a
      new Context under the given id. */
  function ContextFor(chunks: seq<Chunk>, contextId: string): (r: Option<Context>)
    ensures r.Some? <==> chunks != []
    ensures r.Some? ==> r.value.chunks == chunks && r.value.id == contextId
  {
    if chunks == [] then None else Some(Context(contextId, chunks))
  }

  /** The second half of `make_query` as evidently meant: wrap the chunks in
      a Context when there are any, then one `chat` turn on the session
      grounded by its rendering; the reply comes back with that context. */
  method Ask(session: LLMSession, chunks: seq<Chunk>, complete: seq<Message> -> Completion,
             fromString: string -> string, query: string, contextId: string)
    returns (r: Result<(string, Option<Context>), Error>)
    requires session.Valid()
    modifies session
    ensures session.Valid()
    ensures var context := ContextFor(chunks, contextId);
            var sent := old(session.messages) + Prompt(query, Grounding(context));
            && session.messages == AfterChat(old(session.messages), query, Grounding(context), complete(sent))
            && r == match complete(sent)
                    case NoChoices => Failure(ValueError("Invalid response from Mistral API"))
                    case Reply(content) => Success((fromString(content), context))
  {
    var context: Option<Context> := None;
    if chunks != [] {
      context := Some(Context(contextId, chunks));
    }
    var reply := session.Chat(query, Grounding(context), complete, fromString);
    if reply.Failure? {
      return Failure(reply.error);
    }
    return Success((reply.value, context));
  }

  /** `make_query` as its calls evidently mean it: `build_context` wraps the
      chunks in a new Context under a fresh id, and `send_message` is a `chat`
      turn grounded by that context's rendering. An unknown session fails
      before anything else; an empty query fails in the search with the
      history untouched; otherwise the turn goes to that same session and
      the reply comes back with the context that was sent. Other sessions
      and the index are untouched. */
  method MakeQuery(handler: LLMHandler, db: DocumentDB, encode: string -> Embedding,
                   distance: (Embedding, Embedding) -> real, complete: seq<Message> -> Completion,
                   fromString: string -> string, query: string, sessionId: string, contextId: string)
    returns (r: Result<(string, Option<Context>), Error>)
    requires handler.Valid()
    modifies set s | s in handler.sessions
    ensures handler.Valid()
    ensures Find(handler.sessions, sessionId).None? ==> r == Failure(IndexError)
    ensures Find(handler.sessions, sessionId).Some? && query == "" ==>
              r == Failure(ValueError("Can't embed empty string"))
    ensures Find(handler.sessions, sessionId).Some? && query != "" ==>
              var session := handler.sessions[Find(handler.sessions, sessionId).value];
              var context := ContextFor(db.GetKNearest(encode(query), VectorStore.DefaultK, distance), contextId);
              var sent := old(session.messages) + Prompt(query, Grounding(context));
              && session.messages == AfterChat(old(session.messages), query, Grounding(context), complete(sent))
              && r == match complete(sent)
                      case NoChoices => Failure(ValueError("Invalid response from Mistral API"))
                      case Reply(content) => Success((fromString(content), context))
    ensures Find(handler.sessions, sessionId).None? || query == "" ==>
              forall s :: s in handler.sessions ==> s.messages == old(s.messages)
    ensures Find(handler.sessions, sessionId).Some? ==>
              forall s :: s in handler.sessions && s != handler.sessions[Find(handler.sessions, sessionId).value] ==>
                s.messages == old(s.messages)
  {
    var found := handler.GetSession(sessionId);
    if found.Failure? {
      return Failure(found.error);
    }
    var session := found.value;
    var related := VectorStore.Search(db, encode, distance, query, VectorStore.DefaultK);
    if related.Failure? {
      return Failure(related.error);
    }
    r := Ask(session, related.value, complete, fromString, query, contextId);
  }
}
