/** The chat sessions: an `LLMSession` holds one conversation's message
    history, which starts with the system prompt and grows by the grounding
    text, the user's message and the model's reply on every turn; an
    `LLMHandler` is the registry of sessions, looked up by id. The Mistral
    completion call is the parameter `complete`, the Markdown-to-text
    conversion of the reply the parameter `fromString`, and the session id
    (a UUID in the program) and the settings are parameters. */
module Llm {
  import opened Wrappers
  import opened Models
  import opened Strings

  /** What Python reports for `ParseMD.from_string`, which the Markdown
      parser class does not define. */
  const NoFromString := "type object 'ParseMD' has no attribute 'from_string'"

  /** The default `model` of `LLMSession`. */
  const DefaultModel := "mistral-small-latest"

  /** What the completion call returns: no choices, or the first choice's
      message content. */
  datatype Completion = NoChoices | Reply(content: string)

  /** The messages one turn adds before the model is called: the grounding
      text as a system message when it is neither None nor "", then the
      user's message. */
  function Prompt(message: string, ragContext: Option<string>): (r: seq<Message>)
    ensures |r| == if Truthy(ragContext) then 2 else 1
    ensures r[|r| - 1] == User(message)
    ensures Truthy(ragContext) ==> r[0] == System(ragContext.value)
  {
    (if Truthy(ragContext) then [System(ragContext.value)] else []) + [User(message)]
  }

  /** The history after one `chat` turn on `history`, given what the model
      returned. */
  function AfterChat(history: seq<Message>, message: string, ragContext: Option<string>, completion: Completion): (r: seq<Message>)
    ensures |history| < |r| && r[..|history|] == history
    ensures completion.NoChoices? ==> |r| == |history| + (if Truthy(ragContext) then 2 else 1) && r[|r| - 1] == User(message)
    ensures completion.Reply? ==> |r| == |history| + (if Truthy(ragContext) then 3 else 2)
                                  && r[|r| - 1] == Assistant(completion.content)
                                  && r[|r| - 2] == User(message)
    ensures Truthy(ragContext) ==> r[|history|] == System(ragContext.value)
  {
    var sent := history + Prompt(message, ragContext);
    assert sent[..|history|] == history;
    match completion
    case NoChoices => sent
    case Reply(content) =>
      assert (sent + [Assistant(content)])[..|history|] == history;
      sent + [Assistant(content)]
  }

  /** A history that begins with the system prompt still does after a turn. */
  lemma AfterChatKeepsPrompt(history: seq<Message>, systemPrompt: string, message: string,
                             ragContext: Option<string>, completion: Completion)
    requires |history| >= 1 && history[0] == System(systemPrompt)
    ensures AfterChat(history, message, ragContext, completion)[0] == System(systemPrompt)
  {
    var r := AfterChat(history, message, ragContext, completion);
    assert r[..|history|][0] == r[0];
  }

  /** The legacy entry of `build_rag_context`, which prints the chunk's
      `source_name` and `source_categorie` fields as f-strings do. */
  function LegacyEntry(c: Chunk): string
  {
    "> " + Show(c.sourceName) + " (" + Show(c.sourceCategorie) + ")" + "\n..." + c.content + "..."
  }

  function LegacyEntries(chunks: seq<Chunk>): (r: seq<string>)
    ensures |r| == |chunks| && forall p :: 0 <= p < |chunks| ==> r[p] == LegacyEntry(chunks[p])
  {
    seq(|chunks|, p requires 0 <= p < |chunks| => LegacyEntry(chunks[p]))
  }

  /** `build_rag_context`: one entry per chunk, sourced or not, joined by
      "\n\n"; no chunks give "". */
  function BuildRagContext(chunks: seq<Chunk>): (r: string)
    ensures chunks == [] ==> r == ""
    ensures |chunks| == 1 ==> r == LegacyEntry(chunks[0])
  {
    Join("\n\n", LegacyEntries(chunks))
  }

  /** `build_rag_context` of a concatenation is the two renderings with one
      blank line between them. */
  lemma BuildRagContextAppend(a: seq<Chunk>, b: seq<Chunk>)
    requires a != [] && b != []
    ensures BuildRagContext(a + b) == BuildRagContext(a) + "\n\n" + BuildRagContext(b)
  {
    assert LegacyEntries(a + b) == LegacyEntries(a) + LegacyEntries(b);
    JoinAppend("\n\n", LegacyEntries(a), LegacyEntries(b));
  }

  /** The length of `build_rag_context`: every entry plus two characters per gap. */
  lemma BuildRagContextLength(chunks: seq<Chunk>)
    requires chunks != []
    ensures |BuildRagContext(chunks)| == SumLengths(LegacyEntries(chunks)) + 2 * (|chunks| - 1)
  {
    JoinLength("\n\n", LegacyEntries(chunks));
  }

  class LLMSession {
    const id: string
    const systemPrompt: string
    const modelName: string
    var messages: seq<Message>

    /** The history always starts with the system prompt. */
    ghost predicate Valid()
      reads this
    {
      |messages| >= 1 && messages[0] == System(systemPrompt)
    }

    /** The part of `__init__` after the API key check: the history is just
        the system prompt (`__init_messages`). */
    constructor (id: string, systemPrompt: string, modelName: string)
      ensures this.id == id && this.systemPrompt == systemPrompt && this.modelName == modelName
      ensures messages == [System(systemPrompt)]
      ensures Valid()
    {
      this.id := id;
      this.systemPrompt := systemPrompt;
      this.modelName := modelName;
      messages := [System(systemPrompt)];
    }

    /** `LLMSession(model)`: refused when the API key is empty, otherwise a
        new session whose history is exactly the system prompt. */
    static method Create(id: string, apiKey: string, systemPrompt: string, modelName: string)
      returns (r: Result<LLMSession, Error>)
      ensures r.Failure? <==> apiKey == ""
      ensures r.Failure? ==> r.error == MissingAPIKeyError("MISTRAL_API_KEY not found in environment variables")
      ensures r.Success? ==> && fresh(r.value) && r.value.Valid()
                             && r.value.id == id && r.value.modelName == modelName
                             && r.value.systemPrompt == systemPrompt
                             && r.value.messages == [System(systemPrompt)]
    {
      if apiKey == "" {
        return Failure(MissingAPIKeyError("MISTRAL_API_KEY not found in environment variables"));
      }
      var session := new LLMSession(id, systemPrompt, modelName);
      return Success(session);
    }

    /** `chat`: appends the grounding text (when non-empty) and the user's
        message, sends the whole history to the model, and on a reply appends
        the assistant's message and returns the reply converted to text. With
        no choices it fails, and the messages already appended stay. */
    method Chat(message: string, ragContext: Option<string>,
                complete: seq<Message> -> Completion, fromString: string -> string)
      returns (r: Result<string, Error>)
      requires Valid()
      modifies this
      ensures Valid()
      ensures var sent := old(messages) + Prompt(message, ragContext);
              messages == AfterChat(old(messages), message, ragContext, complete(sent))
              && r == match complete(sent)
                      case NoChoices => Failure(ValueError("Invalid response from Mistral API"))
                      case Reply(content) => Success(fromString(content))
    {
      ghost var history := messages;
      if Truthy(ragContext) {
        messages := messages + [System(ragContext.value)];
      }
      messages := messages + [User(message)];
      assert messages == history + Prompt(message, ragContext);
      var response := complete(messages);
      if response.NoChoices? {
        AfterChatKeepsPrompt(history, systemPrompt, message, ragContext, response);
        return Failure(ValueError("Invalid response from Mistral API"));
      }
      messages := messages + [Assistant(response.content)];
      AfterChatKeepsPrompt(history, systemPrompt, message, ragContext, response);
      return Success(fromString(response.content));
    }

    /** `chat` as it stands: `ParseMD` has no `from_string`, so after the
        reply has been appended to the history the conversion raises
        AttributeError, and no reply is ever returned. */
    method ChatAsWritten(message: string, ragContext: Option<string>, complete: seq<Message> -> Completion)
      returns (r: Result<string, Error>)
      requires Valid()
      modifies this
      ensures Valid()
      ensures var sent := old(messages) + Prompt(message, ragContext);
              messages == AfterChat(old(messages), message, ragContext, complete(sent))
              && r == match complete(sent)
                      case NoChoices => Failure(ValueError("Invalid response from Mistral API"))
                      case Reply(_) => Failure(AttributeError(NoFromString))
    {
      ghost var history := messages;
      if Truthy(ragContext) {
        messages := messages + [System(ragContext.value)];
      }
      messages := messages + [User(message)];
      assert messages == history + Prompt(message, ragContext);
      var response := complete(messages);
      AfterChatKeepsPrompt(history, systemPrompt, message, ragContext, response);
      if response.NoChoices? {
        return Failure(ValueError("Invalid response from Mistral API"));
      }
      messages := messages + [Assistant(response.content)];
      return Failure(AttributeError(NoFromString));
    }

    /** `clear_messages`: the history is the system prompt alone again,
        whatever it held. */
    method ClearMessages()
      modifies this
      ensures messages == [System(systemPrompt)]
      ensures Valid()
    {
      messages := [System(systemPrompt)];
    }
  }

  /** The position of the first session with the given id, as the loop of
      `get_session` finds it. */
  function Find(sessions: seq<LLMSession>, id: string): (r: Option<nat>)
    ensures r.Some? ==> r.value < |sessions| && sessions[r.value].id == id
                        && forall k :: 0 <= k < r.value ==> sessions[k].id != id
    ensures r.None? <==> forall s :: s in sessions ==> s.id != id
    decreases |sessions|
  {
    if sessions == [] then None
    else if sessions[0].id == id then Some(0)
    else
      var rest := Find(sessions[1..], id);
      assert forall s :: s in sessions ==> s == sessions[0] || s in sessions[1..];
      if rest.None? then None else Some(rest.value + 1)
  }

  /** A session added with an id no other session has is found at the end;
      every other lookup is unchanged. */
  lemma {:induction false} FindAfterAppend(sessions: seq<LLMSession>, s: LLMSession, id: string)
    ensures Find(sessions + [s], id) ==
              if Find(sessions, id).Some? then Find(sessions, id)
              else if s.id == id then Some(|sessions|)
              else None
    decreases |sessions|
  {
    if sessions == [] {
      assert [s][1..] == [];
    } else {
      assert (sessions + [s])[1..] == sessions[1..] + [s];
      FindAfterAppend(sessions[1..], s, id);
    }
  }

  class LLMHandler {
    var sessions: seq<LLMSession>

    /** Every registered session's history starts with its system prompt. */
    ghost predicate Valid()
      reads this, sessions
    {
      forall s :: s in sessions ==> s.Valid()
    }

    constructor ()
      ensures sessions == [] && Valid()
    {
      sessions := [];
    }

    /** `get_session`: the first session with the id, or IndexError. */
    method GetSession(id: string) returns (r: Result<LLMSession, Error>)
      ensures Find(sessions, id).None? ==> r == Failure(IndexError)
      ensures Find(sessions, id).Some? ==> r == Success(sessions[Find(sessions, id).value])
    {
      var k := 0;
      while k < |sessions|
        invariant 0 <= k <= |sessions|
        invariant forall j :: 0 <= j < k ==> sessions[j].id != id
      {
        if sessions[k].id == id {
          return Success(sessions[k]);
        }
        k := k + 1;
      }
      return Failure(IndexError);
    }

    /** `create_session`: builds a new session and appends it to the registry;
        when the API key is missing nothing is appended. */
    method CreateSession(id: string, apiKey: string, systemPrompt: string) returns (r: Result<LLMSession, Error>)
      modifies this
      ensures old(Valid()) ==> Valid()
      ensures r.Failure? <==> apiKey == ""
      ensures r.Failure? ==> r.error == MissingAPIKeyError("MISTRAL_API_KEY not found in environment variables")
                             && sessions == old(sessions)
      ensures r.Success? ==> && fresh(r.value) && sessions == old(sessions) + [r.value]
                             && r.value.id == id && r.value.modelName == DefaultModel
                             && r.value.messages == [System(systemPrompt)] && r.value.Valid()
    {
      r := LLMSession.Create(id, apiKey, systemPrompt, DefaultModel);
      if r.Success? {
        sessions := sessions + [r.value];
      }
    }

    /** `clear_session`: resets the history of the session `get_session`
        finds; every other session keeps its own history. An unknown id
        raises IndexError and changes nothing. */
    method ClearSession(id: string) returns (r: Outcome<Error>)
      modifies set s | s in sessions
      ensures old(Valid()) ==> Valid()
      ensures r.Fail? <==> Find(sessions, id).None?
      ensures r.Fail? ==> r.error == IndexError
      ensures r.Pass? ==> var target := sessions[Find(sessions, id).value];
                          target.messages == [System(target.systemPrompt)]
      ensures forall s :: s in sessions && (r.Fail? || s != sessions[Find(sessions, id).value]) ==>
                s.messages == old(s.messages)
    {
      var found := GetSession(id);
      if found.Failure? {
        return Fail(found.error);
      }
      found.value.ClearMessages();
      return Pass;
    }
  }
}
