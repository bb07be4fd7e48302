/**
 * The conversation transcript kept by the `ChatGPT` wrapper.  The chat
 * completion service is an oracle passed to each turn: it maps the request
 * it is sent to a reply, or to `None` when the call raises.
 */
module ModelOpenAI {
  import opened Wrappers

  datatype Role = System | User | Assistant

  /** One part of a structured user message. */
  datatype Part = TextPart(text: string) | ImageUrlPart(imageUrl: string)

  /** A message's content: plain text, or an ordered list of parts. */
  datatype Content = Text(text: string) | Parts(parts: seq<Part>)

  datatype Message = Message(role: Role, content: Content)

  /** What one call of the completion service is given. */
  datatype Request = Request(
    model: string,
    messages: seq<Message>,
    temperature: int,
    maxTokens: Option<nat>)

  const Persona := "You are a helpful assistant."
  const DefaultModel := "gpt-3.5-turbo"
  /** The response-token cap of the image path; the text path sends none. */
  const ImageMaxTokens: nat := 400

  function SystemMessage(): Message {
    Message(System, Text(Persona))
  }

  function UserText(prompt: string): Message {
    Message(User, Text(prompt))
  }

  /** The two-part user message of the image path: the text first, then the image URL. */
  function UserImage(prompt: string, imageUrl: string): Message {
    Message(User, Parts([TextPart(prompt), ImageUrlPart(imageUrl)]))
  }

  function AssistantText(reply: string): Message {
    Message(Assistant, Text(reply))
  }

  /** The transcript invariant: never empty, and the persona message first. */
  predicate PersonaFirst(t: seq<Message>)
    ensures PersonaFirst(t) ==> t != [] && t[0].role == System
  {
    |t| >= 1 && t[0] == SystemMessage()
  }

  /**
   * The transcript after one turn: the user's message is always appended
   * (it goes in before the call), the assistant's reply only when the call
   * returned one.
   */
  function Turn(history: seq<Message>, user: Message, reply: Option<string>): (t: seq<Message>)
    ensures |t| == |history| + (if reply.Some? then 2 else 1)
    ensures t[..|history|] == history && t[|history|] == user
    ensures PersonaFirst(history) ==> PersonaFirst(t)
  {
    match reply
    case Some(r) => history + [user, AssistantText(r)]
    case None => history + [user]
  }

  /** A successful turn adds exactly two entries, user then assistant, and keeps every earlier entry. */
  lemma TurnSucceeded(history: seq<Message>, user: Message, reply: string)
    ensures var t := Turn(history, user, Some(reply));
      |t| == |history| + 2 && t[..|history|] == history
      && t[|history|] == user && t[|history| + 1] == AssistantText(reply)
  {
  }

  /** A failed turn adds only the user's entry and keeps every earlier entry. */
  lemma TurnFailed(history: seq<Message>, user: Message)
    ensures var t := Turn(history, user, None);
      |t| == |history| + 1 && t[..|history|] == history && t[|history|] == user
  {
  }

  class ChatGPT {
    /** The model name sent with every call. */
    var model: string
    /** The transcript replayed in full on every call. */
    var messages: seq<Message>
    /** The reply of the last call that returned; `None` before the first one. */
    var response: Option<string>

    predicate Valid()
      reads this
    {
      PersonaFirst(messages)
    }

    /** A fresh wrapper: the given model (by default "gpt-3.5-turbo") and the persona message alone. */
    constructor (model: string := DefaultModel)
      ensures Valid()
      ensures this.model == model && messages == [SystemMessage()] && response == None
    {
      this.model := model;
      messages := [SystemMessage()];
      response := None;
    }

    /** The `model` property read. */
    method GetModel() returns (m: string)
      ensures m == model
    {
      m := model;
    }

    /** The `model` property write: only the model name changes. */
    method SetModel(m: string)
      requires Valid()
      modifies this
      ensures Valid()
      ensures model == m && messages == old(messages) && response == old(response)
    {
      model := m;
    }

    /** Forgets the conversation: the persona message alone, whatever was there before. */
    method ClearMessages()
      modifies this
      ensures Valid()
      ensures messages == [SystemMessage()]
      ensures model == old(model) && response == old(response)
    {
      messages := [];
      messages := messages + [SystemMessage()];
    }

    /**
     * One text turn: the prompt is appended as a user message, the service
     * is called with the current model, the whole transcript and temperature
     * 0, and its reply is appended as an assistant message.  A failed call
     * (`None`) leaves the user message in place and nothing after it.
     */
    method HandleResponse(prompt: string, complete: Request -> Option<string>)
      returns (reply: Option<string>)
      requires Valid()
      modifies this
      ensures Valid()
      ensures reply == complete(Request(old(model), old(messages) + [UserText(prompt)], 0, None))
      ensures messages == Turn(old(messages), UserText(prompt), reply)
      ensures model == old(model)
      ensures response == if reply.Some? then reply else old(response)
    {
      messages := messages + [UserText(prompt)];
      var outcome := complete(Request(model, messages, 0, None));
      if outcome.None? {
        return None;
      }
      response := outcome;
      messages := messages + [AssistantText(outcome.value)];
      reply := outcome;
    }

    /**
     * One image turn: as a text turn, but the user message is the text part
     * followed by the image URL part, and the call caps the reply at 400
     * tokens.  The model is not switched.
     */
    method HandleResponseWithImage(prompt: string, imageUrl: string, complete: Request -> Option<string>)
      returns (reply: Option<string>)
      requires Valid()
      modifies this
      ensures Valid()
      ensures reply == complete(Request(old(model), old(messages) + [UserImage(prompt, imageUrl)], 0, Some(ImageMaxTokens)))
      ensures messages == Turn(old(messages), UserImage(prompt, imageUrl), reply)
      ensures model == old(model)
      ensures response == if reply.Some? then reply else old(response)
    {
      messages := messages + [UserImage(prompt, imageUrl)];
      var outcome := complete(Request(model, messages, 0, Some(ImageMaxTokens)));
      if outcome.None? {
        return None;
      }
      response := outcome;
      messages := messages + [AssistantText(outcome.value)];
      reply := outcome;
    }
  }
}
