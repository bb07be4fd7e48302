# teleGPT core, modelled in Dafny

This project models the two pieces of logic in the teleGPT Telegram bot:

- **The conversation transcript of the `ChatGPT` wrapper** (`ModelOpenAI.dfy`). One object holds a
  model name and a message list. The list starts as the single system message
  `{system, "You are a helpful assistant."}`, and every turn replays the whole list to the chat
  completion service. The class `ModelOpenAI.ChatGPT` has the fields `model`, `messages` and
  `response`, and one method per operation of the source. The completion service is an oracle
  parameter `complete: Request -> Option<string>`. A `Request` records the model, the full
  transcript, the temperature and the `max_tokens` cap (absent on the text path, 400 on the image
  path). `None` stands for a call that raised. Each turn is specified by the function `Turn`, and
  the lemmas about `Turn` state the transcript properties: the persona stays first, a success adds
  exactly user then assistant, a failure adds only the user message, and earlier entries are kept.
- **The keyword reply rule and group-mention routing of the polling bot** (`App.dfy`).
  `App.HandleResponse` is the case-insensitive keyword classifier. `App.HandleMessage` is the
  routing: no reply in a group chat without the mention; in a group chat with the mention, the
  classified text has every `@gpt123bot` deleted and is then stripped; in any other chat, the raw
  text is classified.
- `PyStr.dfy` models the Python string operations these rely on, on ASCII: `str.lower`, `in`,
  `str.replace(p, '')` and `str.strip`. `Wrappers.dfy` holds the `Option` type.

## Model

| member | source | states |
|---|---|---|
| PyStr.LowerChar | app.py:35 | an upper-case ASCII letter becomes the same letter in lower case (its code plus 32); every other character is kept |
| PyStr.Lower | app.py:35 | `msg.lower()` keeps the length and lowers each character independently |
| PyStr.LowerIdempotent | app.py:35 | lowering an already lowered text changes nothing |
| PyStr.Contains | app.py:37-41 | `sub in s`: the empty string occurs in every string, and a string that occurs is no longer than `s` |
| PyStr.ContainsIff | app.py:37-41 | `sub in s` holds exactly when `sub` is a prefix of some suffix of `s`, in both directions |
| PyStr.ContainsInfix | app.py:58 | a string built as `a + sub + b` contains `sub` |
| PyStr.RemoveAll | app.py:59 | `replace(pat, '')` never lengthens the text |
| PyStr.RemoveAllAbsent | app.py:59 | `replace` leaves a text without the pattern unchanged |
| PyStr.RemoveAllShrinks | app.py:58-59 | if the pattern occurs, at least one whole copy of it is removed |
| PyStr.RemoveAllAround | app.py:59 | if `a` holds no match, removal from `a + pat + b` keeps `a` and continues on `b` (left-to-right, non-overlapping scan) |
| PyStr.IsSpace | app.py:59 | the whitespace set of `strip()`: space, tab, newline and carriage return are in it, and every member is at or below space (32) |
| PyStr.TrimLeft | app.py:59 | the result is a suffix, the dropped prefix is all whitespace, and the result does not start with whitespace |
| PyStr.TrimRight | app.py:59 | the result is a prefix, the dropped suffix is all whitespace, and the result does not end with whitespace |
| PyStr.Strip | app.py:59 | `strip()` never lengthens the text, and its result has no whitespace at either end |
| PyStr.StripSpec | app.py:59 | the input is the `strip()` output with only whitespace before and after it |
| PyStr.StripIdempotent | app.py:59 | stripping twice gives the same text as stripping once |
| App.HandleResponse | app.py:34-46 | the reply is always one of the three fixed strings |
| App.HandleResponseCases | app.py:34-46 | "Nice to meet you" iff the lowered text has "hello" (so "hello" wins over "happy"); "happy to meet you too" iff it has "happy" but not "hello"; "I don't understand" iff it has neither |
| App.HandleResponseIgnoresCase | app.py:35 | `handle_response(msg) == handle_response(msg.lower())` |
| App.HandleResponseSameUpToCase | app.py:35 | two messages equal up to letter case get the same reply |
| App.HandleMessage | app.py:57-65 | no reply exactly when the chat type is "group" and `@gpt123bot` does not occur in the text, in both directions; every reply sent is one of the three fixed strings |
| App.GroupMentionAnswered | app.py:57-60 | a group message with `@gpt123bot` anywhere in it always gets a reply |
| App.HandleMessageGroupMention | app.py:57-60 | with the mention present in a group, the reply classifies the mention-free, stripped text, which is shorter than the message by at least the mention and has no whitespace at either end |
| App.HandleMessageNonGroup | app.py:63-65 | in any chat type other than "group", the reply classifies the unmodified text |
| App.GroupMentionThenText | app.py:57-60 | a group message `@gpt123bot` + text, where the text holds no mention, is answered by classifying that text with its surrounding whitespace stripped |
| App.CleanedTextMayStillMention | app.py:59 | one removal pass can expose a new mention: "@gpt12@gpt123bot3bot" cleans to "@gpt123bot" |
| ModelOpenAI.PersonaFirst | model_openai.py:16 | the transcript invariant (`ChatGPT.Valid`): the list is non-empty and index 0 is a system message, namely the persona message |
| ModelOpenAI.Turn | model_openai.py:57-65 | one turn appends the user message and then, only when the call returned, the assistant reply: the length grows by 2 or 1, earlier entries are kept, the user message comes right after them, and a transcript with the persona first keeps it first |
| ModelOpenAI.TurnSucceeded | model_openai.py:57-65 | a successful turn takes the length from N to N+2, with element N the user message, element N+1 the assistant reply and elements 0..N-1 unchanged |
| ModelOpenAI.TurnFailed | model_openai.py:57-58 | a failed call takes the length from N to N+1, ending with the user message, with no assistant message and earlier entries unchanged |
| ModelOpenAI.ChatGPT.constructor | model_openai.py:12-16 | a fresh object has the given model ("gpt-3.5-turbo" by default) and a transcript of exactly the system persona message |
| ModelOpenAI.ChatGPT.GetModel | model_openai.py:19-29 | the getter returns the current model name |
| ModelOpenAI.ChatGPT.SetModel | model_openai.py:32-34 | after the setter, the model is the new name and the transcript and last response are unchanged |
| ModelOpenAI.ChatGPT.ClearMessages | model_openai.py:36-41 | whatever the prior length, the transcript becomes exactly the system persona message; the model is unchanged |
| ModelOpenAI.ChatGPT.HandleResponse | model_openai.py:43-66 | the service receives the current model, the full transcript including the new user message, temperature 0 and no token cap; the transcript becomes `Turn(old, user, reply)` and the persona invariant is kept |
| ModelOpenAI.ChatGPT.HandleResponseWithImage | model_openai.py:68-102 | the user message is `[text part, image-URL part]` in that order; the call uses the same model, the full transcript, temperature 0 and `max_tokens` 400; the transcript update and the failure case are as on the text path; the model does not change |

## Left out

- The OpenAI client has no model. The environment loading (`load_dotenv`), the API key, `print`, and the network call `chat.completions.create` are not modelled. The call is the oracle `complete`, whose reply string stands for `choices[0].message.content`.
- ModelOpenAI.ChatGPT.HandleResponse: a reply whose content is `None` would be stored as the text "None" by the f-string. The oracle returns a string, so this case is not modelled.
- The `response` field holds only the reply text, not the whole API response object.
- A failed call is `None` from the oracle, not a raised exception. The model reproduces what the Python statement order leaves behind: the user message stays appended and `_response` keeps its old value.
- Python's `str.lower` and `str.strip` are modelled on ASCII only. `lower` maps A-Z. `strip` drops the characters Python's `isspace` accepts below 128 (9-13, 28-31 and space). Non-ASCII case mapping and whitespace are not modelled.
- PyStr.RemoveAll requires a non-empty pattern. Python's `replace` with an empty pattern inserts between characters, but the only pattern used is the constant `@gpt123bot`.
- The Telegram wiring in app.py is not modelled. That covers the `Application` builder and polling, the command handlers (`start`, `help`, `custom`), the error printer, the debug `print`s and the `reply_text` send. `HandleMessage` returns the reply it would send.
- mytelebot.py (a Flask/webhook echo bot) and web_app/photo_selection.js (browser UI) are not part of this model.
- model_openai.py keeps one transcript per `ChatGPT` object. It has no per-user store, no "model not selected" reply, no input validation and no locking, and `handle_response_with_image` does not switch the model; the model has none of these either.
