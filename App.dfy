/**
 * The keyword reply rule of the polling bot and the way it decides, per chat
 * type, whether and on what text to apply it.  Sending the reply is left out.
 */
module App {
  import opened Wrappers
  import opened PyStr

  /** The bot's mention tag in group chats. */
  const BotName := "@gpt123bot"

  const Greeting := "Nice to meet you"
  const HappyReply := "happy to meet you too"
  const DefaultReply := "I don't understand"

  /** The keyword classifier: "hello" is looked for first, then "happy", in the lowered text. */
  function HandleResponse(msg: string): (r: string)
    ensures r == Greeting || r == HappyReply || r == DefaultReply
  {
    var lowered := Lower(msg);
    if Contains(lowered, "hello") then Greeting
    else if Contains(lowered, "happy") then HappyReply
    else DefaultReply
  }

  /**
   * Each of the three replies is given exactly when its condition holds:
   * "hello" anywhere wins, even beside "happy"; "happy" counts only without
   * "hello"; the default is for text with neither.
   */
  lemma HandleResponseCases(msg: string)
    ensures HandleResponse(msg) == Greeting <==> Contains(Lower(msg), "hello")
    ensures HandleResponse(msg) == HappyReply
      <==> !Contains(Lower(msg), "hello") && Contains(Lower(msg), "happy")
    ensures HandleResponse(msg) == DefaultReply
      <==> !Contains(Lower(msg), "hello") && !Contains(Lower(msg), "happy")
  {
  }

  /** The classifier does not see letter case: classifying the lowered text gives the same reply. */
  lemma HandleResponseIgnoresCase(msg: string)
    ensures HandleResponse(msg) == HandleResponse(Lower(msg))
  {
    LowerIdempotent(msg);
  }

  /** Two messages that differ only in the case of their letters get the same reply. */
  lemma HandleResponseSameUpToCase(a: string, b: string)
    requires Lower(a) == Lower(b)
    ensures HandleResponse(a) == HandleResponse(b)
  {
    HandleResponseIgnoresCase(a);
    HandleResponseIgnoresCase(b);
  }

  /**
   * The routing of an incoming text: in a "group" chat the bot answers only
   * when mentioned, and classifies the text with every mention removed and
   * surrounding whitespace stripped; in any other chat it classifies the raw
   * text.  `None` means no reply is sent, which happens exactly for a group
   * message without the mention; any reply is one of the three fixed ones.
   */
  function HandleMessage(msgType: string, msg: string): (reply: Option<string>)
    ensures reply.None? <==> msgType == "group" && !Contains(msg, BotName)
    ensures reply.Some? ==> reply.value in {Greeting, HappyReply, DefaultReply}
  {
    if msgType == "group" then
      if Contains(msg, BotName) then Some(HandleResponse(Strip(RemoveAll(msg, BotName))))
      else None
    else Some(HandleResponse(msg))
  }

  /**
   * A group message that mentions the bot is answered by classifying a
   * cleaned text that is shorter by at least the mention and has no
   * whitespace at either end.
   */
  lemma HandleMessageGroupMention(msg: string)
    requires Contains(msg, BotName)
    ensures var cleaned := Strip(RemoveAll(msg, BotName));
      HandleMessage("group", msg) == Some(HandleResponse(cleaned))
      && |cleaned| <= |msg| - |BotName|
      && (cleaned == [] || (!IsSpace(cleaned[0]) && !IsSpace(cleaned[|cleaned| - 1])))
  {
    var removed := RemoveAll(msg, BotName);
    RemoveAllShrinks(msg, BotName);
    StripSpec(removed);
  }

  /** Outside a group chat the raw text is classified, mention and whitespace included. */
  lemma HandleMessageNonGroup(msgType: string, msg: string)
    requires msgType != "group"
    ensures HandleMessage(msgType, msg) == Some(HandleResponse(msg))
  {
  }

  /** A group message with the mention anywhere in it always gets a reply. */
  lemma GroupMentionAnswered(before: string, after: string)
    ensures HandleMessage("group", before + BotName + after).Some?
  {
    ContainsInfix(before, BotName, after);
  }

  /**
   * A group message made of the mention followed by text without one is
   * answered by classifying that text with its surrounding whitespace removed.
   */
  lemma GroupMentionThenText(text: string)
    requires !Contains(text, BotName)
    ensures HandleMessage("group", BotName + text) == Some(HandleResponse(Strip(text)))
  {
    var msg := BotName + text;
    assert BotName <= msg;
    assert msg[|BotName|..] == text;
    RemoveAllAbsent(text, BotName);
  }

  /**
   * Deleting mentions is a single left-to-right pass, so a mention split by
   * another mention survives: the cleaned text can still hold the tag.
   */
  lemma CleanedTextMayStillMention()
    ensures RemoveAll("@gpt12" + BotName + "3bot", BotName) == BotName
  {
    var a, b := "@gpt12", "3bot";
    forall i | 0 <= i < |a| ensures !(BotName <= a[i..] + BotName + b) {
      assert (a[i..] + BotName + b)[|a| - i] == '@';
    }
    RemoveAllAround(a, BotName, b);
    ContainsIff(b, BotName);
    RemoveAllAbsent(b, BotName);
  }
}
