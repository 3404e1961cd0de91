/**
 * The conversation handler behind the WhatsApp bridge: per-sender history kept in
 * memory, slash commands, and one completion call per ordinary message.
 */
module ClaudeConversation {
  import opened Wrappers
  import opened JsString

  /** The most turns handed to the completion service: 20 exchanges of two turns. */
  const MAX_HISTORY: nat := 40

  const HELP_TEXT: string :=
    "*ClaudBot \U{2014} LitigationForce AI Assistant*\n\n"
    + "Send me any message and I'll respond using Claude.\n\n"
    + "Commands:\n"
    + "/help \U{2014} Show this help message\n"
    + "/reset \U{2014} Clear conversation history and start fresh"
  const RESET_REPLY: string := "Conversation cleared. Send me a new message to start fresh."
  const NOT_CONFIGURED_REPLY: string := "ClaudBot is not configured yet. ANTHROPIC_API_KEY is missing."
  const NO_TEXT_REPLY: string := "I could not generate a response."
  const ERROR_REPLY: string := "Sorry, I encountered an error. Please try again shortly."

  datatype Role = User | Assistant

  /** One turn of a conversation. */
  datatype Message = Message(role: Role, content: string)

  /** One block of a completion's content. */
  datatype ContentBlock = TextBlock(text: string) | OtherBlock

  /** What the completion call gives back: a response, or an exception. */
  datatype Completion = Response(content: seq<ContentBlock>) | Thrown

  // ---------------------------------------------------------------------------
  // Commands

  /** The text as the command check sees it: trimmed and lower-cased. */
  function Normalised(text: string): string {
    ToLowerCase(Trim(text))
  }

  predicate IsResetCommand(text: string) {
    Normalised(text) == "/reset" || Normalised(text) == "/clear"
  }

  predicate IsHelpCommand(text: string) {
    Normalised(text) == "/help" || Normalised(text) == "/start"
  }

  /** `trim` removes exactly the whitespace around a text that starts and ends with other characters. */
  lemma TrimRemovesSurroundingSpace(leading: string, command: string, trailing: string)
    requires AllWhitespace(leading) && AllWhitespace(trailing)
    requires command != [] && !IsWhitespace(command[0]) && !IsWhitespace(command[|command| - 1])
    ensures Trim(leading + command + trailing) == command
  {
    var text := leading + command + trailing;
    assert text[..|leading|] == leading;
    assert text[|leading|] == command[0];
    TrimStartStopsAt(text, |leading|);
    var rest := text[|leading|..];
    assert rest == command + trailing;
    assert rest[|command|..] == trailing;
    assert rest[|command| - 1] == command[|command| - 1];
    TrimEndStopsAt(rest, |command|);
    assert rest[..|command|] == command;
  }

  /**
   * Whitespace around a command does not hide it: the command check sees the
   * lower-cased text between the surrounding whitespace, whatever its case, and
   * since `IsResetCommand` and `IsHelpCommand` look only at `Normalised`, they
   * answer the same with or without that whitespace.
   */
  lemma CommandsIgnoreSurroundingSpace(leading: string, command: string, trailing: string)
    requires AllWhitespace(leading) && AllWhitespace(trailing)
    requires command != [] && !IsWhitespace(command[0]) && !IsWhitespace(command[|command| - 1])
    ensures Normalised(leading + command + trailing) == ToLowerCase(command)
    ensures Normalised(leading + command + trailing) == Normalised(command)
  {
    TrimRemovesSurroundingSpace(leading, command, trailing);
    assert [] + command + [] == command;
    TrimRemovesSurroundingSpace([], command, []);
  }

  /** `" /RESET\n"` is a reset command. */
  lemma ResetCommandExample(text: string)
    requires text == " /RESET\n"
    ensures IsResetCommand(text)
  {
    assert text == " " + "/RESET" + "\n";
    CommandsIgnoreSurroundingSpace(" ", "/RESET", "\n");
    var lower := ToLowerCase("/RESET");
    assert lower == "/reset";
  }

  // ---------------------------------------------------------------------------
  // History trimming

  /** The history after `trimHistory`: the oldest turn is shifted off while it is too long. */
  function Trimmed(history: seq<Message>): seq<Message>
    decreases |history|
  {
    if |history| > MAX_HISTORY then Trimmed(history[1..]) else history
  }

  /** Trimming keeps the newest `min(n, MAX_HISTORY)` turns, in their order, and nothing else. */
  lemma {:induction false} TrimmedKeepsNewest(history: seq<Message>)
    ensures |Trimmed(history)| == if |history| <= MAX_HISTORY then |history| else MAX_HISTORY
    ensures Trimmed(history) == history[|history| - |Trimmed(history)|..]
    decreases |history|
  {
    if |history| > MAX_HISTORY {
      TrimmedKeepsNewest(history[1..]);
      assert history[1..][|history| - 1 - |Trimmed(history)|..] == history[|history| - |Trimmed(history)|..];
    }
  }

  /** `trimHistory(history)`: shifts the oldest turn off until at most `MAX_HISTORY` are left. */
  method TrimHistory(history: seq<Message>) returns (trimmed: seq<Message>)
    ensures trimmed == Trimmed(history)
    ensures |history| <= MAX_HISTORY ==> trimmed == history
    ensures |history| > MAX_HISTORY ==> trimmed == history[|history| - MAX_HISTORY..]
  {
    trimmed := history;
    while |trimmed| > MAX_HISTORY
      invariant Trimmed(trimmed) == Trimmed(history)
      invariant |trimmed| <= |history| && trimmed == history[|history| - |trimmed|..]
      invariant |history| > MAX_HISTORY ==> |trimmed| >= MAX_HISTORY
      decreases |trimmed|
    {
      trimmed := trimmed[1..];
    }
  }

  // ---------------------------------------------------------------------------
  // The completion call

  /**
   * The reply taken from a completion: the first block's text, or the fixed
   * fallback when that block is not text; None when the call threw, or when the
   * content is empty and reading its first block throws.
   */
  function ReplyOf(completion: Completion): (reply: Option<string>)
    ensures reply.None? <==> completion.Thrown? || completion.content == []
  {
    match completion
    case Thrown => None
    case Response(content) =>
      if content == [] then None
      else match content[0]
        case TextBlock(t) => Some(t)
        case OtherBlock => Some(NO_TEXT_REPLY)
  }

  /**
   * The history handed to the completion call for `text` from `senderId`: the
   * stored history (empty for a new sender) with the user turn appended, trimmed.
   */
  function Context(conversations: map<string, seq<Message>>, senderId: string, text: string): seq<Message> {
    var stored := if senderId in conversations then conversations[senderId] else [];
    Trimmed(stored + [Message(User, text)])
  }

  /**
   * The completion call never sees more than `MAX_HISTORY` turns; the last one
   * is the user's message as received, and the rest are the newest stored turns.
   */
  lemma ContextShape(conversations: map<string, seq<Message>>, senderId: string, text: string)
    ensures var context := Context(conversations, senderId, text);
      var stored := if senderId in conversations then conversations[senderId] else [];
      && 1 <= |context| <= MAX_HISTORY
      && context[|context| - 1] == Message(User, text)
      && context[..|context| - 1] == stored[|stored| + 1 - |context|..]
  {
    var stored := if senderId in conversations then conversations[senderId] else [];
    var appended := stored + [Message(User, text)];
    TrimmedKeepsNewest(appended);
    var context := Context(conversations, senderId, text);
    assert context == appended[|appended| - |context|..];
    assert context[..|context| - 1] == appended[|appended| - |context|..|appended| - 1];
  }

  /**
   * The assistant turn is appended without trimming again, so a stored history
   * reaches `MAX_HISTORY + 1` turns once a sender has `MAX_HISTORY` stored.
   */
  lemma StoredHistoryReachesOneOverMax(conversations: map<string, seq<Message>>, senderId: string, text: string, reply: string)
    requires senderId in conversations && |conversations[senderId]| >= MAX_HISTORY
    ensures |Context(conversations, senderId, text) + [Message(Assistant, reply)]| == MAX_HISTORY + 1
  {
    TrimmedKeepsNewest(conversations[senderId] + [Message(User, text)]);
  }

  // ---------------------------------------------------------------------------
  // The store

  /** No stored history is longer than one assistant turn past `MAX_HISTORY`. */
  ghost predicate Bounded(conversations: map<string, seq<Message>>) {
    forall s :: s in conversations ==> |conversations[s]| <= MAX_HISTORY + 1
  }

  lemma BoundedUpdate(conversations: map<string, seq<Message>>, senderId: string, history: seq<Message>)
    requires Bounded(conversations) && |history| <= MAX_HISTORY + 1
    ensures Bounded(conversations[senderId := history])
  {
  }

  lemma BoundedRemove(conversations: map<string, seq<Message>>, senderId: string)
    requires Bounded(conversations)
    ensures Bounded(conversations - {senderId})
  {
  }

  /** The module-level `conversations` map and the functions that use it. */
  class ConversationStore {
    var conversations: map<string, seq<Message>>

    ghost predicate Valid()
      reads this
    {
      Bounded(conversations)
    }

    constructor ()
      ensures Valid() && conversations == map[]
    {
      conversations := map[];
    }

    /** `getHistory(senderId)`: the sender's history, created empty on first use. */
    method GetHistory(senderId: string) returns (history: seq<Message>)
      modifies this
      ensures senderId in old(conversations) ==> history == old(conversations)[senderId] && conversations == old(conversations)
      ensures senderId !in old(conversations) ==> history == [] && conversations == old(conversations)[senderId := []]
      ensures old(Valid()) ==> Valid()
    {
      if senderId !in conversations {
        if Valid() {
          BoundedUpdate(conversations, senderId, []);
        }
        conversations := conversations[senderId := []];
      }
      history := conversations[senderId];
    }

    /**
     * `handleMessage(senderId, text)`, with the API key as a parameter and
     * `complete` standing for the completion service's answer to a history.
     */
    method HandleMessage(senderId: string, text: string, apiKey: Option<string>,
                         complete: seq<Message> -> Completion) returns (reply: string)
      modifies this
      ensures IsResetCommand(text) ==>
        reply == RESET_REPLY && conversations == old(conversations) - {senderId}
      ensures !IsResetCommand(text) && IsHelpCommand(text) ==>
        reply == HELP_TEXT && conversations == old(conversations)
      ensures !IsResetCommand(text) && !IsHelpCommand(text) && !Truthy(apiKey) ==>
        reply == NOT_CONFIGURED_REPLY && conversations == old(conversations)
      ensures !IsResetCommand(text) && !IsHelpCommand(text) && Truthy(apiKey) ==>
        var context := Context(old(conversations), senderId, text);
        match ReplyOf(complete(context))
        case None =>
          reply == ERROR_REPLY && conversations == old(conversations)[senderId := context]
        case Some(r) =>
          reply == r && conversations == old(conversations)[senderId := context + [Message(Assistant, r)]]
      ensures old(Valid()) ==> Valid()
    {
      if IsResetCommand(text) {
        if Valid() {
          BoundedRemove(conversations, senderId);
        }
        conversations := conversations - {senderId};
        return RESET_REPLY;
      }
      if IsHelpCommand(text) {
        return HELP_TEXT;
      }

      if !Truthy(apiKey) {
        return NOT_CONFIGURED_REPLY;
      }

      ghost var before := conversations;
      ghost var wasValid := Valid();
      var history := GetHistory(senderId);
      history := history + [Message(User, text)];
      history := TrimHistory(history);
      assert history == Context(before, senderId, text);
      if wasValid {
        BoundedUpdate(conversations, senderId, history);
      }
      // the stored array is the one pushed to and trimmed in place
      conversations := conversations[senderId := history];

      var completion := complete(history);
      match ReplyOf(completion)
      case None =>
        reply := ERROR_REPLY;
      case Some(r) =>
        history := history + [Message(Assistant, r)];
        if wasValid {
          BoundedUpdate(conversations, senderId, history);
        }
        conversations := conversations[senderId := history];
        reply := r;
    }
  }
}
