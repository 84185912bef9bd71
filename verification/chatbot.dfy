/**
 * The chat widget: the transcript, sending a message, the canned reply
 * chosen by keyword, and the doctor avatar chosen by the reply's emotion.
 * The 1500 ms reply timer becomes an explicit `DeliverReply` step; sent
 * texts whose reply is still due wait in `pending`, oldest first, because
 * timers of equal delay fire in the order they were set.
 */
module Chatbot {
  import opened Wrappers
  import Text

  datatype Role = User | Bot

  datatype Emotion = Happy | Concerned | Neutral

  /** A transcript entry; message ids and timestamps are not modelled. */
  datatype Message = Message(role: Role, content: string, emotion: Option<Emotion>)

  /** What `generateBotResponse` returns. */
  datatype Response = Response(content: string, emotion: Emotion)

  // ---------------------------------------------------------------------------
  // The greeting

  const GreetingHead: string := "Hello "
  const GreetingTail: string := "! I'm Dr. AI, your virtual health assistant. How are you feeling today?"

  /** `patientData.name || "there"`: only the empty name is replaced. */
  function Addressee(name: string): string {
    if name == "" then "there" else name
  }

  /** The opening bot message, a happy greeting of the patient by name. */
  function Greeting(name: string): (m: Message)
    ensures m.role == Bot && m.emotion == Some(Happy)
  {
    Message(Bot, GreetingHead + Addressee(name) + GreetingTail, Some(Happy))
  }

  /** Reads back whom a greeting text addresses. */
  function GreetedName(text: string): string
    requires |GreetingHead| + |GreetingTail| <= |text|
  {
    text[|GreetingHead|..|text| - |GreetingTail|]
  }

  /** The greeting names the patient, or "there" when the name is empty, and that name can be read back from it. */
  lemma GreetingNamesPatient(name: string)
    ensures var text := Greeting(name).content;
      && |GreetingHead| + |GreetingTail| <= |text|
      && text[..|GreetingHead|] == GreetingHead
      && text[|text| - |GreetingTail|..] == GreetingTail
      && GreetedName(text) == (if name == "" then "there" else name)
  {
  }

  // ---------------------------------------------------------------------------
  // Reply selection

  const PainReply: string := "I understand you're experiencing pain. Can you describe where it hurts and rate it from 1-10? This will help me provide better guidance."
  const FeverReply: string := "Fever can be concerning. Make sure to stay hydrated and rest. If your temperature goes above 101\U{00B0}F (38.3\U{00B0}C), please seek immediate medical attention."
  const WellbeingReply: string := "That's wonderful to hear! Keep up with your healthy habits. Remember to stay hydrated and get adequate rest."
  const DefaultReply: string := "Thank you for sharing that with me. Based on your symptoms, I recommend staying hydrated, getting plenty of rest, and monitoring your condition. If symptoms worsen, please consult with a healthcare professional."

  /** What a message is about, as far as the keyword matcher can tell. */
  datatype Topic = Pain | Fever | Wellbeing | Other

  /** The keywords that signal each topic. */
  function Keywords(t: Topic): seq<string> {
    match t
    case Pain => ["pain", "hurt"]
    case Fever => ["fever", "hot"]
    case Wellbeing => ["better", "good"]
    case Other => []
  }

  /** Some keyword of `t` occurs in `text`. */
  predicate Mentions(text: string, t: Topic) {
    exists i :: 0 <= i < |Keywords(t)| && Text.Contains(text, Keywords(t)[i])
  }

  /** The topics in the order the matcher tries them. */
  const Priority: seq<Topic> := [Pain, Fever, Wellbeing]

  /** The first topic of `topics` that `text` mentions, or `Other`. */
  function FirstMentioned(text: string, topics: seq<Topic>): Topic
    decreases |topics|
  {
    if topics == [] then Other
    else if Mentions(text, topics[0]) then topics[0]
    else FirstMentioned(text, topics[1..])
  }

  /** The canned reply for each topic. */
  function ResponseFor(t: Topic): Response {
    match t
    case Pain => Response(PainReply, Concerned)
    case Fever => Response(FeverReply, Concerned)
    case Wellbeing => Response(WellbeingReply, Happy)
    case Other => Response(DefaultReply, Neutral)
  }

  /**
   * `generateBotResponse`: lower-case the input, then test "pain"/"hurt",
   * "fever"/"hot" and "better"/"good" in that order by substring search;
   * the first group that matches picks the reply, otherwise the default.
   */
  function GenerateBotResponse(userInput: string): (r: Response)
    ensures var input := Text.ToLower(userInput);
      && (Mentions(input, Pain) ==> r == Response(PainReply, Concerned))
      && (!Mentions(input, Pain) && Mentions(input, Fever) ==> r == Response(FeverReply, Concerned))
      && (!Mentions(input, Pain) && !Mentions(input, Fever) && Mentions(input, Wellbeing) ==> r == Response(WellbeingReply, Happy))
      && (!Mentions(input, Pain) && !Mentions(input, Fever) && !Mentions(input, Wellbeing) ==> r == Response(DefaultReply, Neutral))
    ensures var input := Text.ToLower(userInput);
      && (r.emotion == Concerned <==> Mentions(input, Pain) || Mentions(input, Fever))
      && (r.emotion == Happy <==> !Mentions(input, Pain) && !Mentions(input, Fever) && Mentions(input, Wellbeing))
      && (r.emotion == Neutral <==> !Mentions(input, Pain) && !Mentions(input, Fever) && !Mentions(input, Wellbeing))
  {
    var input := Text.ToLower(userInput);
    assert Keywords(Pain)[0] == "pain" && Keywords(Pain)[1] == "hurt";
    assert Keywords(Fever)[0] == "fever" && Keywords(Fever)[1] == "hot";
    assert Keywords(Wellbeing)[0] == "better" && Keywords(Wellbeing)[1] == "good";
    if Text.Contains(input, "pain") || Text.Contains(input, "hurt") then
      Response(PainReply, Concerned)
    else if Text.Contains(input, "fever") || Text.Contains(input, "hot") then
      Response(FeverReply, Concerned)
    else if Text.Contains(input, "better") || Text.Contains(input, "good") then
      Response(WellbeingReply, Happy)
    else
      Response(DefaultReply, Neutral)
  }

  /** The matcher answers with the reply of the first topic, in priority order, that the lower-cased input mentions. */
  lemma GenerateBotResponseIsFirstMatch(userInput: string)
    ensures GenerateBotResponse(userInput) == ResponseFor(FirstMentioned(Text.ToLower(userInput), Priority))
  {
  }

  /** The four replies are pairwise different, so a reply tells which topic was recognised. */
  lemma ResponsesIdentifyTopic(t: Topic, u: Topic)
    requires ResponseFor(t) == ResponseFor(u)
    ensures t == u
  {
  }

  /** Inputs that differ only in the case of ASCII letters get the same reply. */
  lemma ReplyIgnoresCase(a: string, b: string)
    requires Text.SameIgnoringCase(a, b)
    ensures GenerateBotResponse(a) == GenerateBotResponse(b)
  {
    Text.ToLowerIgnoresCase(a, b);
  }

  /** Lower-casing the input first does not change the reply. */
  lemma ReplyDependsOnLowerCase(s: string)
    ensures GenerateBotResponse(Text.ToLower(s)) == GenerateBotResponse(s)
  {
    Text.ToLowerIdempotent(s);
  }

  /** A keyword longer than the text cannot occur in it. */
  lemma {:induction false} TooLongNotContained(s: string, k: string)
    requires |s| < |k|
    ensures !Text.Contains(s, k)
  {
    Text.ContainsIffOccurs(s, k);
  }

  /** Matching is plain substring search: "Shot" gets the fever reply because it contains "hot". */
  lemma ShotMatchesHot()
    ensures GenerateBotResponse("Shot") == Response(FeverReply, Concerned)
  {
    var input := Text.ToLower("Shot");
    assert input == "shot";
    assert Text.OccursAt(input, "hot", 1);
    Text.ContainsIffOccurs(input, "hot");
    assert input[1..] == "hot";
    TooLongNotContained(input[1..], "pain");
    TooLongNotContained(input[1..], "hurt");
  }

  // ---------------------------------------------------------------------------
  // The doctor avatar

  /** The string a message's emotion carries at run time. */
  function EmotionName(e: Emotion): string {
    match e
    case Happy => "happy"
    case Concerned => "concerned"
    case Neutral => "neutral"
  }

  const SmilingFace: string := "\U{1F60A}"
  const WorriedFace: string := "\U{1F61F}"
  const Stethoscope: string := "\U{1FA7A}"

  /** `getDoctorEmoji`: a smile for "happy", a worried face for "concerned", the stethoscope for anything else or nothing. */
  function DoctorEmoji(emotion: Option<string>): (r: string)
    ensures r == SmilingFace <==> emotion == Some("happy")
    ensures r == WorriedFace <==> emotion == Some("concerned")
    ensures r == Stethoscope <==> emotion != Some("happy") && emotion != Some("concerned")
  {
    match emotion
    case Some(e) =>
      if e == "happy" then SmilingFace
      else if e == "concerned" then WorriedFace
      else Stethoscope
    case None => Stethoscope
  }

  /**
   * The avatar of a bot message: a smile exactly for happy messages, a
   * worried face exactly for concerned ones, otherwise the stethoscope.
   * User messages show a fixed user icon instead.
   */
  function AvatarOf(m: Message): (r: string)
    requires m.role == Bot
    ensures r == SmilingFace <==> m.emotion == Some(Happy)
    ensures r == WorriedFace <==> m.emotion == Some(Concerned)
    ensures r == Stethoscope <==> m.emotion == None || m.emotion == Some(Neutral)
  {
    DoctorEmoji(match m.emotion case Some(e) => Some(EmotionName(e)) case None => None)
  }

  /** Replies about pain or fever show the worried face; the wellbeing reply a smile; the default reply the stethoscope. */
  lemma ReplyAvatars(t: Topic)
    ensures var m := BotReply(ResponseFor(t));
      AvatarOf(m) == (if t == Pain || t == Fever then WorriedFace else if t == Wellbeing then SmilingFace else Stethoscope)
  {
  }

  // ---------------------------------------------------------------------------
  // The transcript

  /** The chat's state: transcript, text box, typing indicator, and sent texts still awaiting a reply (oldest first). */
  datatype Chat = Chat(messages: seq<Message>, input: string, typing: bool, pending: seq<string>)

  /** The chat as first rendered for a patient called `name`: only the greeting, nothing sent, the send button disabled. */
  function InitialChat(name: string): (r: Chat)
    ensures BotMessages(r.messages) == [Greeting(name)] && UserTexts(r.messages) == []
    ensures !SendEnabled(r) && !r.typing
  {
    Chat([Greeting(name)], "", false, [])
  }

  /** The transcript entry for a sent text: a user message carries no emotion. */
  function UserMessage(content: string): Message {
    Message(User, content, None)
  }

  /** The transcript entry for a reply. */
  function BotReply(r: Response): Message {
    Message(Bot, r.content, Some(r.emotion))
  }

  /** Typing into the text box. */
  function TypeInput(c: Chat, text: string): Chat {
    c.(input := text)
  }

  /**
   * `sendMessage(content)`: blank content (empty after `trim`) changes
   * nothing; otherwise the untrimmed content is appended as one user
   * message, the text box is cleared, the typing indicator shows and a
   * reply to `content` becomes due.
   */
  function SendMessage(c: Chat, content: string): (r: Chat)
    ensures Text.IsBlank(content) ==> r == c
    ensures !Text.IsBlank(content) ==>
      && r.messages == c.messages + [UserMessage(content)]
      && r.input == ""
      && r.typing
      && r.pending == c.pending + [content]
  {
    if Text.Trim(content) == "" then c
    else Chat(c.messages + [UserMessage(content)], "", true, c.pending + [content])
  }

  /**
   * The send button and the Enter key both send the text box's content:
   * something happens exactly when the send button is enabled, and then the
   * text box's content becomes the last message.
   */
  function Submit(c: Chat): (r: Chat)
    ensures r != c <==> SendEnabled(c)
    ensures SendEnabled(c) ==> r.messages == c.messages + [UserMessage(c.input)] && r.input == ""
  {
    SendMessage(c, c.input)
  }

  /** The send button is disabled exactly while the text box is blank. */
  predicate SendEnabled(c: Chat)
    ensures SendEnabled(c) <==> !Text.IsBlank(c.input)
  {
    Text.Trim(c.input) != ""
  }

  /** The reply timer of the oldest sent text fires: one bot message answering it is appended and the typing indicator goes off. */
  function DeliverReply(c: Chat): (r: Chat)
    requires c.pending != []
    ensures |r.messages| == |c.messages| + 1 && r.messages[..|c.messages|] == c.messages
    ensures r.messages[|c.messages|] == BotReply(GenerateBotResponse(c.pending[0]))
    ensures !r.typing && r.input == c.input && |r.pending| == |c.pending| - 1
  {
    c.(messages := c.messages + [BotReply(GenerateBotResponse(c.pending[0]))], typing := false, pending := c.pending[1..])
  }

  /** The contents of the user messages of `m`, in order. */
  function UserTexts(m: seq<Message>): seq<string>
    decreases |m|
  {
    if m == [] then []
    else UserTexts(m[..|m| - 1]) + (if m[|m| - 1].role == User then [m[|m| - 1].content] else [])
  }

  /** The bot messages of `m`, in order. */
  function BotMessages(m: seq<Message>): seq<Message>
    decreases |m|
  {
    if m == [] then []
    else BotMessages(m[..|m| - 1]) + (if m[|m| - 1].role == Bot then [m[|m| - 1]] else [])
  }

  lemma AppendMessage(m: seq<Message>, x: Message)
    ensures UserTexts(m + [x]) == UserTexts(m) + (if x.role == User then [x.content] else [])
    ensures BotMessages(m + [x]) == BotMessages(m) + (if x.role == Bot then [x] else [])
  {
  }

  /**
   * The transcript invariant: it opens with the greeting of `name`; the
   * bot messages after it answer the first user messages one for one, in
   * order, each with the reply generated from that message; the remaining
   * user messages are exactly the pending ones; and the typing indicator
   * only shows while a reply is due.
   */
  ghost predicate Consistent(c: Chat, name: string) {
    var u := UserTexts(c.messages);
    var b := BotMessages(c.messages);
    && c.messages != [] && c.messages[0] == Greeting(name)
    && 1 <= |b| && |u| == |b| - 1 + |c.pending|
    && c.pending == u[|b| - 1..]
    && (forall i :: 1 <= i < |b| ==> b[i] == BotReply(GenerateBotResponse(u[i - 1])))
    && (c.typing ==> c.pending != [])
  }

  /** The first transcript satisfies the transcript invariant. */
  lemma InitialConsistent(name: string)
    ensures Consistent(InitialChat(name), name)
  {
  }

  /** Sending keeps the transcript consistent. */
  lemma SendPreservesConsistent(c: Chat, name: string, content: string)
    requires Consistent(c, name)
    ensures Consistent(SendMessage(c, content), name)
  {
  }

  /** Delivering the oldest due reply keeps the transcript consistent. */
  lemma DeliverPreservesConsistent(c: Chat, name: string)
    requires Consistent(c, name) && c.pending != []
    ensures Consistent(DeliverReply(c), name)
  {
    var reply := BotReply(GenerateBotResponse(c.pending[0]));
    AppendMessage(c.messages, reply);
    var u := UserTexts(c.messages);
    var b := BotMessages(c.messages);
    assert c.pending[1..] == u[|b|..];
  }

  /** Everything that changes the chat: typing, sending (button or Enter) and a reply timer firing. */
  datatype ChatEvent = Type(text: string) | Send | ReplyDue

  /** A reply timer can only fire while a reply is due. */
  predicate ChatOffered(c: Chat, e: ChatEvent) {
    e.ReplyDue? ==> c.pending != []
  }

  /**
   * The chat after `e`. The transcript only ever grows, by at most one
   * message per event; typing only edits the text box; a firing timer
   * consumes one due reply.
   */
  function ApplyChat(c: Chat, e: ChatEvent): (r: Chat)
    requires ChatOffered(c, e)
    ensures |c.messages| <= |r.messages| <= |c.messages| + 1 && r.messages[..|c.messages|] == c.messages
    ensures e.Type? ==> r == c.(input := e.text)
    ensures e.ReplyDue? ==> |r.messages| == |c.messages| + 1 && r.messages[|c.messages|].role == Bot && r.pending == c.pending[1..]
  {
    match e
    case Type(text) => TypeInput(c, text)
    case Send => Submit(c)
    case ReplyDue => DeliverReply(c)
  }

  /** Every event the chat offers keeps it consistent. */
  lemma ApplyChatPreservesConsistent(c: Chat, name: string, e: ChatEvent)
    requires Consistent(c, name) && ChatOffered(c, e)
    ensures Consistent(ApplyChat(c, e), name)
  {
    match e
    case Type(_) =>
    case Send => SendPreservesConsistent(c, name, c.input);
    case ReplyDue => DeliverPreservesConsistent(c, name);
  }

  /** Once no reply is due, every user message has been answered, in order, by the reply generated from it. */
  lemma SettledChatAnswersEverything(c: Chat, name: string)
    requires Consistent(c, name) && c.pending == []
    ensures !c.typing
    ensures var u := UserTexts(c.messages); var b := BotMessages(c.messages);
      && |b| == |u| + 1
      && forall i :: 0 <= i < |u| ==> b[i + 1] == BotReply(GenerateBotResponse(u[i]))
  {
  }

  /** The chat after a sequence of events, each applied in turn. */
  function RunChat(c: Chat, events: seq<ChatEvent>): Chat
    requires AllChatOffered(c, events)
    decreases |events|
  {
    if events == [] then c else RunChat(ApplyChat(c, events[0]), events[1..])
  }

  /** Each event is offered in the state it meets. */
  predicate AllChatOffered(c: Chat, events: seq<ChatEvent>)
    decreases |events|
  {
    events == [] || (ChatOffered(c, events[0]) && AllChatOffered(ApplyChat(c, events[0]), events[1..]))
  }

  /** Any run of offered events from a consistent chat keeps it consistent. */
  lemma {:induction false} RunChatPreservesConsistent(c: Chat, name: string, events: seq<ChatEvent>)
    requires Consistent(c, name) && AllChatOffered(c, events)
    ensures Consistent(RunChat(c, events), name)
    decreases |events|
  {
    if events != [] {
      ApplyChatPreservesConsistent(c, name, events[0]);
      RunChatPreservesConsistent(ApplyChat(c, events[0]), name, events[1..]);
    }
  }

  /** Every chat reachable from the first render for `name` is consistent with its greeting and the replies its messages call for. */
  lemma ReachableChatsConsistent(name: string, events: seq<ChatEvent>)
    requires AllChatOffered(InitialChat(name), events)
    ensures Consistent(RunChat(InitialChat(name), events), name)
  {
    InitialConsistent(name);
    RunChatPreservesConsistent(InitialChat(name), name, events);
  }
}
