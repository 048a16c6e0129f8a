/** The questionnaire chatbot's state handling: restoring a saved
    conversation on mount, persisting it on change, starting a fresh one,
    sending an answer and taking in the reply, the evaluation that follows
    the last answer, and regenerating the profile from the answers. Calls to
    the back end are replaced by their replies, given as parameters. */
module Chatbot {
  import opened Js
  import opened Strings

  /** The back end's conversation state. */
  datatype ChatState = ChatState(
    currentStage: int, currentQuestionIndex: int, questions: seq<string>,
    answers: map<string, string>, pendingWhyQuestion: Option<string>, complete: bool)

  datatype Sender = Bot | User | Failure

  /** One chat bubble. */
  datatype Message = Message(sender: Sender, text: string)

  /** The evaluation result the back end returns. */
  type Evaluation = map<string, Value>

  /** The component's conversation state. */
  datatype Chat = Chat(
    state: Option<ChatState>, messages: seq<Message>, isComplete: bool,
    evaluation: Option<Evaluation>, input: string, loading: bool)

  const Welcome: string :=
    "Hello! I'm Saathi, your AI career counselor. I'll ask you 15 questions to understand your interests better. Let's begin!"
  const InitFailed: string := "Failed to initialize chatbot. Please try again."
  const AllAnswered: string := "Great! You've answered all questions. Let me analyze your responses..."
  const SendFailed: string := "Failed to send message. Please try again."
  const EvaluationDone: string := "Evaluation complete! Redirecting to your report page..."
  const EvaluationFailed: string := "Failed to evaluate. Please try again."
  const CompleteFirst: string := "Please complete the chatbot before regenerating your profile."
  const Regenerating: string := "Regenerating your profile using the latest insights..."
  const Regenerated: string :=
    "Profile regenerated successfully. Head back to the profile view to see the updated content."
  const RegenerateFailed: string := "Unable to regenerate profile right now."
  const RegenerateThrew: string := "An unexpected error occurred while regenerating your profile."

  // ===========================================================================
  // Restore and persist
  // ===========================================================================

  /** The saved object: `chatState` (missing or `null` is `None`),
      `messages` (`None` when not an array), `isComplete` as stored, and
      `evaluationResult`. */
  datatype Saved = Saved(
    chatState: Option<ChatState>, messages: Option<seq<Message>>,
    isComplete: Value, evaluationResult: Option<Evaluation>)

  /** The storage entry as read on mount: absent, unparsable, parsed to
      `null`, or a saved object. */
  datatype Stored = Absent | Unparsable | ParsedNull | Parsed(saved: Saved)

  /** What the mount effect does: nothing (no profile, or it already ran),
      restore the saved conversation, or start afresh (after removing an
      unparsable entry). */
  datatype RestoreOutcome =
    | Skip
    | Restore(state: ChatState, messages: seq<Message>, isComplete: bool, evaluation: Option<Evaluation>)
    | StartFresh(removeEntry: bool)

  /** Whether a saved object holds a conversation worth restoring. */
  predicate Restorable(s: Saved) {
    s.chatState.Some? && s.messages.Some? && |s.messages.value| > 0
  }

  /** The mount effect that restores the conversation. */
  function RestoreOnMount(hasProfile: bool, alreadyRan: bool, stored: Stored): (r: RestoreOutcome)
    ensures r.Skip? <==> !hasProfile || alreadyRan
    ensures r.Restore? <==> hasProfile && !alreadyRan && stored.Parsed? && Restorable(stored.saved)
    ensures r.Restore? ==>
              && r.state == stored.saved.chatState.value
              && r.messages == stored.saved.messages.value && |r.messages| > 0
              && r.isComplete == Truthy(stored.saved.isComplete)
              && r.evaluation == stored.saved.evaluationResult
    ensures r.StartFresh? ==> (r.removeEntry <==> stored.Unparsable?)
  {
    if !hasProfile || alreadyRan then Skip
    else match stored
      case Absent => StartFresh(false)
      case Unparsable => StartFresh(true)
      case ParsedNull => StartFresh(false)
      case Parsed(s) =>
        if Restorable(s) then Restore(s.chatState.value, s.messages.value, Truthy(s.isComplete), s.evaluationResult)
        else StartFresh(false)
  }

  /** The save effect: the object written to storage, if any. */
  function Persist(c: Chat): (r: Option<Saved>)
    ensures r.Some? <==> c.state.Some? && |c.messages| > 0
    ensures r.Some? ==> Restorable(r.value)
  {
    if c.state.None? || |c.messages| == 0 then None
    else Some(Saved(c.state, Some(c.messages), Bool(c.isComplete), c.evaluation))
  }

  /** A persisted conversation is restored as it was saved on the next
      mount. */
  lemma PersistRestoreRoundTrip(c: Chat)
    requires Persist(c).Some?
    ensures RestoreOnMount(true, false, Parsed(Persist(c).value))
            == Restore(c.state.value, c.messages, c.isComplete, c.evaluation)
  {
  }

  // ===========================================================================
  // Starting a conversation
  // ===========================================================================

  /** The reply of the question generator: its `success` flag, whether it
      has `data`, and `data.questions` (`None` when missing), or a thrown
      error. */
  datatype QuestionsReply = Questions(success: bool, hasData: bool, questions: Option<seq<string>>) | QuestionsThrew

  /** The text of `questions[0]`; an empty list leaves it undefined, which
      renders as nothing. */
  function FirstQuestion(questions: seq<string>): string {
    if |questions| > 0 then questions[0] else ""
  }

  /** Whether reading the reply throws: `result.data.questions` is read
      only after `success`, and throws when `data` is missing. */
  predicate StartThrows(reply: QuestionsReply) {
    reply.QuestionsThrew? || (reply.success && !reply.hasData)
  }

  /** `initializeChatbot` once the questions are in. */
  function StartChat(c: Chat, reply: QuestionsReply): (r: Chat)
    ensures reply.Questions? && reply.success && reply.hasData && reply.questions.Some? ==>
              && r.state == Some(ChatState(1, 0, reply.questions.value, map[], None, false))
              && r.messages == [Message(Bot, Welcome), Message(Bot, FirstQuestion(reply.questions.value))]
    ensures StartThrows(reply) ==> r.messages == [Message(Failure, InitFailed)] && r.state == c.state
    ensures reply.Questions? && !reply.success ==> r == c
    ensures reply.Questions? && reply.hasData && reply.questions.None? ==> r == c
    ensures r.loading == c.loading && r.isComplete == c.isComplete && r.evaluation == c.evaluation
  {
    if StartThrows(reply) then c.(messages := [Message(Failure, InitFailed)])
    else if reply.success && reply.questions.Some? then
      c.(state := Some(ChatState(1, 0, reply.questions.value, map[], None, false)),
         messages := [Message(Bot, Welcome), Message(Bot, FirstQuestion(reply.questions.value))])
    else c
  }

  /** A reply flagged successful is never passed over in silence unless
      its data lacks the questions: the chat then starts with the welcome
      or with the failure bubble. A conversation state comes only from a
      reply that carries questions. */
  lemma StartChatOutcome(c: Chat, reply: QuestionsReply)
    ensures reply.Questions? && reply.success && !(reply.hasData && reply.questions.None?) ==>
              var m := StartChat(c, reply).messages;
              |m| > 0 && (m[0] == Message(Bot, Welcome) || m == [Message(Failure, InitFailed)])
    ensures StartChat(c, reply).state.Some? <==>
              c.state.Some? || (reply.Questions? && !StartThrows(reply) && reply.success && reply.questions.Some?)
  {
  }

  // ===========================================================================
  // Sending an answer
  // ===========================================================================

  /** The first half of `handleSendMessage`: ignored, or the trimmed text
      sent with the user's bubble added. */
  datatype SendStart = Ignored | Sending(chat: Chat, text: string)

  function SendMessage(c: Chat): (r: SendStart)
    ensures r.Ignored? <==> Trim(c.input) == [] || c.loading || c.state.None?
    ensures r.Sending? ==>
              && r.text == Trim(c.input) && r.text != []
              && r.chat.messages == c.messages + [Message(User, r.text)]
              && r.chat.input == [] && r.chat.loading
              && r.chat.state == c.state && r.chat.isComplete == c.isComplete
              && r.chat.evaluation == c.evaluation
  {
    if Trim(c.input) == [] || c.loading || c.state.None? then Ignored
    else
      var text := Trim(c.input);
      Sending(c.(messages := c.messages + [Message(User, text)], input := [], loading := true), text)
  }

  /** The sent text is free of surrounding white space: sending it again
      sends the same text. */
  lemma SentTextIsTrimmed(c: Chat)
    requires SendMessage(c).Sending?
    ensures Trim(SendMessage(c).text) == SendMessage(c).text
  {
    TrimIdempotent(c.input);
  }

  /** The contents of a chat reply: `nextQuestion` (`""` when missing), the
      updated `conversationState` (`None` when missing) and `isComplete`. */
  datatype ChatData = ChatData(nextQuestion: string, conversationState: Option<ChatState>, completed: bool)

  /** The reply of the chat call. */
  datatype ChatReply = ChatAnswer(success: bool, data: Option<ChatData>) | ChatThrew

  /** Whether a question asks about interests and goals. */
  predicate AsksInterestsAndGoals(q: string) {
    var n := Lower(q);
    Contains(n, "interests") && (Contains(n, "goals") || Contains(n, "goal"))
  }

  /** The second half of `handleSendMessage`: the chat after the reply, the
      answers the evaluation is started with (if it is), and whether the
      duplicate-question warning is logged. */
  datatype SendEnd = SendEnd(chat: Chat, evaluateWith: Option<map<string, string>>, duplicateWarning: bool)

  /** Whether some answered question already asked about interests and goals. */
  predicate AnsweredSimilar(answers: map<string, string>) {
    exists q :: q in answers && AsksInterestsAndGoals(q)
  }

  /** `handleSendMessage` after the reply arrives; `sentWith` is the
      conversation state the message was sent with. The evaluation falls
      back to that state when the reply carries none. */
  function ReceiveReply(c: Chat, sentWith: ChatState, reply: ChatReply): (r: SendEnd)
    ensures !r.chat.loading
    ensures |c.messages| <= |r.chat.messages| && r.chat.messages[..|c.messages|] == c.messages
    ensures reply.ChatThrew? ==>
              r.chat == c.(loading := false, messages := c.messages + [Message(Failure, SendFailed)])
              && r.evaluateWith.None?
    ensures reply.ChatAnswer? && !(reply.success && reply.data.Some?) ==>
              r.chat == c.(loading := false) && r.evaluateWith.None?
    ensures reply.ChatAnswer? && reply.success && reply.data.Some? ==>
              r.chat.state == reply.data.value.conversationState
    ensures r.evaluateWith.Some? ==> reply.ChatAnswer? && reply.data.Some? && reply.data.value.completed
    ensures r.duplicateWarning ==> |r.chat.messages| > 0 && r.chat.messages[|r.chat.messages| - 1].sender == Bot
  {
    var done := c.(loading := false);
    match reply
    case ChatThrew => SendEnd(done.(messages := c.messages + [Message(Failure, SendFailed)]), None, false)
    case ChatAnswer(success, data) =>
      if !(success && data.Some?) then SendEnd(done, None, false)
      else
        var d := data.value;
        var updated := done.(state := d.conversationState);
        if d.completed then
          var evalState := if d.conversationState.Some? then d.conversationState.value else sentWith;
          SendEnd(updated.(isComplete := true, messages := c.messages + [Message(Bot, AllAnswered)]),
                  Some(evalState.answers), false)
        else if d.nextQuestion != [] && AsksInterestsAndGoals(d.nextQuestion) && d.conversationState.None? then
          // Reading the answers of the missing state throws after the state
          // was stored; the catch adds the failure bubble instead of the question.
          SendEnd(updated.(messages := c.messages + [Message(Failure, SendFailed)]), None, false)
        else if d.nextQuestion != [] then
          var warn := AsksInterestsAndGoals(d.nextQuestion) && d.conversationState.Some?
                      && AnsweredSimilar(d.conversationState.value.answers);
          SendEnd(updated.(messages := c.messages + [Message(Bot, d.nextQuestion)]), None, warn)
        else SendEnd(updated, None, false)
  }

  /** A completed reply marks the conversation complete and starts the
      evaluation with the answers of the reply's state, the latest answer
      included. */
  lemma CompletedReplyEvaluates(c: Chat, sentWith: ChatState, d: ChatData)
    requires d.completed && d.conversationState.Some?
    ensures var r := ReceiveReply(c, sentWith, ChatAnswer(true, Some(d)));
            && r.chat.isComplete
            && r.chat.state == d.conversationState
            && r.evaluateWith == Some(d.conversationState.value.answers)
            && r.chat.messages == c.messages + [Message(Bot, AllAnswered)]
  {
  }

  /** A further question is always shown, even when it repeats an answered
      interests-and-goals question: the repetition is only logged. (An
      interests-and-goals question arriving without a state is the failure
      case below.) */
  lemma NextQuestionAlwaysShown(c: Chat, sentWith: ChatState, d: ChatData)
    requires !d.completed && d.nextQuestion != []
    requires d.conversationState.Some? || !AsksInterestsAndGoals(d.nextQuestion)
    ensures var r := ReceiveReply(c, sentWith, ChatAnswer(true, Some(d)));
            && r.chat.messages == c.messages + [Message(Bot, d.nextQuestion)]
            && r.evaluateWith.None?
            && (r.duplicateWarning <==>
                  AsksInterestsAndGoals(d.nextQuestion) && d.conversationState.Some?
                  && AnsweredSimilar(d.conversationState.value.answers))
  {
  }

  /** An interests-and-goals question in a reply without a conversation
      state is not shown: the duplicate check throws, the failure bubble is
      added instead, and the stored state stays cleared. */
  lemma InterestsQuestionWithoutStateFails(c: Chat, sentWith: ChatState, d: ChatData)
    requires !d.completed && d.nextQuestion != []
    requires AsksInterestsAndGoals(d.nextQuestion) && d.conversationState.None?
    ensures var r := ReceiveReply(c, sentWith, ChatAnswer(true, Some(d)));
            && r.chat.messages == c.messages + [Message(Failure, SendFailed)]
            && r.chat.state.None?
            && r.evaluateWith.None? && !r.duplicateWarning
  {
  }

  /** Sending and taking in the reply only ever add bubbles, and add at
      most two: the user's and one answer. */
  lemma ExchangeAppendsOnly(c: Chat, reply: ChatReply)
    requires SendMessage(c).Sending?
    ensures var s := SendMessage(c);
            var r := ReceiveReply(s.chat, c.state.value, reply).chat;
            && |c.messages| < |r.messages| <= |c.messages| + 2
            && r.messages[..|c.messages|] == c.messages
            && r.messages[|c.messages|] == Message(User, Trim(c.input))
  {
    var s := SendMessage(c);
    var r := ReceiveReply(s.chat, c.state.value, reply).chat;
    assert s.chat.messages[..|c.messages|] == c.messages;
    assert r.messages[..|s.chat.messages|][..|c.messages|] == r.messages[..|c.messages|];
  }

  // ===========================================================================
  // Evaluation
  // ===========================================================================

  /** The reply of the evaluation call. */
  datatype EvaluationReply = Evaluated(success: bool, data: Option<Evaluation>) | EvaluationThrew

  /** `handleEvaluate` after its reply: the chat, and the answers and result
      handed to the regenerate callback, if it is called. */
  datatype EvaluationEnd = EvaluationEnd(chat: Chat, handOver: Option<(map<string, string>, Evaluation)>)

  /** The guard of `handleEvaluate`: the answers it evaluates, taken from
      the state passed in or else from the component's own state; nothing
      happens without such a state or without a user profile. */
  function EvaluationAnswers(passed: Option<ChatState>, current: Option<ChatState>, hasProfile: bool)
    : (r: Option<map<string, string>>)
    ensures r.Some? <==> hasProfile && (passed.Some? || current.Some?)
    ensures r.Some? && passed.Some? ==> r.value == passed.value.answers
    ensures r.Some? && passed.None? ==> r.value == current.value.answers
  {
    var state := if passed.Some? then passed else current;
    if state.None? || !hasProfile then None else Some(state.value.answers)
  }

  /** A completed reply asks for the evaluation of exactly the answers the
      guard lets through when a profile is present. */
  lemma CompletedReplyPassesGuard(c: Chat, sentWith: ChatState, d: ChatData)
    requires d.completed
    ensures ReceiveReply(c, sentWith, ChatAnswer(true, Some(d))).evaluateWith
            == EvaluationAnswers(d.conversationState, Some(sentWith), true)
  {
  }

  /** `handleEvaluate` after its reply; `hasCallback` says whether an
      `onRegenerateProfile` callback exists to hand the result to. */
  function FinishEvaluation(c: Chat, answers: map<string, string>, hasCallback: bool, reply: EvaluationReply)
    : (r: EvaluationEnd)
    ensures r.handOver.Some? <==> hasCallback && reply.Evaluated? && reply.success && reply.data.Some?
    ensures reply.Evaluated? && reply.success && reply.data.Some? ==>
              && r.chat.evaluation == reply.data
              && r.chat.messages == c.messages + [Message(Bot, EvaluationDone)]
    ensures reply.Evaluated? && !(reply.success && reply.data.Some?) ==> r.chat == c
    ensures r.handOver.Some? ==> r.handOver.value == (answers, reply.data.value)
    ensures reply.EvaluationThrew? ==> r.chat.messages == c.messages + [Message(Failure, EvaluationFailed)]
    ensures r.chat.state == c.state && r.chat.isComplete == c.isComplete
  {
    match reply
    case EvaluationThrew => EvaluationEnd(c.(messages := c.messages + [Message(Failure, EvaluationFailed)]), None)
    case Evaluated(success, data) =>
      if success && data.Some? then
        EvaluationEnd(c.(evaluation := data, messages := c.messages + [Message(Bot, EvaluationDone)]),
                      if hasCallback then Some((answers, data.value)) else None)
      else EvaluationEnd(c, None)
  }

  // ===========================================================================
  // Regenerating the profile
  // ===========================================================================

  /** The start of `handleRegenerateProfile`: nothing without a callback,
      refused with an error bubble without answers, or the callback called
      with the answers and the evaluation. */
  datatype RegenerateStart =
    | NoCallback
    | RegenerateRefused(chat: Chat)
    | Regenerate(chat: Chat, answers: map<string, string>, evaluation: Option<Evaluation>)

  function StartRegenerate(c: Chat, hasCallback: bool): (r: RegenerateStart)
    ensures r.NoCallback? <==> !hasCallback
    ensures r.RegenerateRefused? <==> hasCallback && (c.state.None? || |c.state.value.answers| == 0)
    ensures r.RegenerateRefused? ==> r.chat.messages == c.messages + [Message(Failure, CompleteFirst)]
    ensures r.Regenerate? ==>
              && r.answers == c.state.value.answers && |r.answers| > 0
              && r.evaluation == c.evaluation
              && r.chat.messages == c.messages + [Message(Bot, Regenerating)]
  {
    if !hasCallback then NoCallback
    else if c.state.None? || |c.state.value.answers| == 0 then
      RegenerateRefused(c.(messages := c.messages + [Message(Failure, CompleteFirst)]))
    else Regenerate(c.(messages := c.messages + [Message(Bot, Regenerating)]), c.state.value.answers, c.evaluation)
  }

  /** The callback's result: its `success` flag and `error` text (`""`
      when missing; a missing result is unsuccessful without text), or a
      thrown error with its message. */
  datatype RegenerateReply = Regenerated(success: bool, error: string) | RegenerateThrew(message: string)

  function FinishRegenerate(c: Chat, reply: RegenerateReply): (r: Chat)
    ensures |r.messages| == |c.messages| + 1 && r.messages[..|c.messages|] == c.messages
    ensures r.messages[|c.messages|].sender == Bot <==> reply.Regenerated? && reply.success
    ensures r.messages[|c.messages|].text != []
    ensures r == c.(messages := r.messages)
    ensures reply.Regenerated? && reply.success ==> r.messages[|c.messages|] == Message(Bot, Regenerated)
    ensures reply.Regenerated? && !reply.success ==>
              r.messages[|c.messages|].text == (if reply.error != [] then reply.error else RegenerateFailed)
    ensures reply.RegenerateThrew? ==>
              r.messages[|c.messages|] == Message(Failure, if reply.message != [] then reply.message else RegenerateThrew)
  {
    match reply
    case Regenerated(success, error) =>
      if success then c.(messages := c.messages + [Message(Bot, Regenerated)])
      else c.(messages := c.messages + [Message(Failure, Or(error, RegenerateFailed))])
    case RegenerateThrew(message) => c.(messages := c.messages + [Message(Failure, Or(message, RegenerateThrew))])
  }
}
