/**
 * The outcome layer of `FraudDetectionSystem.process_transaction`: the
 * coordinator agent's answer is stripped and matched against three commands,
 * and each command fixes the shape of the returned record. The agents'
 * answers are inputs (`AgentReplies`); nothing here calls a model.
 */
module Orchestrator {
  import opened Wrappers
  import opened Text
  import opened Records
  import opened DecisionScan

  const ApproveTransactionCommand := "approve_transaction"
  const DecisionAgentCommand := "decision_agent"
  const GenerateExplanationCommand := "generate_explanation"
  const UnexpectedAnswerPrefix := "Unerwartete Koordinator-Antwort: "

  predicate IsCommand(step: string)
  {
    step == ApproveTransactionCommand || step == DecisionAgentCommand || step == GenerateExplanationCommand
  }

  /**
   * The record `process_transaction` returns once the assessments are in and
   * the agents have answered with `replies`. Only the reply the coordinator's
   * command asks for is consulted.
   */
  function ProcessTransaction(
    transaction: Transaction, ml: FraudAssessment, rule: RuleAssessment, replies: AgentReplies
  ): (r: ProcessResult)
    ensures r.transaction == transaction && r.mlAssessment == ml && r.ruleAssessment == rule
    ensures r.WithError? <==> !IsCommand(Strip(replies.coordinator))
    ensures r.processComplete <==>
      || Strip(replies.coordinator) == ApproveTransactionCommand
      || Strip(replies.coordinator) == DecisionAgentCommand
      || (Strip(replies.coordinator) == GenerateExplanationCommand
          && exists i :: 0 <= i < |replies.reviewHistory| && Decides(replies.reviewHistory[i]))
  {
    var nextStep := Strip(replies.coordinator);
    if nextStep == ApproveTransactionCommand then
      WithDecision(transaction, ml, rule, "approved", None, true)
    else if nextStep == DecisionAgentCommand then
      WithDecision(transaction, ml, rule, replies.decision.decision, Some(replies.decision.reasoning), true)
    else if nextStep == GenerateExplanationCommand then
      var finalDecision := FirstVerdict(replies.reviewHistory).Label();
      WithDecision(transaction, ml, rule, finalDecision, Some(replies.explanation), finalDecision != "undecided")
    else
      WithError(transaction, ml, rule, UnexpectedAnswerPrefix + nextStep, false)
  }

  /**
   * `approve_transaction`: approved, no explanation, complete, whatever the
   * other agents said.
   */
  lemma ApproveBranch(transaction: Transaction, ml: FraudAssessment, rule: RuleAssessment, replies: AgentReplies)
    requires Strip(replies.coordinator) == ApproveTransactionCommand
    ensures var r := ProcessTransaction(transaction, ml, rule, replies);
      && r.WithDecision?
      && r.finalDecision == "approved"
      && r.explanation == None
      && r.processComplete
  {
  }

  /**
   * `decision_agent`: the decision agent's `decision` and `reasoning` become
   * the final decision and the explanation, unchecked, and the run is complete.
   */
  lemma DecisionAgentBranch(transaction: Transaction, ml: FraudAssessment, rule: RuleAssessment, replies: AgentReplies)
    requires Strip(replies.coordinator) == DecisionAgentCommand
    ensures var r := ProcessTransaction(transaction, ml, rule, replies);
      && r.WithDecision?
      && r.finalDecision == replies.decision.decision
      && r.explanation == Some(replies.decision.reasoning)
      && r.processComplete
  {
  }

  /**
   * `generate_explanation`: the explanation text is passed through, the
   * final decision is the first-match verdict of the review chat, and the run
   * is complete exactly when that verdict is not "undecided".
   */
  lemma ExplanationBranch(transaction: Transaction, ml: FraudAssessment, rule: RuleAssessment, replies: AgentReplies)
    requires Strip(replies.coordinator) == GenerateExplanationCommand
    ensures var r := ProcessTransaction(transaction, ml, rule, replies);
      && r.WithDecision?
      && r.explanation == Some(replies.explanation)
      && r.finalDecision == FirstVerdict(replies.reviewHistory).Label()
      && r.finalDecision in {"approved", "declined", "undecided"}
      && (r.processComplete <==> r.finalDecision != "undecided")
      && (r.finalDecision == "undecided" <==>
            forall i :: 0 <= i < |replies.reviewHistory| ==> !Decides(replies.reviewHistory[i]))
  {
  }

  /**
   * Any other answer: an incomplete error record whose message embeds the
   * stripped answer, and no final decision.
   */
  lemma UnexpectedAnswer(transaction: Transaction, ml: FraudAssessment, rule: RuleAssessment, replies: AgentReplies)
    requires !IsCommand(Strip(replies.coordinator))
    ensures var r := ProcessTransaction(transaction, ml, rule, replies);
      && r.WithError?
      && r.error == UnexpectedAnswerPrefix + Strip(replies.coordinator)
      && !r.processComplete
  {
  }

  /** Whitespace around the coordinator's answer never changes the result. */
  lemma CoordinatorPaddingIgnored(
    transaction: Transaction, ml: FraudAssessment, rule: RuleAssessment, replies: AgentReplies,
    before: string, after: string)
    requires AllSpace(before) && AllSpace(after)
    ensures ProcessTransaction(transaction, ml, rule, replies.(coordinator := before + replies.coordinator + after))
         == ProcessTransaction(transaction, ml, rule, replies)
  {
    StripIgnoresPadding(before, replies.coordinator, after);
  }

  /**
   * One reading of "Verdacht" (suspicion) in the coordination prompt, which
   * does not define the word: either assessment flags the transaction.
   */
  predicate Suspicious(ml: FraudAssessment, rule: RuleAssessment)
  {
    ml.isFraud || rule.isFlagged
  }

  /**
   * The routing the coordination prompt asks the coordinator for: explain a
   * suspicious transfer that is not real-time, decide a suspicious real-time
   * transfer automatically, approve the rest. The source never evaluates
   * this; it only states it to the coordinator agent.
   */
  function PromptRoute(transaction: Transaction, ml: FraudAssessment, rule: RuleAssessment): (step: string)
    ensures IsCommand(step)
    ensures step == ApproveTransactionCommand <==> !Suspicious(ml, rule)
    ensures step == DecisionAgentCommand <==> Suspicious(ml, rule) && transaction.isRealtime
    ensures step == GenerateExplanationCommand <==> Suspicious(ml, rule) && !transaction.isRealtime
  {
    if !Suspicious(ml, rule) then ApproveTransactionCommand
    else if transaction.isRealtime then DecisionAgentCommand
    else GenerateExplanationCommand
  }

  /**
   * When the coordinator answers as its prompt asks (up to surrounding
   * whitespace): an unsuspicious transaction is approved without
   * explanation, a suspicious real-time one takes the decision agent's
   * verdict (both complete), and a suspicious one that is not real-time
   * takes the explanation and the verdict scanned from the review chat.
   */
  lemma CompliantCoordinator(
    transaction: Transaction, ml: FraudAssessment, rule: RuleAssessment, replies: AgentReplies,
    before: string, after: string)
    requires AllSpace(before) && AllSpace(after)
    requires replies.coordinator == before + PromptRoute(transaction, ml, rule) + after
    ensures var r := ProcessTransaction(transaction, ml, rule, replies);
      && (!Suspicious(ml, rule) ==> r.WithDecision? && r.finalDecision == "approved" && r.explanation == None)
      && (Suspicious(ml, rule) && transaction.isRealtime ==> r.WithDecision? && r.finalDecision == replies.decision.decision)
      && (Suspicious(ml, rule) && !transaction.isRealtime ==>
            && r.WithDecision?
            && r.explanation == Some(replies.explanation)
            && r.finalDecision == FirstVerdict(replies.reviewHistory).Label())
      && (!Suspicious(ml, rule) || transaction.isRealtime ==> r.processComplete)
  {
    var step := PromptRoute(transaction, ml, rule);
    StripOfPaddedCommand(before, step, after);
    if !Suspicious(ml, rule) {
      ApproveBranch(transaction, ml, rule, replies);
    } else if transaction.isRealtime {
      DecisionAgentBranch(transaction, ml, rule, replies);
    } else {
      ExplanationBranch(transaction, ml, rule, replies);
    }
  }

  lemma StripOfPaddedCommand(before: string, step: string, after: string)
    requires AllSpace(before) && AllSpace(after) && IsCommand(step)
    ensures Strip(before + step + after) == step
  {
    CommandsAreTrimmed();
    StripPadded(before, step, after);
  }

  lemma CommandsAreTrimmed()
    ensures Trimmed(ApproveTransactionCommand)
    ensures Trimmed(DecisionAgentCommand)
    ensures Trimmed(GenerateExplanationCommand)
  {
  }

  /**
   * The closing instruction both review chats open with: "type GENEHMIGEN or
   * ABLEHNEN".
   */
  const ReviewInstruction := InstructionLead + ApproveKeyword + "\" oder \"" + DeclineKeyword + "\" ein."
  const InstructionLead := "geben Sie \""

  /** The opening prompt alone is an approval: it quotes GENEHMIGEN. */
  lemma OpeningPromptApproves(opening: string)
    requires Contains(opening, ReviewInstruction)
    ensures MessageVerdict(opening) == Approved
  {
    var at :| OccursAt(opening, ReviewInstruction, at);
    var lead := |InstructionLead|;
    assert OccursAt(ReviewInstruction, ApproveKeyword, lead) by {
      assert ReviewInstruction == InstructionLead + ApproveKeyword + ("\" oder \"" + DeclineKeyword + "\" ein.");
    }
    OccursWithin(opening, ReviewInstruction, ApproveKeyword, at, lead);
    KeywordsAreUpper();
    UpperKeepsUpperNeedle(opening, ApproveKeyword);
  }

  /**
   * As written, the scanned chat starts with the opening prompt, which quotes
   * GENEHMIGEN itself. So the explanation branch always ends "approved" and
   * complete, even when the only later message is ABLEHNEN.
   */
  lemma OpeningPromptForcesApproval(
    transaction: Transaction, ml: FraudAssessment, rule: RuleAssessment, replies: AgentReplies,
    opening: string, laterMessages: seq<string>)
    requires Strip(replies.coordinator) == GenerateExplanationCommand
    requires Contains(opening, ReviewInstruction)
    requires replies.reviewHistory == [opening] + laterMessages
    ensures var r := ProcessTransaction(transaction, ml, rule, replies);
      r.WithDecision? && r.finalDecision == "approved" && r.processComplete
  {
    OpeningPromptApproves(opening);
    FirstMatchDecides(replies.reviewHistory, 0);
  }

  /**
   * Who put a message into the review chat: the fraud manager typing
   * (`Human`), the program (the opening prompt), the ReAct agent, or a tool
   * result.
   */
  datatype Author = Human | Program | Agent | Tool

  datatype ChatMessage = ChatMessage(author: Author, content: string)

  /** The contents of a chat, in order, as the scan of the source sees them. */
  function Contents(chat: seq<ChatMessage>): (r: seq<string>)
    ensures |r| == |chat|
    ensures forall i :: 0 <= i < |chat| ==> r[i] == chat[i].content
  {
    seq(|chat|, i requires 0 <= i < |chat| => chat[i].content)
  }

  /** What the fraud manager typed, in order. */
  function HumanReplies(chat: seq<ChatMessage>): (r: seq<string>)
    ensures |r| <= |chat|
    ensures forall c :: c in r <==> exists i :: 0 <= i < |chat| && chat[i] == ChatMessage(Human, c)
  {
    if chat == [] then []
    else
      var rest := HumanReplies(chat[1..]);
      assert forall i :: 1 <= i < |chat| ==> chat[1..][i - 1] == chat[i];
      (if chat[0].author == Human then [chat[0].content] else []) + rest
  }

  lemma {:induction false} HumanRepliesAppend(a: seq<ChatMessage>, b: seq<ChatMessage>)
    ensures HumanReplies(a + b) == HumanReplies(a) + HumanReplies(b)
  {
    if a == [] {
      assert a + b == b;
    } else {
      var head := if a[0].author == Human then [a[0].content] else [];
      assert (a + b)[0] == a[0];
      assert (a + b)[1..] == a[1..] + b;
      HumanRepliesAppend(a[1..], b);
      calc {
        HumanReplies(a + b);
        head + HumanReplies(a[1..] + b);
        head + (HumanReplies(a[1..]) + HumanReplies(b));
        (head + HumanReplies(a[1..])) + HumanReplies(b);
        HumanReplies(a) + HumanReplies(b);
      }
    }
  }

  /**
   * The verdict as the review prompt means it: the first-match verdict of
   * what the fraud manager typed. It is undecided exactly when no typed
   * message mentions a keyword.
   */
  function ManagerVerdict(chat: seq<ChatMessage>): (v: Verdict)
    ensures v == Undecided <==>
      forall i :: 0 <= i < |chat| && chat[i].author == Human ==> !Decides(chat[i].content)
  {
    var typed := HumanReplies(chat);
    assert forall j :: 0 <= j < |typed| ==> typed[j] in typed;
    assert forall i :: 0 <= i < |chat| && chat[i].author == Human ==> chat[i].content in typed;
    FirstVerdict(typed)
  }

  /**
   * Messages the manager did not type, such as the opening prompt, the
   * agent's answers and tool results, never change the corrected verdict.
   */
  lemma NonHumanMessagesIgnored(before: seq<ChatMessage>, message: ChatMessage, after: seq<ChatMessage>)
    requires message.author != Human
    ensures ManagerVerdict(before + [message] + after) == ManagerVerdict(before + after)
  {
    HumanRepliesAppend(before + [message], after);
    HumanRepliesAppend(before, [message]);
    HumanRepliesAppend(before, after);
    assert HumanReplies([message]) == [] by {
      assert [message][1..] == [];
    }
    assert HumanReplies(before + [message] + after) == HumanReplies(before + after);
  }

  /**
   * The first typed message that mentions a keyword decides the corrected
   * verdict, whatever the program, the agent or the tools wrote before it.
   */
  lemma ManagerVerdictReadsReplies(earlier: seq<ChatMessage>, reply: string, later: seq<ChatMessage>)
    requires forall i :: 0 <= i < |earlier| && earlier[i].author == Human ==> !Decides(earlier[i].content)
    requires Decides(reply)
    ensures ManagerVerdict(earlier + [ChatMessage(Human, reply)] + later) == MessageVerdict(reply)
  {
    var typed := HumanReplies(earlier);
    HumanRepliesAppend(earlier + [ChatMessage(Human, reply)], later);
    HumanRepliesAppend(earlier, [ChatMessage(Human, reply)]);
    assert HumanReplies([ChatMessage(Human, reply)]) == [reply];
    var all := typed + [reply] + HumanReplies(later);
    forall j | 0 <= j < |typed|
      ensures !Decides(all[j])
    {
      assert all[j] == typed[j] && typed[j] in typed;
    }
    FirstMatchDecides(all, |typed|);
  }

  /**
   * The input that shows the difference: opening prompt, an agent answer
   * that quotes GENEHMIGEN, then the manager types ABLEHNEN. The scan as
   * written approves; the corrected one declines.
   */
  lemma DeclineAfterQuotedApproval(opening: string, agentText: string)
    requires Contains(opening, ReviewInstruction)
    ensures var chat := [ChatMessage(Program, opening), ChatMessage(Agent, agentText + ApproveKeyword),
                         ChatMessage(Human, DeclineKeyword)];
      && FirstVerdict(Contents(chat)) == Approved
      && ManagerVerdict(chat) == Declined
  {
    var chat := [ChatMessage(Program, opening), ChatMessage(Agent, agentText + ApproveKeyword),
                 ChatMessage(Human, DeclineKeyword)];
    OpeningPromptApproves(opening);
    FirstMatchDecides(Contents(chat), 0);
    KeywordsAreUpper();
    assert OccursAt(DeclineKeyword, DeclineKeyword, 0);
    assert MessageVerdict(DeclineKeyword) == Declined;
    assert chat == chat[..2] + [ChatMessage(Human, DeclineKeyword)] + [];
    ManagerVerdictReadsReplies(chat[..2], DeclineKeyword, []);
  }
}
