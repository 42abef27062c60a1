/**
 * The records that flow through `FraudDetectionSystem.process_transaction`.
 * Every one of them is produced outside the outcome layer (by the caller or
 * parsed from a language-model answer) and is only passed along here.
 */
module Records {
  import opened Wrappers

  /** The `Transaction` typed dictionary; `amount` is a Python float. */
  datatype Transaction = Transaction(
    transactionId: string,
    senderAccount: string,
    receiverAccount: string,
    amount: real,
    timestamp: string,
    description: Option<string>,
    isRealtime: bool)

  /**
   * The `FraudAssessment` typed dictionary given by the ML assessment agent.
   * `features` maps each feature name to its JSON text.
   */
  datatype FraudAssessment = FraudAssessment(
    probability: real,
    threshold: real,
    isFraud: bool,
    features: map<string, string>,
    modelVersion: string)

  /** The `RuleAssessment` typed dictionary given by the rule assessment agent. */
  datatype RuleAssessment = RuleAssessment(
    isFlagged: bool,
    rulesTriggered: seq<string>,
    version: string)

  /**
   * The JSON object the decision agent answers with. Its `decision` is used
   * as given: nothing checks that it is "approved" or "declined".
   */
  datatype AgentDecision = AgentDecision(
    decision: string,
    confidence: real,
    reasoning: string)

  /**
   * What the language-model agents answer during one `process_transaction`
   * call, as the outcome layer reads them: the coordinator's raw answer, the
   * decision agent's parsed record, the explanation agent's text and the
   * contents of the review chat, in order.
   */
  datatype AgentReplies = AgentReplies(
    coordinator: string,
    decision: AgentDecision,
    explanation: string,
    reviewHistory: seq<string>)

  /**
   * The dictionary `process_transaction` returns. `WithDecision` has the keys
   * `final_decision` and `explanation` (whose value may be `None`);
   * `WithError` has the key `error` instead.
   */
  datatype ProcessResult =
    | WithDecision(
        transaction: Transaction,
        mlAssessment: FraudAssessment,
        ruleAssessment: RuleAssessment,
        finalDecision: string,
        explanation: Option<string>,
        processComplete: bool)
    | WithError(
        transaction: Transaction,
        mlAssessment: FraudAssessment,
        ruleAssessment: RuleAssessment,
        error: string,
        processComplete: bool)
}
