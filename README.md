# Fraud detection outcome layer

A Dafny model of the deterministic part of `FraudDetectionSystem` in
`main.py`: the step that turns the answers of the language-model agents into
the result of a transaction review. Everything the agents do (ML scoring,
rule checking, coordination, automatic decision, explanation, the review
chat with the fraud manager) is an input to the model.

- `wrappers.dfy` — `Option`, for a dictionary value that is missing or `None`.
- `text.dfy` — Python's `str.strip()`, `str.upper()` (ASCII letters) and the
  substring test `needle in haystack`.
- `records.dfy` — the `Transaction`, `FraudAssessment` and `RuleAssessment`
  typed dictionaries, the decision agent's parsed answer, the agents' replies
  (`AgentReplies`) and the two shapes of the dictionary `process_transaction`
  returns.
- `decision_scan.dfy` — the loop that reads the fraud manager's verdict out
  of a chat: messages in order, each upper-cased, the first containing
  GENEHMIGEN gives "approved", otherwise the first containing ABLEHNEN gives
  "declined", and "undecided" when none does. `ExtractDecision` is the loop
  (with its early exit); `FirstVerdict` is the first-match function it is
  proved equal to.
- `termination.dfy` — the `is_termination_msg` test of the Fraud_Manager
  proxy: content present, non-empty, and naming BEENDEN, TERMINATE or EXIT.
- `orchestrator.dfy` — `process_transaction` after the agents have answered:
  the coordinator's answer is stripped and compared with
  `approve_transaction`, `decision_agent` and `generate_explanation`; each
  command yields a fixed record, any other answer an error record.

The routing rule (approve when nothing is suspicious, decide automatically
for a suspicious real-time transfer, explain otherwise) is never computed by
the program: it is text in the coordinator's prompt, and the coordinator's
answer decides. `ProcessTransaction` therefore takes the answer as input.
`PromptRoute` writes the prompt's rule down only to state what follows when
the coordinator obeys it (`CompliantCoordinator`).

Facts about the code that shape the model:
- the next step is chosen by the coordinator agent, whose prompt states the
  routing only as text (main.py:406-411); the code compares the stripped
  answer with the three commands and has an error branch for any other
  answer (main.py:560-568);
- the verdict scan ignores the termination keywords, tests approve before
  decline, and starts at the first message of the chat (main.py:541-549);
- `decision["decision"]` becomes the final decision unchecked
  (main.py:474);
- the code never inspects the assessments; it only passes them along.

## Model

| member | source | states |
|---|---|---|
| Text.Contains | main.py:544 | `needle in haystack` is true exactly when the needle occurs at some index of the haystack |
| Text.Strip | main.py:427 | `strip()` returns a string no longer than its argument that neither starts nor ends with whitespace (Python's `isspace` set) |
| Text.StripSplits | main.py:427 | every string is whitespace, then its stripped core, then whitespace |
| Text.Upper | main.py:543 | `upper()` keeps the length and folds each ASCII letter to upper case, leaving other characters as they are |
| Text.StripPadded | main.py:427 | `strip()` returns the trimmed core of its argument: any whitespace around a core that neither starts nor ends with whitespace is removed and nothing else |
| Text.StripIgnoresPadding | main.py:427 | adding whitespace on either side of a string never changes what `strip()` returns |
| Text.StripIdempotent | main.py:427 | stripping a stripped answer changes nothing |
| DecisionScan.Verdict.Label | main.py:541-548 | the stored label is "undecided" exactly for the undecided verdict |
| DecisionScan.MessageVerdict | main.py:543-548 | one message approves exactly when its upper-cased content contains GENEHMIGEN, declines exactly when it contains ABLEHNEN but not GENEHMIGEN, and is undecided exactly when it contains neither |
| DecisionScan.FirstVerdict | main.py:541-549 | the verdict is undecided exactly when no message, upper-cased, contains GENEHMIGEN or ABLEHNEN; any other verdict is the one some message gives |
| DecisionScan.ExtractDecision | main.py:541-549 | the scan loop with its `break` returns the first-match verdict of the whole history |
| DecisionScan.InteractiveSessionDecision | main.py:667-677 | given the messages the scan walks (assumed to be the session's chat, see "## Left out"), the manual-review entry point returns "approved", "declined" or "undecided", the label of their first-match verdict |
| DecisionScan.FirstMatchDecides | main.py:542-549 | when message k is the first that mentions a keyword, its own verdict is the result |
| DecisionScan.LaterMessagesIgnored | main.py:544-549 | once a history holds a deciding message, appending any further messages leaves the verdict unchanged |
| DecisionScan.ApproveTestedFirst | main.py:544-548 | a first deciding message that contains both keywords yields approved |
| DecisionScan.CaseInsensitive | main.py:543 | lower-casing every message yields the same verdict |
| DecisionScan.ApprovalRequestApproves | main.py:543-545 | a message ending in GENEHMIGEN is an approval on its own |
| DecisionScan.ClosingApprovalDecides | main.py:541-549 | a chat ending in "Bitte GENEHMIGEN", with no keyword in any earlier message, is approved |
| Termination.MentionsAny | main.py:335 | `any(cmd in text ...)` is true exactly when some listed command occurs in the text |
| Termination.IsTerminationMsg | main.py:334-335 | a message without content, or with empty content, never terminates |
| Termination.TerminatesIffKeyword | main.py:334-335 | a message with content terminates exactly when its upper-cased content contains BEENDEN, TERMINATE or EXIT; the emptiness guard never decides alone |
| Termination.TerminationIgnoresCase | main.py:335 | lower-cased content terminates exactly when the original does |
| Termination.LowerCaseExitTerminates | main.py:335 | content ending in a lower-case "exit" terminates |
| Orchestrator.ProcessTransaction | main.py:427-568 | transaction and both assessments are returned unchanged; the result is an error record exactly when the stripped answer is none of the three commands; the run is complete exactly for approve_transaction, decision_agent, or generate_explanation with some deciding chat message |
| Orchestrator.ApproveBranch | main.py:430-438 | approve_transaction gives final decision "approved", no explanation, complete |
| Orchestrator.DecisionAgentBranch | main.py:440-477 | decision_agent gives the decision agent's `decision` as final decision and its `reasoning` as explanation, complete |
| Orchestrator.ExplanationBranch | main.py:479-558 | generate_explanation passes the explanation through, the final decision is the label of the first-match verdict of the review chat (one of the three scan labels), complete exactly when it is not "undecided", and "undecided" exactly when no chat message mentions a keyword |
| Orchestrator.UnexpectedAnswer | main.py:560-568 | any other stripped answer gives an incomplete error record whose message is the fixed prefix followed by that answer, with no final decision |
| Orchestrator.CoordinatorPaddingIgnored | main.py:427 | whitespace around the coordinator's answer never changes the result |
| Orchestrator.PromptRoute | main.py:406-409 | the prompt's routing rule names approve_transaction exactly when neither assessment raises suspicion, decision_agent exactly for a suspicious real-time transfer, and generate_explanation exactly for a suspicious transfer that is not real-time |
| Orchestrator.CompliantCoordinator | main.py:406-477 | if the coordinator answers as its prompt asks, an unsuspicious transaction ends approved without explanation a suspicious real-time one ends with the decision agent's verdict, both complete, and a suspicious one that is not real-time ends with the explanation and the label of the review chat's first-match verdict |
| Orchestrator.OpeningPromptForcesApproval | main.py:510-549 | as written: a review chat that opens with the prompt quoting GENEHMIGEN always ends approved and complete, whatever messages follow it |
| Orchestrator.OpeningPromptApproves | main.py:520-545 | the opening prompt, which quotes the instruction to type GENEHMIGEN or ABLEHNEN, is an approval on its own |
| Orchestrator.ManagerVerdict | main.py:541-549 | corrected scan: the first-match verdict of what the fraud manager typed, undecided exactly when no typed message mentions a keyword |
| Orchestrator.NonHumanMessagesIgnored | main.py:528-538 | corrected scan: inserting a message the manager did not type (the opening prompt, an agent answer, a tool result) never changes the verdict |
| Orchestrator.ManagerVerdictReadsReplies | main.py:541-549 | corrected scan: the first typed message that mentions a keyword gives the verdict, whatever the program, the agent or the tools wrote before it |
| Orchestrator.DeclineAfterQuotedApproval | main.py:520-549 | for the chat [opening prompt, agent answer quoting GENEHMIGEN, manager types ABLEHNEN] the scan as written approves and the corrected scan declines |

## Left out

- Agent construction and every model call (main.py:63-336, 365-425, 455-466, 494-505, 528-538, 591-618, 661-664): their answers are the inputs gathered in `AgentReplies`.
- JSON parsing and prompt templating (main.py:390-412, 468, 600-601): the model receives parsed records; a malformed answer, or a decision object without `decision` or `reasoning`, raises in the program and is not modelled.
- Tool functions and their registration (main.py:174-244, 339-352): canned lookups that return constant JSON.
- The version check and the command-line menu (main.py:681-755).
- DecisionScan.InteractiveSessionDecision: the manual review scans `self.fraud_manager.chat_history` (main.py:668), an attribute of the agent object that `main.py` never sets, while the result of `initiate_chat` is discarded (main.py:661-664). The model assumes that attribute holds the session's messages in order; if the agent has no such attribute, the program fails at main.py:668 and returns no verdict, which the model does not capture.
- `interactive_fraud_manager_session` before its scan (main.py:580-664): agent calls and `print`; only its verdict scan is modelled.
- Text.Upper: folds ASCII letters only. Python's `upper()` is Unicode-aware, and a few non-ASCII letters upper-case to ASCII ones (dotless `ı` becomes `I`, `ẗ` becomes `T` plus a combining mark), so content such as "genehmıgen" is an approval in the program but not in the model; for ASCII content the two agree.
- A coordinator answer whose `content` is `None` makes `.strip()` raise (main.py:427), and an explanation agent answer whose `content` is `None` is passed on as the explanation `None` (main.py:507, 555); the model's answers are always strings, so its explanation is always `Some` text in that branch.
- Orchestrator.ManagerVerdict: the corrected scan needs to know which messages the fraud manager typed. The chat history the program reads does not record this (the opening prompt and the typed replies are both sent by the Fraud_Manager proxy), so the corrected reading assumes that authorship is kept alongside the history.
- A chat message whose `content` is `None` makes the scan's `.upper()` raise (main.py:543, 669); the model's messages always have string content. The termination test handles `None` content and the model covers that.
- Which messages the chat library hands to `is_termination_msg`, and when it stops the chat, is library behaviour outside this model.
- The review chat is started with `clear_history` off (main.py:534), so it may hold earlier messages; the model scans whatever history it is given.
- Floating-point amounts, probabilities and confidences are `real`; they are only passed along. Feature values are kept as their JSON text.

## Findings

The model of `process_transaction` and of the manual review keeps the scan
as written. `Orchestrator.ManagerVerdict` is the corrected reading: it scans
only what the fraud manager typed, so neither the opening prompt nor the
agent's answers and tool results can decide.

| source | as written | input that shows it | evidently intended | confidence | as-written member | corrected member |
|---|---|---|---|---|---|---|
| main.py:510-549 | the verdict scan starts at the first chat message, the opening prompt, whose closing instruction quotes "GENEHMIGEN" (main.py:524; the manual review prompt at main.py:656 quotes it too, and affects that scan whenever the agent attribute it reads holds the session's messages); it also reads the agent's answers and tool results | coordinator answer `generate_explanation`, review chat `[opening prompt, agent answer quoting "GENEHMIGEN", manager types "ABLEHNEN"]`: the result is "approved" and complete | read the verdict from what the fraud manager typed, so that "ABLEHNEN" gives "declined" | not executed; holds whenever the chat history includes the opening message, as the chat library records it | Orchestrator.OpeningPromptForcesApproval | Orchestrator.ManagerVerdictReadsReplies |
