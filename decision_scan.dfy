/**
 * How the fraud manager's verdict is read out of a finished review chat:
 * the messages are walked in order, each upper-cased, and the first one that
 * mentions GENEHMIGEN (approve) or ABLEHNEN (decline) decides.
 */
module DecisionScan {
  import opened Text

  const ApproveKeyword := "GENEHMIGEN"
  const DeclineKeyword := "ABLEHNEN"

  datatype Verdict = Approved | Declined | Undecided {
    /** The string the source stores in `final_decision`. */
    function Label(): (s: string)
      ensures s == "undecided" <==> this == Undecided
    {
      match this
      case Approved => "approved"
      case Declined => "declined"
      case Undecided => "undecided"
    }
  }

  /** The verdict one message gives on its own; approval is tested first. */
  function MessageVerdict(content: string): (v: Verdict)
    ensures v == Approved <==> Contains(Upper(content), ApproveKeyword)
    ensures v == Declined <==> !Contains(Upper(content), ApproveKeyword) && Contains(Upper(content), DeclineKeyword)
    ensures v == Undecided <==> !Decides(content)
  {
    var upper := Upper(content);
    if Contains(upper, ApproveKeyword) then Approved
    else if Contains(upper, DeclineKeyword) then Declined
    else Undecided
  }

  /** A message that mentions either keyword, in any letter case. */
  predicate Decides(content: string)
  {
    Contains(Upper(content), ApproveKeyword) || Contains(Upper(content), DeclineKeyword)
  }

  /** The verdict of the first deciding message of `history`, or `Undecided`. */
  function FirstVerdict(history: seq<string>): (v: Verdict)
    ensures v == Undecided <==> forall i :: 0 <= i < |history| ==> !Decides(history[i])
    ensures v != Undecided ==> exists i :: 0 <= i < |history| && MessageVerdict(history[i]) == v
  {
    if history == [] then Undecided
    else if Decides(history[0]) then MessageVerdict(history[0])
    else FirstVerdict(history[1..])
  }

  /**
   * The scan loop of `process_transaction` and of
   * `interactive_fraud_manager_session`: stops at the first deciding message.
   */
  method ExtractDecision(history: seq<string>) returns (v: Verdict)
    ensures v == FirstVerdict(history)
  {
    v := Undecided;
    var i := 0;
    while i < |history|
      invariant 0 <= i <= |history|
      invariant FirstVerdict(history[i..]) == FirstVerdict(history)
    {
      var content := Upper(history[i]);
      if Contains(content, ApproveKeyword) {
        v := Approved;
        break;
      } else if Contains(content, DeclineKeyword) {
        v := Declined;
        break;
      }
      assert history[i..][1..] == history[i + 1..];
      i := i + 1;
    }
  }

  /**
   * The end of `interactive_fraud_manager_session`: the verdict label read
   * from the manager's chat.
   */
  method InteractiveSessionDecision(history: seq<string>) returns (decision: string)
    ensures decision in {"approved", "declined", "undecided"}
    ensures decision == FirstVerdict(history).Label()
  {
    var v := ExtractDecision(history);
    decision := v.Label();
  }

  /**
   * First match: when message `k` is the first deciding one, it alone gives
   * the verdict.
   */
  lemma {:induction false} FirstMatchDecides(history: seq<string>, k: nat)
    requires k < |history| && Decides(history[k])
    requires forall j :: 0 <= j < k ==> !Decides(history[j])
    ensures FirstVerdict(history) == MessageVerdict(history[k])
    ensures FirstVerdict(history) != Undecided
  {
    if k > 0 {
      assert !Decides(history[0]);
      FirstMatchDecides(history[1..], k - 1);
    }
  }

  /**
   * Messages after the first deciding one are never looked at: whatever
   * follows a history that already holds a deciding message leaves the
   * verdict as it was.
   */
  lemma {:induction false} LaterMessagesIgnored(history: seq<string>, later: seq<string>)
    requires FirstVerdict(history) != Undecided
    ensures FirstVerdict(history + later) == FirstVerdict(history)
  {
    assert history != [];
    assert (history + later)[0] == history[0];
    if !Decides(history[0]) {
      assert (history + later)[1..] == history[1..] + later;
      LaterMessagesIgnored(history[1..], later);
    }
  }

  /**
   * Approval wins inside one message: the first deciding message gives
   * `Approved` when it names both keywords.
   */
  lemma ApproveTestedFirst(history: seq<string>, k: nat)
    requires k < |history|
    requires Contains(Upper(history[k]), ApproveKeyword) && Contains(Upper(history[k]), DeclineKeyword)
    requires forall j :: 0 <= j < k ==> !Decides(history[j])
    ensures FirstVerdict(history) == Approved
  {
    FirstMatchDecides(history, k);
  }

  /** Lower-casing every message first gives the same verdict: matching ignores letter case. */
  lemma {:induction false} CaseInsensitive(history: seq<string>, lowered: seq<string>)
    requires |lowered| == |history|
    requires forall i :: 0 <= i < |history| ==> lowered[i] == Lower(history[i])
    ensures FirstVerdict(lowered) == FirstVerdict(history)
  {
    if history != [] {
      UpperOfLower(history[0]);
      CaseInsensitive(history[1..], lowered[1..]);
    }
  }

  /** Both keywords are written in upper case, so upper-casing a message keeps them. */
  lemma KeywordsAreUpper()
    ensures Upper(ApproveKeyword) == ApproveKeyword
    ensures Upper(DeclineKeyword) == DeclineKeyword
  {
    assert forall k :: 0 <= k < |ApproveKeyword| ==> 'A' <= ApproveKeyword[k] <= 'Z';
    assert forall k :: 0 <= k < |DeclineKeyword| ==> 'A' <= DeclineKeyword[k] <= 'Z';
  }

  /** A message that asks for approval in so many words is read as an approval. */
  lemma ApprovalRequestApproves(prefix: string)
    ensures MessageVerdict(prefix + ApproveKeyword) == Approved
  {
    var m := prefix + ApproveKeyword;
    assert m[|prefix|..|m|] == ApproveKeyword;
    assert OccursAt(m, ApproveKeyword, |prefix|);
    KeywordsAreUpper();
    UpperKeepsUpperNeedle(m, ApproveKeyword);
  }

  /** A chat that ends in "Bitte GENEHMIGEN", with nothing deciding before it, is approved. */
  lemma ClosingApprovalDecides(earlier: seq<string>)
    requires forall j :: 0 <= j < |earlier| ==> !Decides(earlier[j])
    ensures FirstVerdict(earlier + ["Bitte " + ApproveKeyword]) == Approved
  {
    var history := earlier + ["Bitte " + ApproveKeyword];
    ApprovalRequestApproves("Bitte ");
    FirstMatchDecides(history, |earlier|);
  }
}
