/**
 * The `is_termination_msg` test of the Fraud_Manager proxy agent: a message
 * ends the chat when it has content and that content, upper-cased, names one
 * of the termination commands.
 */
module Termination {
  import opened Wrappers
  import opened Text

  const TerminationKeywords: seq<string> := ["BEENDEN", "TERMINATE", "EXIT"]

  /** Python's `any(cmd in upper for cmd in keywords)`. */
  function MentionsAny(upper: string, keywords: seq<string>): (r: bool)
    ensures r <==> exists k :: 0 <= k < |keywords| && Contains(upper, keywords[k])
  {
    if keywords == [] then false
    else Contains(upper, keywords[0]) || MentionsAny(upper, keywords[1..])
  }

  /**
   * `content` is the message's `content` entry: `None` when the key is
   * missing or holds `None`, both of which make the test falsy.
   */
  function IsTerminationMsg(content: Option<string>): (r: bool)
    ensures r ==> content.Some? && content.value != []
  {
    match content
    case None => false
    case Some(text) => text != [] && MentionsAny(Upper(text), TerminationKeywords)
  }

  /**
   * The emptiness guard never decides anything on its own: a message
   * terminates exactly when its upper-cased content contains BEENDEN,
   * TERMINATE or EXIT.
   */
  lemma TerminatesIffKeyword(text: string)
    ensures IsTerminationMsg(Some(text)) <==>
      Contains(Upper(text), "BEENDEN") || Contains(Upper(text), "TERMINATE") || Contains(Upper(text), "EXIT")
  {
    if text == [] {
      forall k | 0 <= k < |TerminationKeywords|
        ensures !Contains(Upper(text), TerminationKeywords[k])
      {
        NothingInEmpty(TerminationKeywords[k]);
      }
    }
    assert TerminationKeywords[0] == "BEENDEN";
    assert TerminationKeywords[1] == "TERMINATE";
    assert TerminationKeywords[2] == "EXIT";
  }

  /** Letter case does not matter: lower-cased content terminates exactly when the original does. */
  lemma TerminationIgnoresCase(text: string)
    ensures IsTerminationMsg(Some(Lower(text))) == IsTerminationMsg(Some(text))
  {
    UpperOfLower(text);
  }

  /** A manager who types "exit" in lower case ends the chat. */
  lemma LowerCaseExitTerminates(prefix: string)
    ensures IsTerminationMsg(Some(prefix + "exit"))
  {
    var text := prefix + "exit";
    assert Upper(text)[|prefix|..|text|] == "EXIT";
    assert OccursAt(Upper(text), "EXIT", |prefix|);
    TerminatesIffKeyword(text);
  }
}
