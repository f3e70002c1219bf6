/**
 * The "get started" buttons: the button at position `index` among the page's
 * `.get-started-btn` elements reads the value of the `.email-input` at the same
 * position, alerts that it is redirecting when the value passes the email check,
 * and otherwise alerts that the address is invalid and focuses that input.
 * When there are fewer inputs than buttons, `emailInputs[index]` is undefined and
 * reading its value throws a TypeError, so the click has no visible effect.
 */
module GetStarted {
  import opened Optional
  import EmailFormat

  const RedirectMessage := "Redirecting to sign up..."
  const InvalidMessage := "Please enter a valid email address."

  /** What a click on a get-started button does to the page. */
  datatype ClickEffect =
    | Alert(message: string, focused: Option<nat>)   // the alert shown, and the input focused after it, if any
    | TypeErrorThrown                                 // the handler stopped before doing anything visible

  /** The handler of the button at position `index`, given the values of all email inputs in document order. */
  function OnGetStartedClick(emailValues: seq<string>, index: nat): ClickEffect {
    if index >= |emailValues| then TypeErrorThrown
    else if EmailFormat.ValidateEmail(emailValues[index]) then Alert(RedirectMessage, None)
    else Alert(InvalidMessage, Some(index))
  }

  /** The click shows the redirect alert exactly when its own input matches the email pattern, and throws when it has no input. */
  lemma RedirectsExactlyWhenPatternMatches(emailValues: seq<string>, index: nat)
    ensures OnGetStartedClick(emailValues, index) == Alert(RedirectMessage, None)
            <==> index < |emailValues| && EmailFormat.MatchesPattern(emailValues[index])
    ensures OnGetStartedClick(emailValues, index) == TypeErrorThrown <==> index >= |emailValues|
  {
    if index < |emailValues| {
      EmailFormat.ValidateEmailMatchesPattern(emailValues[index]);
    }
  }

  /**
   * A click focuses an input exactly when the paired input exists and fails the
   * pattern, and then it is that input, after the invalid-address alert.
   */
  lemma FocusOnlyPairedInput(emailValues: seq<string>, index: nat)
    ensures index < |emailValues| && !EmailFormat.MatchesPattern(emailValues[index])
            ==> OnGetStartedClick(emailValues, index) == Alert(InvalidMessage, Some(index))
    ensures match OnGetStartedClick(emailValues, index)
            case Alert(message, Some(focused)) =>
              focused == index && message == InvalidMessage
              && !EmailFormat.MatchesPattern(emailValues[index])
            case _ => true
  {
    if index < |emailValues| {
      EmailFormat.ValidateEmailMatchesPattern(emailValues[index]);
    }
  }

  /** Only the input paired with the clicked button matters: the other inputs may hold anything. */
  lemma OnlyPairedInputMatters(values: seq<string>, others: seq<string>, index: nat)
    requires index < |values| && index < |others| && values[index] == others[index]
    ensures OnGetStartedClick(values, index) == OnGetStartedClick(others, index)
  {
  }

  /** An empty paired input draws the invalid-address alert and focuses that input, not another one. */
  lemma EmptyInputFocusesItself(emailValues: seq<string>, index: nat)
    requires index < |emailValues| && emailValues[index] == ""
    ensures OnGetStartedClick(emailValues, index) == Alert(InvalidMessage, Some(index))
  {
    EmailFormat.ValidateEmailCharacterisation("");
  }
}
