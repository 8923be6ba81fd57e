/**
 * The decisions the send view derives from the amount field: the amount that
 * is dispatched, whether the stored message may go with it, whether the
 * message box is disabled, and which form the confirmation summary takes.
 * Each is a pure expression over the three fields and the account type's
 * message capability.
 */
module SendPolicy {
  import opened Wrappers
  import opened JsNumbers

  /** `parseInt(amount) || 0`: NaN and zero are falsy and give 0; every other
      value, a negative one included, is dispatched unchanged. */
  function DispatchedAmount(amount: string): (v: int)
    ensures v == 0 <==> ParseInt(amount).None? || ParseInt(amount) == Some(0)
    ensures v != 0 ==> ParseInt(amount) == Some(v)
  {
    ParseInt(amount).GetOr(0)
  }

  /** `parseInt(amount || '0') === 0`: the empty string is read as "0", and NaN is not 0. */
  predicate ParsesToZero(amount: string) {
    ParseInt(if amount == "" then "0" else amount) == Some(0)
  }

  /** `isMessageAvailable || parseInt(amount || '0') === 0`: the account type may
      attach messages, or the transfer carries no value. */
  predicate MessageAllowed(messageAvailable: bool, amount: string) {
    messageAvailable || ParsesToZero(amount)
  }

  /** The message that confirmTransfer sends and that the message box shows:
      both use the same expression, the stored message when it is allowed and
      the empty string otherwise. */
  function EligibleMessage(messageAvailable: bool, amount: string, message: string): (m: string)
    ensures m == message || m == ""
  {
    if MessageAllowed(messageAvailable, amount) then message else ""
  }

  /** `parseInt(amount) > 0`; NaN compares false. */
  predicate IsPositiveAmount(amount: string) {
    ParseInt(amount).Some? && ParseInt(amount).value > 0
  }

  /** `!isMessageAvailable && parseInt(amount) > 0`: the message box cannot be edited. */
  predicate MessageBoxDisabled(messageAvailable: bool, amount: string) {
    !messageAvailable && IsPositiveAmount(amount)
  }

  /** What the confirmation prompt says is being sent: the amount (which the
      view formats together with its fiat value) or only "a message". */
  datatype TransferContents = AmountWithValue(amount: string) | MessageOnly

  function ConfirmationContents(amount: string): TransferContents {
    if IsPositiveAmount(amount) then AmountWithValue(amount) else MessageOnly
  }

  // ----- Lemmas -----

  /** Zero for eligibility means: the field is empty, or it parses to 0. */
  lemma ParsesToZeroCases(amount: string)
    ensures ParsesToZero(amount) <==> amount == "" || ParseInt(amount) == Some(0)
  {
    ParseIntOfNumerals();
  }

  /** An account type that may attach messages always sends the stored message, whatever the amount. */
  lemma MessageKeptWithCapability(amount: string, message: string)
    ensures EligibleMessage(true, amount, message) == message
  {
  }

  /** Without the capability the stored message is kept exactly when the amount
      field is empty or parses to 0; any other amount, NaN included, sends ''. */
  lemma MessageRuleWithoutCapability(amount: string, message: string)
    ensures EligibleMessage(false, amount, message)
         == if amount == "" || ParseInt(amount) == Some(0) then message else ""
  {
    ParsesToZeroCases(amount);
  }

  /** The reason for the rule: a transfer that carries value never carries a
      message for an account type that cannot attach one. */
  lemma NoMessageOnValueTransfer(messageAvailable: bool, amount: string, message: string)
    requires !messageAvailable && DispatchedAmount(amount) != 0
    ensures EligibleMessage(messageAvailable, amount, message) == ""
  {
    ParseIntOfEmptyOrText();
    ParsesToZeroCases(amount);
  }

  /** A disabled message box always shows the empty string. */
  lemma DisabledBoxShowsNoMessage(messageAvailable: bool, amount: string, message: string)
    requires MessageBoxDisabled(messageAvailable, amount)
    ensures EligibleMessage(messageAvailable, amount, message) == ""
    ensures ConfirmationContents(amount).AmountWithValue?
  {
    ParseIntOfEmptyOrText();
    ParsesToZeroCases(amount);
  }

  /** The converse fails: with a non-numeric, blank or negative amount the box
      stays enabled, yet what it shows and what is sent is ''. A non-numeric
      amount dispatches 0 and a negative one is dispatched as it is. */
  lemma EnabledBoxMayStillSuppress(message: string)
    ensures !MessageBoxDisabled(false, "abc") && EligibleMessage(false, "abc", message) == ""
    ensures !MessageBoxDisabled(false, "   ") && EligibleMessage(false, "   ", message) == ""
    ensures !MessageBoxDisabled(false, "-5") && EligibleMessage(false, "-5", message) == ""
    ensures DispatchedAmount("abc") == 0 && DispatchedAmount("   ") == 0 && DispatchedAmount("-5") == -5
  {
    ParseIntOfEmptyOrText();
    ParseIntOfNumerals();
  }

  /** The summary names an amount exactly when a positive amount is dispatched,
      and then it names the field's own text. */
  lemma SummaryMatchesDispatch(amount: string)
    ensures ConfirmationContents(amount).AmountWithValue? <==> DispatchedAmount(amount) > 0
    ensures ConfirmationContents(amount).AmountWithValue? ==> ConfirmationContents(amount).amount == amount
  {
  }

  /** Empty, zero, negative and non-numeric amounts all confirm as a message only. */
  lemma SummaryMessageOnlyCases()
    ensures ConfirmationContents("") == MessageOnly
    ensures ConfirmationContents("0") == MessageOnly
    ensures ConfirmationContents("-5") == MessageOnly
    ensures ConfirmationContents("abc") == MessageOnly
  {
    ParseIntOfEmptyOrText();
    ParseIntOfNumerals();
  }

  /** A non-zero number stored through its decimal string is dispatched as that
      number, and is summarised as a value exactly when it is positive. */
  lemma StoredNumberReadsBack(n: SafeInteger)
    requires n != 0
    ensures DispatchedAmount(IntToString(n)) == n
    ensures ConfirmationContents(IntToString(n)).AmountWithValue? <==> n > 0
    ensures !ParsesToZero(IntToString(n))
  {
    ParseIntOfIntToString(n);
  }

  /** A valued transfer from an account type that may attach messages: the
      summary names the amount, which is sent with the message. */
  lemma ValuedTransferScenario()
    ensures ConfirmationContents("1000000") == AmountWithValue("1000000")
    ensures DispatchedAmount("1000000") == 1000000 && EligibleMessage(true, "1000000", "hi") == "hi"
  {
    assert IntToString(1000000) == "1000000";
    StoredNumberReadsBack(1000000);
  }

  /** The same with the amount left empty: a message-only summary, 0 sent, message kept. */
  lemma EmptyAmountScenario()
    ensures ConfirmationContents("") == MessageOnly
    ensures DispatchedAmount("") == 0 && EligibleMessage(true, "", "hi") == "hi"
  {
    ParseIntOfEmptyOrText();
  }

  /** A valued transfer from an account type that may not attach messages: the message is dropped. */
  lemma NoCapabilityScenario()
    ensures DispatchedAmount("500") == 500 && EligibleMessage(false, "500", "secret") == ""
  {
    assert IntToString(500) == "500";
    StoredNumberReadsBack(500);
    NoMessageOnValueTransfer(false, "500", "secret");
  }
}
