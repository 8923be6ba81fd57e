# Send workflow of the Trinity desktop wallet, in Dafny

This project models the decision logic of the desktop wallet's `Send` view
(`src/desktop/src/ui/views/wallet/Send.js`) with the rendering stripped away:

- how the amount field, a string, is coerced to a number with ECMAScript's
  `parseInt` (no radix) and `|| 0`, and how a number argument is stored back
  as a string (`wrappers.dfy`, `js_numbers.dfy`);
- the message eligibility rule `isMessageAvailable || parseInt(amount || '0') === 0`,
  the message box's `value` and `disabled` conditions, the dispatched amount,
  and which form the confirmation summary takes (`send_policy.dfy`);
- the view as a class `SendForm` holding the store fields `address`,
  `amount`, `message`, the prompt flag `isTransferModalVisible` and a ghost
  trace of the effects the view issues in order: the prevented form
  submission, each change of the prompt's visibility, each seed store it
  asks for and each `sendTransfer` call (`send_view.dfy`).

The class invariant `Valid()` ties the prompt flag to the trace and keeps
the trace well formed: every `sendTransfer` call comes right after the
prompt was closed and a seed store was requested, while the prompt had been
opened by a submission that passed validation; and a value-bearing transfer
never carries a message for an account type that cannot attach one.
`EachTransferHasItsOwnSubmit` derives from it that no two transfers share
one submission.

The per-account-type capability `SeedStore[accountMeta.type].isMessageAvailable`
is a function from the type tag to `bool`, given to the constructor. The
seed store is an opaque type parameter `Store`; the outcome of its
asynchronous construction is the argument of `Confirm`. The validator's
result is the argument of `Submit`.

`Send.js:96` keeps the message only for an empty amount or one that parses
to exactly 0, so `"-5"`, `"abc"` and `"   "` drop it for an account type
without the capability (`EnabledBoxMayStillSuppress`). `Send.js:100` sends
a negative parse as it is, unclamped.

## Model

| member | source | states |
|---|---|---|
| `JsNumbers.TrimStartRemovesLeadingWhiteSpace` | src/desktop/src/ui/views/wallet/Send.js:100 | parseInt's first step: what is left is the suffix after the longest run of white space and line terminators |
| `JsNumbers.DigitPrefixIsLongest` | src/desktop/src/ui/views/wallet/Send.js:100 | parseInt reads the longest run of digits of the radix: every character before the end of the run is a digit and the one at it is not |
| `JsNumbers.ParseIntIgnoresLeadingWhiteSpace` | src/desktop/src/ui/views/wallet/Send.js:100 | leading white space never changes what `parseInt(amount)` returns |
| `JsNumbers.ParseIntStopsAtNonDigit` | src/desktop/src/ui/views/wallet/Send.js:100 | a run of decimal digits followed by a non-digit parses to the run's value (trailing text is ignored), except for the `0x` prefix |
| `JsNumbers.ParseIntSign` | src/desktop/src/ui/views/wallet/Send.js:100 | a leading `-` negates the parse (NaN stays NaN), a leading `+` changes nothing |
| `JsNumbers.ParseIntOfEmptyOrText` | src/desktop/src/ui/views/wallet/Send.js:100 | `""`, blank text, `"abc"` and a bare `"0x"` all parse to NaN |
| `JsNumbers.ParseIntOfNumerals` | src/desktop/src/ui/views/wallet/Send.js:96 | `"0"` parses to 0 and `"-5"` to -5 |
| `JsNumbers.ParseIntOfPaddedNumeral` | src/desktop/src/ui/views/wallet/Send.js:121 | `" 42px"` parses to 42 |
| `JsNumbers.ParseIntOfHexNumeral` | src/desktop/src/ui/views/wallet/Send.js:121 | without a radix, `"0x1A"` is read in hexadecimal as 26 |
| `JsNumbers.NatToDecimal` | src/desktop/src/ui/views/wallet/Send.js:109-111 | a number's decimal string is non-empty, all digits, and has no leading zero |
| `JsNumbers.DecimalValueOfNumeral` | src/desktop/src/ui/views/wallet/Send.js:109-111 | reading the decimal digits of `n` gives back `n` |
| `JsNumbers.ParseIntOfIntToString` | src/desktop/src/ui/views/wallet/Send.js:108-112 | `parseInt(n.toString()) === n` for every safe integer `n` |
| `SendPolicy.DispatchedAmount` | src/desktop/src/ui/views/wallet/Send.js:100 | the amount sent is 0 exactly when the parse is NaN or 0; otherwise it is the parsed integer, negative values included |
| `SendPolicy.EligibleMessage` | src/desktop/src/ui/views/wallet/Send.js:95-98 | the message sent (and shown, line 175) is either the stored message or `''` |
| `SendPolicy.ParsesToZeroCases` | src/desktop/src/ui/views/wallet/Send.js:96 | `parseInt(amount \|\| '0') === 0` holds exactly when the field is empty or parses to 0 |
| `SendPolicy.MessageKeptWithCapability` | src/desktop/src/ui/views/wallet/Send.js:95-98 | with `isMessageAvailable` the stored message is sent whatever the amount |
| `SendPolicy.MessageRuleWithoutCapability` | src/desktop/src/ui/views/wallet/Send.js:95-98 | without it the stored message is sent exactly when the amount is `""` or parses to 0, and `''` otherwise |
| `SendPolicy.NoMessageOnValueTransfer` | src/desktop/src/ui/views/wallet/Send.js:95-100 | for an account type without the capability, a non-zero dispatched amount always goes with the message `''` |
| `SendPolicy.DisabledBoxShowsNoMessage` | src/desktop/src/ui/views/wallet/Send.js:175-177 | a disabled message box shows `''`, and then the summary names an amount |
| `SendPolicy.EnabledBoxMayStillSuppress` | src/desktop/src/ui/views/wallet/Send.js:175-177 | the converse fails: for `"abc"`, `"   "` and `"-5"` the box is enabled yet shows and sends `''`; these dispatch 0, 0 and -5 |
| `SendPolicy.SummaryMatchesDispatch` | src/desktop/src/ui/views/wallet/Send.js:120-127 | the summary is the amount-and-value form exactly when the dispatched amount is positive, and it carries the field's text |
| `SendPolicy.SummaryMessageOnlyCases` | src/desktop/src/ui/views/wallet/Send.js:120-127 | empty, zero, negative and non-numeric amounts confirm as a message only |
| `SendPolicy.StoredNumberReadsBack` | src/desktop/src/ui/views/wallet/Send.js:108-112 | a non-zero safe integer stored as its string is dispatched as itself, is summarised as a value exactly when positive, and does not count as zero for eligibility |
| `SendPolicy.ValuedTransferScenario` | src/desktop/src/ui/views/wallet/Send.js:95-127 | amount `"1000000"`, capable account type: value summary, 1000000 and `"hi"` sent |
| `SendPolicy.EmptyAmountScenario` | src/desktop/src/ui/views/wallet/Send.js:95-127 | amount `""`: message-only summary, 0 and `"hi"` sent |
| `SendPolicy.NoCapabilityScenario` | src/desktop/src/ui/views/wallet/Send.js:95-100 | amount `"500"`, account type without the capability: 500 and `''` sent |
| `SendView.AfterSubmit` | src/desktop/src/ui/views/wallet/Send.js:76-84 | a submission keeps the trace well formed and leaves the prompt open exactly when validation passed |
| `SendView.AfterCancel` | src/desktop/src/ui/views/wallet/Send.js:138 | a cancellation keeps the trace well formed and leaves the prompt closed |
| `SendView.AfterConfirm` | src/desktop/src/ui/views/wallet/Send.js:86-101 | a confirmation from the open prompt whose transfer obeys the message rule keeps the trace well formed and closes the prompt |
| `SendView.AfterRejectedSeedStore` | src/desktop/src/ui/views/wallet/Send.js:89-93 | a confirmation whose seed store is rejected closes the prompt and sends nothing |
| `SendView.EachTransferHasItsOwnSubmit` | src/desktop/src/ui/views/wallet/Send.js:135-139 | every transfer is preceded by a prevented submission that opened the prompt, with no other transfer in between |
| `SendView.SendForm.constructor` | src/desktop/src/ui/views/wallet/Send.js:71-74 | the prompt starts closed and nothing has been issued |
| `SendView.SendForm.Submit` | src/desktop/src/ui/views/wallet/Send.js:76-84 | `preventDefault` first, then the prompt's visibility becomes the validator's result; no field changes and nothing is sent |
| `SendView.SendForm.Cancel` | src/desktop/src/ui/views/wallet/Send.js:138 | the prompt closes; no seed store is requested and nothing is sent |
| `SendView.SendForm.Confirm` | src/desktop/src/ui/views/wallet/Send.js:86-101 | the prompt closes before the seed store is requested; with a store exactly one `sendTransfer(store, address, parseInt(amount) \|\| 0, eligible message)` follows; fields are unchanged |
| `SendView.SendForm.UpdateFields` | src/desktop/src/ui/views/wallet/Send.js:103-114 | the address is always set; the message only when truthy; the amount only when truthy, a number as its decimal string (which then dispatches as that number); nothing else changes |
| `SendView.SendForm.SetAmount` | src/desktop/src/ui/views/wallet/Send.js:172 | the amount input replaces the amount and nothing else |
| `SendView.SendForm.SetMessage` | src/desktop/src/ui/views/wallet/Send.js:178 | the message box replaces the message and nothing else |

## Left out

- Rendering: the JSX, CSS, the `Balance`, `Checksum`, `Progress`, `Button` and `Icon` widgets, the `progress` payload, and the `t()` translation lookups.
- `formatIotas` and `formatMonetaryValue`: external formatters, and the fiat value is a floating-point product; the summary records only which form is taken and the amount text it formats.
- The unit legend and `isUnitsVisible`: static display text, a flag that starts false and is only ever set to false.
- `MAX_MESSAGE_LENGTH`: handed to the text widget, never enforced here.
- The `SeedStore` class and its construction (password, account metadata): an opaque `Store`; the password is not modelled. `libs/SeedStore` is not part of this model.
- `sendTransfer`, `validateInputs` and the `setSend*Field` store actions: a trace entry, a boolean argument and field assignments.
- Asynchronous scheduling: `Confirm` runs as one straight-line step. The source reads the props before its `await`, so the fields used are those at the time of the click, which is what the model uses.
- `JsNumbers.ParseInt`: does not model the rounding of results beyond 2^53 to the nearest double, nor the distinction between `-0` and `0` (every use treats them alike).
- `SendView.SendForm.Submit`: does not model the `isSending` gate (lines 182-194), which replaces the submit button with a progress bar while a transfer is in flight; in the model `Confirm` issues its transfer in one atomic step, so there is no in-flight state to gate on, and what the external send pipeline does after `sendTransfer` is not modelled.
- `SendView.SendForm`: the account type, account name and the capability lookup are fixed for one instance, whereas `Send.js` re-reads `accountMeta` and `accountName` from its props on every render (lines 117, 129) and at every confirmation (line 87); an account switch while the view is mounted is not modelled.
- `JsNumbers.IntToString`: defined only for safe integers; `toString` of larger magnitudes (exponent notation from 10^21 on, rounded digits beyond 2^53) is not modelled, and `JsNumbers.ParseIntOfIntToString` and `SendPolicy.StoredNumberReadsBack` are stated for safe integers only.
- `SendView.SendForm.UpdateFields`: a number argument is a safe integer; fractional numbers, `NaN`, `Infinity` and integers beyond 2^53 (and their `toString` forms) are not modelled, and the message argument is a string or `undefined`.
- `SendView.SendForm.Confirm`: requires the prompt to be open, because its handler is reachable only from the open `Confirm` dialog (lines 135-139); the component itself does not check it.
