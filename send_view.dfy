/**
 * The send view's workflow state: the three store fields it edits, the
 * visibility of the confirmation prompt, and a ghost trace of the effects it
 * issues in order (the prevented form submission, every change of the prompt's
 * visibility, every seed store it asks for and every sendTransfer call).
 */
module SendView {
  import opened Wrappers
  import opened JsNumbers
  import opened SendPolicy

  /** The tag `accountMeta.type` that selects a SeedStore variant. */
  type AccountType = string

  /** The `amount` argument of updateFields: absent, a string, or a number. */
  datatype AmountArgument = Undefined | Text(text: string) | Number(number: SafeInteger)

  /** The arguments of one sendTransfer call; `Store` is the opaque seed store. */
  datatype Transfer<Store> = Transfer(seedStore: Store, address: string, value: int, message: string)

  datatype Effect<Store> =
    | DefaultPrevented
    | ModalVisibility(visible: bool)
    | SeedStoreRequested(accountType: AccountType, accountName: string)
    | TransferSent(transfer: Transfer<Store>)

  // ----- Properties of a trace -----

  /** Whether the prompt is open after the effects in `tr`; it starts closed. */
  ghost function LastVisibility<S>(tr: seq<Effect<S>>): bool {
    if tr == [] then false
    else if tr[|tr| - 1].ModalVisibility? then tr[|tr| - 1].visible
    else LastVisibility(tr[..|tr| - 1])
  }

  /** The prompt was opened at `k` by a submission: the default action was prevented just before. */
  ghost predicate SubmittedAt<S>(tr: seq<Effect<S>>, k: int)
    requires 0 <= k < |tr|
  {
    1 <= k && tr[k - 1] == DefaultPrevented
  }

  /** The transfer at `i` was issued by a confirmation: the prompt was open, was
      closed, and then a seed store was requested. */
  ghost predicate ConfirmedAt<S>(tr: seq<Effect<S>>, i: int)
    requires 0 <= i < |tr|
  {
    2 <= i && tr[i - 2] == ModalVisibility(false) && tr[i - 1].SeedStoreRequested?
    && LastVisibility(tr[..i - 2])
  }

  /** A value-bearing transfer carries no message unless the account type allows one. */
  ghost predicate RespectsMessagePolicy<S>(messageAvailable: bool, t: Transfer<S>) {
    messageAvailable || t.value == 0 || t.message == ""
  }

  ghost predicate WellFormedTrace<S>(tr: seq<Effect<S>>, messageAvailable: bool) {
    (forall k :: 0 <= k < |tr| && tr[k] == ModalVisibility(true) ==> SubmittedAt(tr, k))
    && (forall i :: 0 <= i < |tr| && tr[i].TransferSent? ==>
          ConfirmedAt(tr, i) && RespectsMessagePolicy(messageAvailable, tr[i].transfer))
  }

  lemma LastVisibilityAppend<S>(tr: seq<Effect<S>>, e: Effect<S>)
    ensures LastVisibility(tr + [e]) == if e.ModalVisibility? then e.visible else LastVisibility(tr)
  {
    assert (tr + [e])[..|tr|] == tr;
  }

  /** Appending effects keeps what the earlier effects established. */
  lemma WellFormedPrefix<S>(tr: seq<Effect<S>>, ext: seq<Effect<S>>, messageAvailable: bool)
    requires WellFormedTrace(tr, messageAvailable)
    ensures forall k :: 0 <= k < |tr| && tr[k] == ModalVisibility(true) ==> SubmittedAt(tr + ext, k)
    ensures forall i :: 0 <= i < |tr| && tr[i].TransferSent? ==> ConfirmedAt(tr + ext, i)
  {
    forall i | 0 <= i < |tr| && tr[i].TransferSent?
      ensures ConfirmedAt(tr + ext, i)
    {
      assert (tr + ext)[..i - 2] == tr[..i - 2];
    }
  }

  /** Submitting keeps the trace well formed, and the prompt is then open exactly when validation passed. */
  lemma {:induction false} AfterSubmit<S>(tr: seq<Effect<S>>, valid: bool, messageAvailable: bool)
    requires WellFormedTrace(tr, messageAvailable)
    ensures WellFormedTrace(tr + [DefaultPrevented, ModalVisibility(valid)], messageAvailable)
    ensures LastVisibility(tr + [DefaultPrevented, ModalVisibility(valid)]) == valid
  {
    var tr' := tr + [DefaultPrevented, ModalVisibility(valid)];
    WellFormedPrefix(tr, [DefaultPrevented, ModalVisibility(valid)], messageAvailable);
    assert tr' == (tr + [DefaultPrevented]) + [ModalVisibility(valid)];
    LastVisibilityAppend(tr + [DefaultPrevented], ModalVisibility(valid));
  }

  /** Cancelling keeps the trace well formed and leaves the prompt closed. */
  lemma {:induction false} AfterCancel<S>(tr: seq<Effect<S>>, messageAvailable: bool)
    requires WellFormedTrace(tr, messageAvailable)
    ensures WellFormedTrace(tr + [ModalVisibility(false)], messageAvailable)
    ensures !LastVisibility(tr + [ModalVisibility(false)])
  {
    WellFormedPrefix(tr, [ModalVisibility(false)], messageAvailable);
    LastVisibilityAppend(tr, ModalVisibility(false));
  }

  /** Confirming from an open prompt with a transfer that respects the message
      policy keeps the trace well formed and leaves the prompt closed. */
  lemma {:induction false} AfterConfirm<S>(tr: seq<Effect<S>>, messageAvailable: bool,
                                          accountType: AccountType, accountName: string, t: Transfer<S>)
    requires WellFormedTrace(tr, messageAvailable) && LastVisibility(tr)
    requires RespectsMessagePolicy(messageAvailable, t)
    ensures WellFormedTrace(tr + [ModalVisibility(false), SeedStoreRequested(accountType, accountName), TransferSent(t)], messageAvailable)
    ensures !LastVisibility(tr + [ModalVisibility(false), SeedStoreRequested(accountType, accountName), TransferSent(t)])
  {
    var a := tr + [ModalVisibility(false)];
    var b := a + [SeedStoreRequested(accountType, accountName)];
    var c := b + [TransferSent(t)];
    assert c == tr + [ModalVisibility(false), SeedStoreRequested(accountType, accountName), TransferSent(t)];
    WellFormedPrefix(tr, [ModalVisibility(false), SeedStoreRequested(accountType, accountName), TransferSent(t)], messageAvailable);
    assert c[..|tr|] == tr;
    assert ConfirmedAt(c, |tr| + 2);
    LastVisibilityAppend(tr, ModalVisibility(false));
    LastVisibilityAppend(a, SeedStoreRequested(accountType, accountName));
    LastVisibilityAppend(b, TransferSent(t));
  }

  /** A confirmation whose seed store request is rejected closes the prompt and sends nothing. */
  lemma {:induction false} AfterRejectedSeedStore<S>(tr: seq<Effect<S>>, messageAvailable: bool,
                                                    accountType: AccountType, accountName: string)
    requires WellFormedTrace(tr, messageAvailable)
    ensures WellFormedTrace(tr + [ModalVisibility(false), SeedStoreRequested(accountType, accountName)], messageAvailable)
    ensures !LastVisibility(tr + [ModalVisibility(false), SeedStoreRequested(accountType, accountName)])
  {
    var a := tr + [ModalVisibility(false)];
    assert a + [SeedStoreRequested(accountType, accountName)]
        == tr + [ModalVisibility(false), SeedStoreRequested(accountType, accountName)];
    WellFormedPrefix(tr, [ModalVisibility(false), SeedStoreRequested(accountType, accountName)], messageAvailable);
    LastVisibilityAppend(tr, ModalVisibility(false));
    LastVisibilityAppend(a, SeedStoreRequested(accountType, accountName));
  }

  /** When the prompt is open, some effect opened it and nothing changed its visibility since. */
  lemma {:induction false} LastVisibilityWitness<S>(tr: seq<Effect<S>>) returns (k: nat)
    requires LastVisibility(tr)
    ensures k < |tr| && tr[k] == ModalVisibility(true)
    ensures forall m :: k < m < |tr| ==> !tr[m].ModalVisibility?
  {
    var n := |tr| - 1;
    if tr[n].ModalVisibility? {
      k := n;
    } else {
      k := LastVisibilityWitness(tr[..n]);
      assert forall m :: k < m < n ==> tr[m] == tr[..n][m];
    }
  }

  /** Every sendTransfer call has a submission of its own: some earlier effect
      opened the prompt right after a prevented form submission, and no other
      transfer was sent in between. */
  lemma EachTransferHasItsOwnSubmit<S>(tr: seq<Effect<S>>, messageAvailable: bool, j: int) returns (k: nat)
    requires WellFormedTrace(tr, messageAvailable)
    requires 0 <= j < |tr| && tr[j].TransferSent?
    ensures 0 < k < j && tr[k] == ModalVisibility(true) && tr[k - 1] == DefaultPrevented
    ensures forall i :: k < i < j ==> !tr[i].TransferSent?
  {
    assert ConfirmedAt(tr, j);
    var s := tr[..j - 2];
    k := LastVisibilityWitness(s);
    assert tr[k] == s[k];
    assert SubmittedAt(tr, k);
  }

  // ----- The view -----

  class SendForm<Store> {
    var address: string
    var amount: string
    var message: string
    /** The component state `isTransferModalVisible`. */
    var modalVisible: bool
    const accountType: AccountType
    const accountName: string
    /** `SeedStore[type].isMessageAvailable` for each account type. */
    const messageCapability: AccountType -> bool
    ghost var trace: seq<Effect<Store>>

    function MessageAvailable(): bool {
      messageCapability(accountType)
    }

    ghost predicate Valid()
      reads this
    {
      modalVisible == LastVisibility(trace) && WellFormedTrace(trace, MessageAvailable())
    }

    /** The prompt starts closed and no effect has been issued. */
    constructor (accountType: AccountType, accountName: string, messageCapability: AccountType -> bool,
                 address: string, amount: string, message: string)
      ensures Valid()
      ensures this.accountType == accountType && this.accountName == accountName
      ensures this.messageCapability == messageCapability
      ensures this.address == address && this.amount == amount && this.message == message
      ensures !modalVisible && trace == []
    {
      this.accountType := accountType;
      this.accountName := accountName;
      this.messageCapability := messageCapability;
      this.address := address;
      this.amount := amount;
      this.message := message;
      modalVisible := false;
      trace := [];
    }

    /** The form's submit handler: prevent the default action, then open the
        prompt exactly when the injected validator returned `valid`. */
    method Submit(valid: bool)
      requires Valid()
      modifies this
      ensures Valid() && modalVisible == valid
      ensures address == old(address) && amount == old(amount) && message == old(message)
      ensures trace == old(trace) + [DefaultPrevented, ModalVisibility(valid)]
    {
      trace := trace + [DefaultPrevented];
      modalVisible := valid;
      trace := trace + [ModalVisibility(valid)];
      assert trace == old(trace) + [DefaultPrevented, ModalVisibility(valid)];
      AfterSubmit(old(trace), valid, MessageAvailable());
    }

    /** The prompt's cancel handler: close it, and nothing else. */
    method Cancel()
      requires Valid()
      modifies this
      ensures Valid() && !modalVisible
      ensures address == old(address) && amount == old(amount) && message == old(message)
      ensures trace == old(trace) + [ModalVisibility(false)]
    {
      AfterCancel(trace, MessageAvailable());
      modalVisible := false;
      trace := trace + [ModalVisibility(false)];
    }

    /**
     * confirmTransfer, reachable only from the open prompt: close the prompt,
     * then request a seed store for the account. `seedStore` is what that
     * request settled to: Some store, or None when it was rejected (a wrong
     * password, say), in which case nothing more happens. With a store,
     * sendTransfer is called once with it, the address, the dispatched amount
     * and the eligible message.
     */
    method Confirm(seedStore: Option<Store>)
      requires Valid() && modalVisible
      modifies this
      ensures Valid() && !modalVisible
      ensures address == old(address) && amount == old(amount) && message == old(message)
      ensures seedStore.None? ==>
                trace == old(trace) + [ModalVisibility(false), SeedStoreRequested(accountType, accountName)]
      ensures seedStore.Some? ==>
                trace == old(trace) + [ModalVisibility(false), SeedStoreRequested(accountType, accountName),
                                       TransferSent(Transfer(seedStore.value, address, DispatchedAmount(amount),
                                                             EligibleMessage(MessageAvailable(), amount, message)))]
    {
      ghost var before := trace;
      modalVisible := false;
      trace := trace + [ModalVisibility(false)];
      trace := trace + [SeedStoreRequested(accountType, accountName)];
      match seedStore {
        case None =>
          assert trace == before + [ModalVisibility(false), SeedStoreRequested(accountType, accountName)];
          AfterRejectedSeedStore(before, MessageAvailable(), accountType, accountName);
        case Some(store) =>
          var sentMessage := EligibleMessage(MessageAvailable(), amount, message);
          var value := DispatchedAmount(amount);
          var t := Transfer(store, address, value, sentMessage);
          if !MessageAvailable() && value != 0 {
            NoMessageOnValueTransfer(MessageAvailable(), amount, message);
          }
          trace := trace + [TransferSent(t)];
          assert trace == before + [ModalVisibility(false), SeedStoreRequested(accountType, accountName), TransferSent(t)];
          AfterConfirm(before, MessageAvailable(), accountType, accountName, t);
      }
    }

    /**
     * updateFields: always store the address; store the message only when it
     * is truthy; store the amount only when it is truthy, a number through its
     * decimal string.
     */
    method UpdateFields(newAddress: string, newMessage: Option<string>, newAmount: AmountArgument)
      requires Valid()
      modifies this
      ensures Valid()
      ensures address == newAddress
      ensures message == if newMessage.Some? && newMessage.value != "" then newMessage.value else old(message)
      ensures amount == match newAmount
                        case Undefined => old(amount)
                        case Text(s) => if s != "" then s else old(amount)
                        case Number(n) => if n != 0 then IntToString(n) else old(amount)
      ensures newAmount.Number? && newAmount.number != 0 ==> DispatchedAmount(amount) == newAmount.number
      ensures modalVisible == old(modalVisible) && trace == old(trace)
    {
      address := newAddress;
      if newMessage.Some? && newMessage.value != "" {
        message := newMessage.value;
      }
      match newAmount {
        case Undefined =>
        case Text(s) =>
          if s != "" {
            amount := s;
          }
        case Number(n) =>
          if n != 0 {
            amount := IntToString(n);
            StoredNumberReadsBack(n);
          }
      }
    }

    /** The amount input's change handler. */
    method SetAmount(value: string)
      requires Valid()
      modifies this
      ensures Valid() && amount == value
      ensures address == old(address) && message == old(message)
      ensures modalVisible == old(modalVisible) && trace == old(trace)
    {
      amount := value;
    }

    /** The message box's change handler. */
    method SetMessage(value: string)
      requires Valid()
      modifies this
      ensures Valid() && message == value
      ensures address == old(address) && amount == old(amount)
      ensures modalVisible == old(modalVisible) && trace == old(trace)
    {
      message := value;
    }
  }
}
