/** The decision rules of the payments admin (payments/admin.py): which bulk
    actions a user sees, which fields are read-only, which payment the change
    form may process, and the mandate filter of the bank-account list. */
module PaymentsAdmin {
  import opened Wrappers
  import opened Seqs
  import opened AdminCommon

  datatype Payment = Payment(id: nat, processed: bool)

  /** A direct-debit mandate; either date may be unset (NULL). Dates are
      instants, compared as integers. */
  datatype BankAccount = BankAccount(iban: string, validFrom: Option<int>, validUntil: Option<int>)

  const ProcessPermission := "payments.process_payments"

  /** The four processing actions, in the order they are deleted. */
  const ProcessActions: seq<string> :=
    ["process_cash_selected", "process_card_selected", "process_tpay_selected", "process_wire_selected"]

  /** `PaymentAdmin.get_actions`: `base` is what the framework's
      `get_actions` returned. Without the processing permission the four
      processing actions are deleted, and a missing one raises `KeyError`. */
  function GetActions(perms: Permissions, base: Actions): (r: Result<Actions, AdminError>)
    ensures HasPerm(perms, ProcessPermission) ==> r == Success(base)
    ensures !HasPerm(perms, ProcessPermission) ==>
              (r.Success? <==> forall k :: k in ProcessActions ==> k in base)
    ensures !HasPerm(perms, ProcessPermission) && r.Success? ==>
              forall a :: a in r.value <==> a in base && a !in ProcessActions
  {
    if !HasPerm(perms, ProcessPermission) then
      assert NoDuplicates(ProcessActions);
      DeleteActions(base, ProcessActions)
    else Success(base)
  }

  /** An action other than the four processing ones. */
  predicate NotProcessing(a: string) {
    a !in ProcessActions
  }

  /** Without the permission, the actions that remain are the other ones in
      their original order. */
  lemma GetActionsKeepsOthers(perms: Permissions, base: Actions)
    requires !HasPerm(perms, ProcessPermission)
    requires forall k :: k in ProcessActions ==> k in base
    ensures GetActions(perms, base) == Success(Filter(base, NotProcessing))
  {
    assert NoDuplicates(ProcessActions);
    DeleteActionsKeepsOrder(base, ProcessActions);
    FilterSame(base, a => a !in ProcessActions, NotProcessing);
  }

  /** The class's `readonly_fields`: every field of the form. */
  const AllFields: seq<string> :=
    ["created_at", "amount", "type", "processing_date", "paid_by", "processed_by", "topic", "notes"]

  /** The fields the creating user may not fill in. */
  const CreationReadonly: seq<string> := ["created_at", "type", "processing_date", "processed_by"]

  /** `get_readonly_fields`: a new payment (no object) is read-only in its
      creation date, type, processing date and processor; an existing one
      (a model instance is always truthy) in every field. */
  function ReadonlyFields(obj: Option<Payment>): (fields: seq<string>)
    ensures obj.None? ==> fields == CreationReadonly
    ensures obj.Some? ==> fields == AllFields
  {
    if obj.None? then CreationReadonly else AllFields
  }

  /** On creation exactly the amount, payer, topic and notes are editable;
      an existing payment has nothing editable. */
  lemma CreationEditable(f: string)
    requires f in AllFields
    ensures f !in ReadonlyFields(None) <==> f in ["amount", "paid_by", "topic", "notes"]
    ensures forall p: Payment :: f in ReadonlyFields(None) ==> f in ReadonlyFields(Some(p))
    ensures forall p: Payment :: f in ReadonlyFields(Some(p))
  {
  }

  /** `changeform_view`: the change form is handed the payment only when an
      id is given, the user may process payments and the payment is not yet
      processed; an unknown id raises `DoesNotExist`. */
  function ChangeformPayment(perms: Permissions, objectId: Option<nat>, payments: map<nat, Payment>)
    : (r: Result<Option<Payment>, AdminError>)
    ensures r.Failure? <==>
              HasPerm(perms, ProcessPermission) && objectId.Some? && objectId.value !in payments
    ensures r.Success? && r.value.Some? <==>
              HasPerm(perms, ProcessPermission) && objectId.Some? && objectId.value in payments
              && !payments[objectId.value].processed
    ensures r.Success? && r.value.Some? ==> r.value.value == payments[objectId.value]
  {
    GateObject(HasPerm(perms, ProcessPermission), objectId, payments, (p: Payment) => !p.processed)
  }

  /** The feedback texts of `_process_feedback`. */
  const ProcessedMessage := "Successfully processed %(count)d %(items)s."
  const NotProcessedError := "The selected payment(s) could not be processed."

  /** `process_*_selected` followed by `_process_feedback`: `updated` is the
      number of payments the processing service reports as updated. Without
      the permission nothing is processed and no message is posted. */
  function ProcessSelected(perms: Permissions, updated: nat): (m: Option<Message>)
    ensures m.None? <==> !HasPerm(perms, ProcessPermission)
    ensures m.Some? ==> (m.value == ErrorMessage(NotProcessedError) <==> updated == 0)
    ensures m.Some? && updated > 0 ==> m.value == SuccessMessage(ProcessedMessage, updated)
  {
    if HasPerm(perms, ProcessPermission) then Some(ShowMessage(updated, ProcessedMessage, NotProcessedError))
    else None
  }

  /** One permission decides all of processing: holding
      `payments.process_payments` is exactly what keeps the processing
      actions in the list, hands an unprocessed payment to the change form,
      and lets a processing action report back. */
  lemma ProcessPermissionDecides(perms: Permissions, base: Actions, id: nat, payments: map<nat, Payment>,
                                 updated: nat)
    requires forall k :: k in ProcessActions ==> k in base
    requires id in payments && !payments[id].processed
    ensures HasPerm(perms, ProcessPermission) <==> GetActions(perms, base) == Success(base)
    ensures HasPerm(perms, ProcessPermission) <==>
              ChangeformPayment(perms, Some(id), payments) == Success(Some(payments[id]))
    ensures HasPerm(perms, ProcessPermission) <==> ProcessSelected(perms, updated).Some?
  {
    if !HasPerm(perms, ProcessPermission) {
      var r := GetActions(perms, base);
      assert ProcessActions[0] in base && ProcessActions[0] !in r.value;
    }
  }

  /** A processed payment never reaches the change form. */
  lemma ProcessedPaymentHidden(perms: Permissions, id: nat, payments: map<nat, Payment>)
    requires id in payments && payments[id].processed
    ensures ChangeformPayment(perms, Some(id), payments) == Success(None)
  {
  }

  /** `valid_from <= now AND valid_until IS NULL  OR  valid_until < now`
      (`&` binds tighter than `|`; a comparison with NULL is false). */
  predicate SelectedValid(a: BankAccount, now: int) {
    (a.validFrom.Some? && a.validFrom.value <= now && a.validUntil.None?)
    || (a.validUntil.Some? && a.validUntil.value < now)
  }

  /** `valid_until >= now`. */
  predicate SelectedInvalid(a: BankAccount, now: int) {
    a.validUntil.Some? && a.validUntil.value >= now
  }

  /** `valid_from IS NULL`. */
  predicate SelectedNone(a: BankAccount) {
    a.validFrom.None?
  }

  /** `ValidAccountFilter.queryset`: `value` is the chosen lookup, `None`
      when no choice was made; any value other than the three lookups leaves
      the list as it is. */
  function FilterAccounts(value: Option<string>, now: int, accounts: seq<BankAccount>): (r: seq<BankAccount>)
    ensures multiset(r) <= multiset(accounts)
    ensures value == Some("valid") ==> forall a :: a in r <==> a in accounts && SelectedValid(a, now)
    ensures value == Some("invalid") ==> forall a :: a in r <==> a in accounts && SelectedInvalid(a, now)
    ensures value == Some("none") ==> forall a :: a in r <==> a in accounts && SelectedNone(a)
    ensures value !in {Some("valid"), Some("invalid"), Some("none")} ==> r == accounts
  {
    if value == Some("valid") then Filter(accounts, a => SelectedValid(a, now))
    else if value == Some("invalid") then Filter(accounts, a => SelectedInvalid(a, now))
    else if value == Some("none") then Filter(accounts, a => SelectedNone(a))
    else accounts
  }

  /** No account is both valid and invalid. */
  lemma ValidInvalidDisjoint(now: int, accounts: seq<BankAccount>)
    ensures forall a :: a in FilterAccounts(Some("valid"), now, accounts) ==>
              a !in FilterAccounts(Some("invalid"), now, accounts)
  {
  }

  /** The valid and invalid lists together miss exactly the accounts with no
      end date whose start date is unset or still in the future. */
  lemma NeitherValidNorInvalid(a: BankAccount, now: int)
    ensures !SelectedValid(a, now) && !SelectedInvalid(a, now) <==>
              a.validUntil.None? && (a.validFrom.None? || a.validFrom.value > now)
  {
  }
}
