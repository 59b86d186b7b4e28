/** The decision rules of the registrations admin (registrations/admin.py):
    which entry the review form may act on, which bulk actions a user sees,
    which fields are read-only for registrations and renewals, and the
    actions of the registration-payment admin. */
module RegistrationsAdmin {
  import opened Wrappers
  import opened Seqs
  import opened AdminCommon

  /** The review workflow's states that these rules distinguish; the other
      states of an entry are `OtherStatus`. */
  datatype EntryStatus = Review | Accepted | Rejected | OtherStatus

  datatype Entry = Entry(id: nat, status: EntryStatus)

  datatype Payment = Payment(id: nat, processed: bool)

  const ReviewPermission := "registrations.review_entries"
  const PaymentPermission := "registrations.process_payments"

  const ReviewActions: seq<string> := ["accept_selected", "reject_selected"]
  const PaymentActions: seq<string> := ["process_cash_selected", "process_card_selected"]

  /** `RegistrationAdmin.changeform_view`: the form is handed the entry only
      when an id is given, the user may review entries and the entry awaits
      review; an unknown id raises `DoesNotExist`. */
  function ChangeformEntry(perms: Permissions, objectId: Option<nat>, entries: map<nat, Entry>)
    : (r: Result<Option<Entry>, AdminError>)
    ensures r.Failure? <==>
              HasPerm(perms, ReviewPermission) && objectId.Some? && objectId.value !in entries
    ensures r.Success? && r.value.Some? <==>
              HasPerm(perms, ReviewPermission) && objectId.Some? && objectId.value in entries
              && entries[objectId.value].status == Review
    ensures r.Success? && r.value.Some? ==> r.value.value == entries[objectId.value]
  {
    GateObject(HasPerm(perms, ReviewPermission), objectId, entries, (e: Entry) => e.status == Review)
  }

  /** An accepted or rejected entry never reaches the review form. */
  lemma DecidedEntryHidden(perms: Permissions, id: nat, entries: map<nat, Entry>)
    requires id in entries && entries[id].status in {Accepted, Rejected}
    ensures ChangeformEntry(perms, Some(id), entries) == Success(None)
  {
  }

  /** `RegistrationAdmin.get_actions`: without the review permission the
      accept and reject actions are deleted; nothing else changes. */
  function GetActions(perms: Permissions, base: Actions): (r: Result<Actions, AdminError>)
    ensures HasPerm(perms, ReviewPermission) ==> r == Success(base)
    ensures !HasPerm(perms, ReviewPermission) ==>
              (r.Success? <==> "accept_selected" in base && "reject_selected" in base)
    ensures !HasPerm(perms, ReviewPermission) && r.Success? ==>
              forall a :: a in r.value <==> a in base && a !in ReviewActions
  {
    if !HasPerm(perms, ReviewPermission) then
      assert NoDuplicates(ReviewActions);
      DeleteActions(base, ReviewActions)
    else Success(base)
  }

  /** The remaining actions keep their order. */
  lemma GetActionsKeepsOthers(perms: Permissions, base: Actions)
    requires !HasPerm(perms, ReviewPermission)
    requires "accept_selected" in base && "reject_selected" in base
    ensures GetActions(perms, base) == Success(Filter(base, a => a !in ReviewActions))
  {
    assert NoDuplicates(ReviewActions);
    DeleteActionsKeepsOrder(base, ReviewActions);
  }

  const AcceptedMessage := "Successfully accepted %(count)d %(items)s."
  const NotAcceptedError := "The selected registration(s) could not be accepted."
  const RejectedMessage := "Successfully rejected %(count)d %(items)s."
  const NotRejectedError := "The selected registration(s) could not be rejected."

  /** `accept_selected` (when `accept`) or `reject_selected`: `updated` is the
      number of entries the review service reports as changed. Without the
      review permission nothing happens and no message is posted. */
  function ReviewSelected(perms: Permissions, accept: bool, updated: nat): (m: Option<Message>)
    ensures m.None? <==> !HasPerm(perms, ReviewPermission)
    ensures m.Some? && accept ==>
              (m.value == ErrorMessage(NotAcceptedError) <==> updated == 0)
              && (updated > 0 ==> m.value == SuccessMessage(AcceptedMessage, updated))
    ensures m.Some? && !accept ==>
              (m.value == ErrorMessage(NotRejectedError) <==> updated == 0)
              && (updated > 0 ==> m.value == SuccessMessage(RejectedMessage, updated))
  {
    if !HasPerm(perms, ReviewPermission) then None
    else if accept then Some(ShowMessage(updated, AcceptedMessage, NotAcceptedError))
    else Some(ShowMessage(updated, RejectedMessage, NotRejectedError))
  }

  /** The review permission decides all of reviewing: holding it is exactly
      what keeps accept and reject in the action list, hands an entry under
      review to the form, and lets a review action report back. */
  lemma ReviewPermissionDecides(perms: Permissions, base: Actions, id: nat, entries: map<nat, Entry>,
                                accept: bool, updated: nat)
    requires "accept_selected" in base && "reject_selected" in base
    requires id in entries && entries[id].status == Review
    ensures HasPerm(perms, ReviewPermission) <==> GetActions(perms, base) == Success(base)
    ensures HasPerm(perms, ReviewPermission) <==>
              ChangeformEntry(perms, Some(id), entries) == Success(Some(entries[id]))
    ensures HasPerm(perms, ReviewPermission) <==> ReviewSelected(perms, accept, updated).Some?
  {
    if !HasPerm(perms, ReviewPermission) {
      assert "accept_selected" !in GetActions(perms, base).value;
    }
  }

  /** The fields that stay read-only while an entry is open. */
  const OpenReadonly: seq<string> := ["status", "created_at", "updated_at"]

  predicate Decided(obj: Option<Entry>) {
    obj.Some? && (obj.value.status == Rejected || obj.value.status == Accepted)
  }

  /** `RegistrationAdmin.get_readonly_fields`: `editable` is the names of
      the model's editable fields. An open entry (or none) keeps only its
      status and timestamps read-only; a decided one freezes every editable
      field. */
  function ReadonlyFields(obj: Option<Entry>, editable: seq<string>): (fields: seq<string>)
    ensures !Decided(obj) ==> fields == OpenReadonly
    ensures Decided(obj) ==> fields == editable
  {
    if obj.None? || !(obj.value.status == Rejected || obj.value.status == Accepted) then OpenReadonly
    else editable
  }

  /** What the admin may still edit: on an open entry every editable field
      but the status and timestamps, on a decided entry nothing. */
  lemma EntryEditability(obj: Option<Entry>, editable: seq<string>, f: string)
    requires f in editable
    ensures Decided(obj) ==> f in ReadonlyFields(obj, editable)
    ensures !Decided(obj) ==> (f !in ReadonlyFields(obj, editable) <==> f !in OpenReadonly)
  {
  }

  /** `RenewalAdmin.get_readonly_fields`: the registration rules, and for an
      existing renewal the member as well, added once. */
  function RenewalReadonlyFields(obj: Option<Entry>, editable: seq<string>): (fields: seq<string>)
    ensures obj.None? ==> fields == ReadonlyFields(obj, editable)
    ensures obj.Some? ==> "member" in fields
    ensures ReadonlyFields(obj, editable) <= fields
    ensures forall f :: f in fields <==> f in ReadonlyFields(obj, editable) || (obj.Some? && f == "member")
  {
    var base := ReadonlyFields(obj, editable);
    if "member" !in base && obj.Some? then base + ["member"] else base
  }

  /** The renewal list repeats no field when the base list repeats none. */
  lemma RenewalNoDuplicates(obj: Option<Entry>, editable: seq<string>)
    requires NoDuplicates(editable)
    ensures NoDuplicates(RenewalReadonlyFields(obj, editable))
  {
    var base := ReadonlyFields(obj, editable);
    assert NoDuplicates(base);
    var fields := RenewalReadonlyFields(obj, editable);
    if fields != base {
      forall i, j | 0 <= i < j < |fields| ensures fields[i] != fields[j] {
        if j == |base| {
          assert fields[i] == base[i];
        } else {
          assert fields[i] == base[i] && fields[j] == base[j];
        }
      }
    }
  }

  /** `PaymentAdmin.get_actions`: without the payment permission the cash
      and card processing actions are deleted. */
  function GetPaymentActions(perms: Permissions, base: Actions): (r: Result<Actions, AdminError>)
    ensures HasPerm(perms, PaymentPermission) ==> r == Success(base)
    ensures !HasPerm(perms, PaymentPermission) ==>
              (r.Success? <==> "process_cash_selected" in base && "process_card_selected" in base)
    ensures !HasPerm(perms, PaymentPermission) && r.Success? ==>
              forall a :: a in r.value <==> a in base && a !in PaymentActions
  {
    if !HasPerm(perms, PaymentPermission) then
      assert NoDuplicates(PaymentActions);
      DeleteActions(base, PaymentActions)
    else Success(base)
  }

  /** `PaymentAdmin.changeform_view`: the payment reaches the form only when
      the user may process payments and it is unprocessed. */
  function ChangeformPayment(perms: Permissions, objectId: Option<nat>, payments: map<nat, Payment>)
    : (r: Result<Option<Payment>, AdminError>)
    ensures r.Failure? <==>
              HasPerm(perms, PaymentPermission) && objectId.Some? && objectId.value !in payments
    ensures r.Success? && r.value.Some? <==>
              HasPerm(perms, PaymentPermission) && objectId.Some? && objectId.value in payments
              && !payments[objectId.value].processed
    ensures r.Success? && r.value.Some? ==> r.value.value == payments[objectId.value]
  {
    GateObject(HasPerm(perms, PaymentPermission), objectId, payments, (p: Payment) => !p.processed)
  }

  const ProcessedMessage := "Successfully processed %(count)d %(items)s."
  const NotProcessedError := "The selected payment(s) could not be processed."

  /** `process_*_selected` followed by `_process_feedback` of the
      registration-payment admin; `updated` is the number of payments the
      service reports as processed. */
  function ProcessSelected(perms: Permissions, updated: nat): (m: Option<Message>)
    ensures m.None? <==> !HasPerm(perms, PaymentPermission)
    ensures m.Some? ==> (m.value == ErrorMessage(NotProcessedError) <==> updated == 0)
    ensures m.Some? && updated > 0 ==> m.value == SuccessMessage(ProcessedMessage, updated)
  {
    if HasPerm(perms, PaymentPermission) then Some(ShowMessage(updated, ProcessedMessage, NotProcessedError))
    else None
  }

  /** The payment permission decides all of payment processing in this
      admin: the cash and card actions, the change form of an unprocessed
      payment, and the feedback of a processing action. */
  lemma PaymentPermissionDecides(perms: Permissions, base: Actions, id: nat, payments: map<nat, Payment>,
                                 updated: nat)
    requires "process_cash_selected" in base && "process_card_selected" in base
    requires id in payments && !payments[id].processed
    ensures HasPerm(perms, PaymentPermission) <==> GetPaymentActions(perms, base) == Success(base)
    ensures HasPerm(perms, PaymentPermission) <==>
              ChangeformPayment(perms, Some(id), payments) == Success(Some(payments[id]))
    ensures HasPerm(perms, PaymentPermission) <==> ProcessSelected(perms, updated).Some?
  {
    if !HasPerm(perms, PaymentPermission) {
      assert "process_cash_selected" !in GetPaymentActions(perms, base).value;
    }
  }
}
