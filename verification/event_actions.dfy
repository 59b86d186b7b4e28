/** The register / update / cancel action of a member on an event
    (events/views.py, `registration`), as a state machine over the member's
    stored registration for that event (absent, active or cancelled). The
    action ends in one of three pages; the database holds the registration
    as it stands after the page is produced. */
module EventActions {
  import opened Wrappers
  import opened Events

  datatype Action = Register | Update | Cancel | OtherAction

  /** The flash message queued for the user. */
  datatype Notice = NoNotice | SuccessNotice(text: string) | ErrorNotice(text: string)

  /** The response: the registration-fields page, the redirect back to the
      event, or an uncaught exception (HTTP 500). */
  datatype Page = FieldsPage | EventPage | ServerError

  datatype Outcome = Outcome(stored: Option<Registration>, notice: Notice, page: Page)

  const RegistrationSuccessful: string := "Registration successful"
  const AlreadyRegistered: string := "You were already registered."
  const CancelSuccessful: string := "Registration successfully cancelled"
  const NotRegistered: string := "You were not registered for this event."

  /** A fresh `Registration()` for `member`; the model's defaults for the
      guest name and the paid/present flags are taken as empty and false. */
  function NewRegistration(member: Member, now: int): Registration {
    Registration(Some(member), "", now, None, false, false)
  }

  /** What the view has decided just before it either renders the fields
      page or saves: the (possibly modified) registration object, the
      message and whether the fields page is shown. */
  datatype Step = Step(registration: Option<Registration>, notice: Notice, showFields: bool)

  /** Register leaves an active registration of the member (refusing one
      that is already active), cancel deactivates an active one (refusing
      anything else), and every other action leaves the registration as it
      is; the fields page is only offered for register and update. */
  function ActionStep(hasFields: bool, action: Action, existing: Option<Registration>,
                      member: Member, now: int): (r: Step)
    ensures r.registration.None? <==> existing.None? && action != Register
    ensures action == Register ==>
              && r.registration.Some? && r.registration.value.IsActive()
              && r.registration.value.member == (if existing.Some? then existing.value.member else Some(member))
    ensures action == Cancel && r.registration.Some? ==> !r.registration.value.IsActive()
    ensures action == Cancel && existing.Some? && existing.value.IsActive() ==>
              r.registration.value.dateCancelled == Some(now)
    ensures r.notice.ErrorNotice? <==>
              || (action == Register && existing.Some? && existing.value.IsActive())
              || (action == Cancel && !(existing.Some? && existing.value.IsActive()))
    ensures r.registration != existing ==> r.notice.SuccessNotice?
    ensures r.registration.Some? && existing.Some? ==>
              r.registration.value.(date := existing.value.date, dateCancelled := existing.value.dateCancelled)
              == existing.value
    ensures r.showFields ==> hasFields && (action == Register || action == Update)
  {
    match action
    case Register =>
      if existing.None? then
        Step(Some(NewRegistration(member, now)), SuccessNotice(RegistrationSuccessful), hasFields)
      else if existing.value.dateCancelled.Some? then
        Step(Some(existing.value.(date := now, dateCancelled := None)),
             SuccessNotice(RegistrationSuccessful), hasFields)
      else
        Step(existing, ErrorNotice(AlreadyRegistered), hasFields)
    case Update =>
      Step(existing, NoNotice, hasFields && existing.Some?)
    case Cancel =>
      if existing.Some? && existing.value.dateCancelled.None? then
        Step(Some(existing.value.(dateCancelled := Some(now))), SuccessNotice(CancelSuccessful), false)
      else
        Step(existing, ErrorNotice(NotRegistered), false)
    case OtherAction =>
      Step(existing, NoNotice, false)
  }

  /** The view as written: without a required registration nothing
      happens; the fields page saves nothing; otherwise the registration
      object is saved, and saving an absent registration (`None.save()`)
      raises. */
  function RegistrationViewAsWritten(required: bool, hasFields: bool, action: Action,
                                     existing: Option<Registration>, member: Member, now: int): (o: Outcome)
    ensures o.page == ServerError <==> required && existing.None? && action != Register
  {
    if !required then Outcome(existing, NoNotice, EventPage)
    else
      var step := ActionStep(hasFields, action, existing, member, now);
      if step.showFields then Outcome(existing, NoNotice, FieldsPage)
      else if step.registration.None? then Outcome(existing, step.notice, ServerError)
      else Outcome(step.registration, step.notice, EventPage)
  }

  /** The view with the save guarded, so that a missing registration leads
      to the intended "not registered" message instead of an exception. It
      is the register/cancel state machine: register creates or reactivates
      a registration and refuses an active one; cancel stamps the cancel
      time on an active registration and changes nothing otherwise. */
  function RegistrationView(required: bool, hasFields: bool, action: Action,
                            existing: Option<Registration>, member: Member, now: int): (o: Outcome)
    ensures o.page != ServerError
    ensures !required ==> o == Outcome(existing, NoNotice, EventPage)
    ensures required && action == Register && hasFields ==> o.stored == existing && o.page == FieldsPage
    ensures required && action == Register && !hasFields ==>
              && o.stored.Some? && o.stored.value.dateCancelled.None?
              && (existing.None? ==> o.stored == Some(NewRegistration(member, now))
                                      && o.notice == SuccessNotice(RegistrationSuccessful))
              && (existing.Some? && existing.value.dateCancelled.Some? ==>
                    && o.stored.value == existing.value.(date := now, dateCancelled := None)
                    && o.notice == SuccessNotice(RegistrationSuccessful))
              && (existing.Some? && existing.value.dateCancelled.None? ==>
                    o.stored == existing && o.notice == ErrorNotice(AlreadyRegistered))
    ensures required && action == Cancel ==>
              && o.page == EventPage
              && (existing.Some? && existing.value.dateCancelled.None? ==>
                    && o.stored == Some(existing.value.(dateCancelled := Some(now)))
                    && o.notice == SuccessNotice(CancelSuccessful))
              && (existing.None? || existing.value.dateCancelled.Some? ==>
                    o.stored == existing && o.notice == ErrorNotice(NotRegistered))
    ensures action != Register && action != Cancel ==> o.stored == existing
  {
    if !required then Outcome(existing, NoNotice, EventPage)
    else
      var step := ActionStep(hasFields, action, existing, member, now);
      if step.showFields then Outcome(existing, NoNotice, FieldsPage)
      else if step.registration.None? then Outcome(existing, step.notice, EventPage)
      else Outcome(step.registration, step.notice, EventPage)
  }

  /** The guard changes nothing where the view as written does not fail. */
  lemma GuardedAgreesWhenNoError(required: bool, hasFields: bool, action: Action,
                                 existing: Option<Registration>, member: Member, now: int)
    requires RegistrationViewAsWritten(required, hasFields, action, existing, member, now).page != ServerError
    ensures RegistrationView(required, hasFields, action, existing, member, now)
         == RegistrationViewAsWritten(required, hasFields, action, existing, member, now)
  {
  }

  /** The failing input: a member without a registration asks to cancel.
      As written the view raises; the guarded view shows the error. */
  lemma CancelWithoutRegistrationFails(hasFields: bool, member: Member, now: int)
    ensures RegistrationViewAsWritten(true, hasFields, Cancel, None, member, now).page == ServerError
    ensures RegistrationView(true, hasFields, Cancel, None, member, now)
         == Outcome(None, ErrorNotice(NotRegistered), EventPage)
  {
  }

  /** Registering twice leaves one active registration: the second attempt
      is refused with "already registered" and stores nothing new. */
  lemma RegisterTwice(existing: Option<Registration>, member: Member, t1: int, t2: int)
    ensures
      var first := RegistrationView(true, false, Register, existing, member, t1);
      var second := RegistrationView(true, false, Register, first.stored, member, t2);
      && second.stored == first.stored
      && second.stored.Some? && second.stored.value.dateCancelled.None?
      && second.notice == ErrorNotice(AlreadyRegistered)
  {
  }

  /** Cancel then register reuses the same row: the registration is active
      again, dated at the moment of re-registering, and otherwise
      unchanged. */
  lemma CancelThenRegister(r: Registration, member: Member, t1: int, t2: int)
    requires r.dateCancelled.None?
    ensures
      var cancelled := RegistrationView(true, false, Cancel, Some(r), member, t1);
      var again := RegistrationView(true, false, Register, cancelled.stored, member, t2);
      && cancelled.stored == Some(r.(dateCancelled := Some(t1)))
      && again.stored == Some(r.(date := t2))
  {
  }
}
