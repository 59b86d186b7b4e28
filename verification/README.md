# Decision rules of the Thalia association website, in Dafny

This project models the pure decision rules inside the views, admin classes,
models and forms of the concrexit website, the Django site of the study
association Thalia. Each rule is lifted out of the framework into a function
over immutable data. Database tables become sequences or maps, the request's
user becomes a set of permission names. Python exceptions that the code raises on purpose or
that Django's lookups raise (`DoesNotExist`, `KeyError`, `PermissionDenied`) become the `Failure` case of a
`Result`. The one accidental exception, the registration view's `AttributeError` from `None.save()`, is the
`ServerError` page of that view's outcome. The contracts state what the site promises about each rule.

- `Events` (`events.dfy`) models the events admin pages. `admin_details` splits the active
  registrations into a confirmed list and a waiting list, with its falsy-0 quirk.
  The status column of the CSV export is modelled too: a running capacity that grows with every
  cancellation. The main result is that, for a positive limit, the export's
  `waiting` rows are exactly the admin page's waiting list.
- `EventExport` models the export rows and the `order` sort key, which shifts dates
  by 10000 days. It is proved that this key groups rows as registered, then waiting,
  then cancelled.
- `EventActions` models the register/cancel/update view as a state machine over an
  optional registration. It comes in two versions: the code as written, which can call
  `save()` on `None`, and a corrected one (see Findings).
- `Members` models the member directory: the six-year lecture-year range and keyword
  splitting. Its filters are compiled to a query AST (`Q` objects) and
  proved equal to a direct set-theoretic reading. It also covers the pagination
  window and the priority chain of the "membership type" label.
- `PartnerValidators` holds hand-written recognisers for the zip-code and address
  regular expressions. They are proved to accept exactly the patterns' languages,
  including the `$` that also matches before a final newline.
- `Partners` models `Partner.save` together with `_reset_main_partner`, which keeps at most one
  main partner. It also covers the company-name and logo fallback of vacancies.
- `Documents` models the lecture-year choices of the annual-document form.
- `PaymentsAdmin`, `RegistrationsAdmin` and `AdminCommon` model the admin
  decision functions: action pruning by permission, read-only fields,
  the change-form gate, the bank-mandate validity filter and the feedback
  message.
- `Text`, `Seqs` and `Wrappers` are helpers. `Text` holds Python's `str.split()`, its
  whitespace set and decimal rendering. `Seqs` holds an order-preserving filter,
  `range` and `reversed`. `Wrappers` holds `Option` and `Result`.

Times are integers: seconds for datetimes and days for date fields. Clock
readings, the current lecture year (`datetime_to_lectureyear`) and the model
methods whose code is not part of this model are parameters.

Where the code and its tests disagree, the model follows the code.
`website/events/tests/test_views.py:318-339` expects a registration to be
stored when the event has information fields. The view itself
renders `events/event_fields.html` on that path and never calls `save()`
(`website/events/views.py:179-201`). `EventActions.RegistrationView`
therefore leaves the stored registration unchanged when the fields page is
shown.

## Model

| member | source | states |
|---|---|---|
| Events.AdminDetails | website/events/views.py:18-28 | For a positive limit n, confirmed followed by waiting is the active list and there are min(n, #active) confirmed. With no limit everyone is confirmed and nobody waits. A limit of 0 shows nobody. The cancellations are the cancelled registrations. |
| Events.ActiveCancelledPartition | website/events/views.py:21-22 | The active and cancelled lists contain exactly the registrations without and with a cancellation date. Together they hold every registration exactly once. |
| Events.ActiveConcat | website/events/views.py:21 | Filtering the active registrations distributes over concatenation. |
| Events.CancelRemovesFromActive | website/events/views.py:171-174 | Cancelling an active registration removes exactly that registration from the active list. The others keep their order. |
| Events.CancelPromotesFirstWaiting | website/events/views.py:20-26 | When a confirmed registration is cancelled and someone waits, the first waiting registration becomes confirmed. The waiting list moves up by one and the confirmed list stays full. |
| Events.ExportStatuses | website/events/views.py:43-57 | The status column of the export: one status per registration, in order. A row is `cancelled` exactly when its registration is cancelled. Without a limit no row is `waiting`. With a positive limit n, an active registration is `waiting` exactly when at least n active registrations come before it. The loop itself is `StatusesFrom`. |
| Events.LoopFromStart | website/events/views.py:43-57 | The loop started at index 0 with the event's limit as capacity has the three properties of `ExportStatuses` above. |
| Events.StatusesCancelledIff | website/events/views.py:49-57 | In the export loop, a row is `cancelled` exactly when its registration has a cancellation date, from any loop state. |
| Events.NoLimitNoWaiting | website/events/views.py:52-57 | A null capacity stays null through the loop, so no row is ever `waiting`. |
| Events.ExportCancelledIff | website/events/views.py:43-57 | For every participant limit, the export marks a row `cancelled` exactly when the registration is cancelled. |
| Events.ExportNoLimitNoWaiting | website/events/views.py:43-57 | Without a participant limit, the export marks nobody `waiting`. |
| Events.WaitingFromSlack | website/events/views.py:44-57 | With a positive running capacity c at index i, the rows marked `waiting` are the active registrations after the first c - i. |
| Events.ExportWaitingMatchesDetails | website/events/views.py:43-57 | For a positive limit, the rows the export marks `waiting` are the admin details page's waiting list, in the same order. |
| Events.StatusFromSlack | website/events/views.py:44-57 | With a positive running capacity c at index i, an active row is `waiting` exactly when at least c - i active registrations precede it. |
| Events.ExportWaitingIff | website/events/views.py:43-57 | For a positive limit n, an active registration is exported as `waiting` exactly when at least n active registrations precede it. |
| Events.ZeroStartNoCancellation | website/events/views.py:56-57 | A capacity of 0 is falsy, so while no cancellation has been seen every row is `registered`. |
| Events.AfterCancellationAllWait | website/events/views.py:51-57 | Once the index has reached a positive capacity, every later active row is `waiting`. |
| Events.ExportZeroBeforeCancellation | website/events/views.py:43-57 | With a limit of 0, every registration before the first cancellation is exported as `registered`. |
| Events.ZeroFirstCancellation | website/events/views.py:51-54 | With a limit of 0, the first cancellation is `cancelled` and raises the capacity to 1 for the rest of the loop. |
| Events.ExportZeroAfterCancellation | website/events/views.py:43-57 | With a limit of 0, every active registration after the first cancellation is exported as `waiting`. |
| Events.StatusesPrefixGeneral | website/events/views.py:44-57 | Up to the first cancellation, the statuses of a list are those of its prefix. |
| Events.StatusesSuffix | website/events/views.py:44-57 | Without a cancellation before index c, the loop's statuses from c on are the loop run on the suffix from index c with unchanged capacity. |
| EventExport.ExportRows | website/events/views.py:44-71 | The export has one row per registration, in order. Each row carries its registration's date, cancellation date, presence and payment. Its status is the export loop's status for that index, so it is `cancelled` exactly for cancelled registrations. A member's registration shows the member's full name and e-mail. A guest's shows the stored name and an empty e-mail. |
| EventExport.ExportRowsWaitingAreDetails | website/events/views.py:18-71 | For a positive limit, the registrations whose written row says `waiting` are exactly the admin details page's waiting list, in order. |
| EventExport.OrderKey | website/events/views.py:77-83 | The `order` key shifts a row's date by its status, each as an if-and-only-if: cancelled rows 10000 days later, registered rows 10000 days earlier, waiting rows not at all. |
| EventExport.Insert | website/events/views.py:85 | Inserting into rows sorted by the `order` key keeps them sorted and adds exactly the new row. |
| EventExport.SortRows | website/events/views.py:85 | `sorted(rows, key=order)`: the result is sorted by key and is a permutation of the rows. |
| EventExport.SortRowsStable | website/events/views.py:85 | The sort is stable: for every key, the rows with that key appear in the same order before and after sorting. |
| EventExport.ExportTable | website/events/views.py:85-86 | The written table is sorted by the `order` key and holds every export row exactly once, one per registration. |
| EventExport.ExportTableStable | website/events/views.py:85-86 | Rows with the same `order` key are written in database order. |
| EventExport.SortedByKeyGroupsStatuses | website/events/views.py:77-83 | When all dates lie less than 10000 days apart, rows sorted by the key put registered before waiting before cancelled, and each group by date. |
| EventExport.SpanOfPermutation | website/events/views.py:85 | Permuting the rows keeps all dates within the 10000-day span. |
| EventExport.ExportTableOrder | website/events/views.py:77-86 | When the registrations' dates lie less than 10000 days apart, the exported table lists registered, then waiting, then cancelled rows, each group by date. |
| EventActions.ActionStep | website/events/views.py:150-177 | The decision before saving. Only cancel, update or another action without a registration leave no registration object. Register always leaves an active registration of the member. Cancel never leaves an active one and stamps the current time on an active one. An error message is set exactly for register on an active registration and for cancel on anything but an active one. The registration changes only with a success message, and only in its date and cancellation date. The fields page is only offered for register and update when the event has fields. |
| EventActions.RegistrationViewAsWritten | website/events/views.py:134-209 | The view as written fails (`None.save()`) exactly when registration is required, the member has no registration and the action is not `register`. |
| EventActions.RegistrationView | website/events/views.py:140-207 | Without required registration nothing changes. Register creates a new active registration, reactivates a cancelled one with a new date, or reports "You were already registered." and changes nothing. With information fields it shows the fields page and stores nothing. Cancel marks an active registration cancelled, else reports "You were not registered for this event." and changes nothing. Other actions store nothing new. |
| EventActions.GuardedAgreesWhenNoError | website/events/views.py:166-207 | Wherever the view as written does not crash, the corrected view gives the same outcome. |
| EventActions.CancelWithoutRegistrationFails | website/events/views.py:171-207 | Cancelling without any registration crashes as written. The corrected view reports "You were not registered for this event." and stores nothing. |
| EventActions.RegisterTwice | website/events/views.py:152-167 | Registering twice leaves exactly the first registration, active, and reports "already registered". |
| EventActions.CancelThenRegister | website/events/views.py:152-175 | Cancelling and then registering again gives back the original registration with a new registration date and no cancellation date. |
| Members.YearRange | website/members/views.py:68-70 | Six lecture years, strictly descending from the current year to the current year minus 5. |
| Text.Split | website/members/views.py:71 | `str.split()`: every word is non-empty and free of whitespace. Where the words break is fixed by SplitWord and SplitAround. |
| Text.SplitWord | website/members/views.py:71 | A non-empty string without whitespace splits into itself alone. |
| Text.SplitSkipSpace | website/members/views.py:71 | Leading whitespace does not change the split. |
| Text.SplitAround | website/members/views.py:71 | A run of whitespace is a word boundary: splitting `a + ws + b` gives the words of `a` followed by the words of `b`. With SplitWord this determines the split of every string. |
| Text.SplitKeepsAllNonSpace | website/members/views.py:71 | The words together hold every non-whitespace character of the query, in order. |
| Text.SplitEmptyIff | website/members/views.py:71 | The split is empty exactly when the query is all whitespace. |
| Text.SplitJoinSpaced | website/members/views.py:71 | Joining whitespace-free words with single spaces and splitting again gives back the words. |
| Members.Keywords | website/members/views.py:71 | The keywords are `None` exactly when the query is all whitespace. Otherwise they are non-empty, whitespace-free words that together hold every non-whitespace character of the query. |
| Members.KeywordsOfWord | website/members/views.py:71 | A single word without whitespace is the one keyword. |
| Members.KeywordsAround | website/members/views.py:71 | A run of whitespace separates keywords: the keywords of `a + ws + b` are those of `a` followed by those of `b`, with `None` on either side dropping out. |
| Members.ParseFilter | website/members/views.py:72-96 | A filter argument selects a cohort exactly when it is a non-empty string of digits, and the cohort year is its decimal value. `older`, `former`, `benefactors` and `honorary` select their own branch and nothing else does. A missing or any other argument leaves the default of all current members. |
| Members.ParseCohortLink | website/members/views.py:78-79 | The decimal rendering of a year selects that year's cohort. |
| Text.ParseNatToString | website/members/views.py:79 | `int(str(n)) == n` for the cohort year. |
| Members.FilterMemberships | website/members/views.py:74-95 | The membership condition after the filter's branch. A membership passes exactly when it is current and its type is one of the filter's types. For `former` those types are member and honorary. |
| Members.KindCases | website/members/views.py:85-86 | Every membership has one of the three types, and the `MEMBER`-or-`HONORARY` condition tests for exactly those two. |
| Members.FilterMembers | website/members/views.py:74-89 | The member condition after the filter's branch. For `former` a member passes exactly when they hold no current member or honorary membership. For every other filter a member passes exactly when the profile condition holds: the cohort year, a start before the oldest year of the range, or nothing. |
| Members.InQueryAll | website/members/views.py:87-89 | For every member at once, `pk__in` a membership condition on type and end date is holding such a membership. |
| Members.DirectoryMembers | website/members/views.py:74-120 | `Member.objects.filter(members_query)` as a set. For every filter but `former`, a member is listed exactly when they are in the table, match every keyword and the filter's profile condition, and hold a current membership of one of the filter's types. For `former`, exactly when they are in the table, match every keyword, hold no current member or honorary membership, and either held one once or have no membership at all. |
| Members.BuildQuery | website/members/views.py:74-120 | The whole query of `get_queryset`. For every filter but `former`, a member passes exactly when they match every keyword and the profile condition and hold a current membership of one of the filter's types. For `former`, exactly when they match every keyword, hold no current member or honorary membership, and either held one once or have no membership at all. |
| Members.CurrentQuery | website/members/views.py:98-120 | The keyword conjuncts followed by `pk__in` the filtered memberships select the members that match every keyword, satisfy the profile condition and hold a current membership of the filter's types. |
| Members.FormerQuery | website/members/views.py:84-116 | For `former`, the keyword conjuncts followed by the "once a member or no membership" condition select the members described in the BuildQuery row. |
| Members.AddKeywordsMeansAll | website/members/views.py:98-106 | Adding one conjunct per keyword selects exactly the members the original query selects that match every keyword. |
| Members.SearchedSemantics | website/members/views.py:74-106 | After the keyword loop, a member is selected exactly when the filter's conditions hold and every keyword matches. |
| Members.InQuerySemantics | website/members/views.py:115-119 | `pk__in=memberships.values('user__pk')` holds of a member exactly when one of the member's memberships satisfies the membership query. |
| Members.CurrentFilterSemantics | website/members/views.py:74-120 | For every filter except `former`, a member is listed exactly when they match all keywords and the filter's profile condition, and hold a current membership of the filter's types. The profile condition is the cohort year or a start before the oldest year of the range. |
| Members.FormerFilterSemantics | website/members/views.py:84-116 | `former` lists exactly the members who match all keywords and hold no current member or honorary membership. They must also either have held such a membership once or have no membership at all. |
| Members.PageRange | website/members/views.py:128-139 | With at most 7 pages the window is every page. Near the start it is pages 1-5. Otherwise the loop ends with exactly five consecutive pages within 1..num_pages-1, stopping at min(page+3, num_pages). It contains the current page unless that is the last page. |
| Members.MembershipLabel | website/members/views.py:172-181 | The label is, in priority order, the current membership's type, former honorary member, former member, former benefactor, or unknown. Each case holds exactly when the earlier ones fail and its own condition holds. |
| Members.MembershipLabelFirstApplicable | website/members/views.py:172-181 | The label equals the first applicable rule of the independent rule list (current type, former honorary, former member, former benefactor), defaulting to unknown history. |
| PartnerValidators.ZipCodeValid | website/partners/models.py:34-39 | An accepted zip code, without its optional final newline, is a non-zero digit, three digits, at most one whitespace character and two ASCII letters. It has 6 or 7 characters, with the whitespace at index 4 when there are 7. Together with ZipCodeComplete this is the exact language of the pattern. |
| PartnerValidators.ZipCodeComplete | website/partners/models.py:34-39 | Every string of that shape is accepted, also with one final newline. |
| PartnerValidators.ZipCodeExamples | website/partners/models.py:36 | Concrete accepted and rejected zip codes, including a leading zero, two spaces and a final newline. |
| PartnerValidators.PrefixEnd | website/partners/models.py:29 | The greedy scan of `([1-9][e][\s])*` ends on a run of prefix units. |
| PartnerValidators.StreetNameIff | website/partners/models.py:29-30 | The street-name automaton accepts exactly one or more groups of letters, each followed by an optional `. ` or whitespace separator. |
| PartnerValidators.AddressCoreSound | website/partners/models.py:29-31 | Everything the recogniser accepts splits into prefix, street name, house number and ending as the pattern requires. |
| PartnerValidators.AddressCoreComplete | website/partners/models.py:29-31 | Every split the pattern allows is found by the greedy recogniser. |
| PartnerValidators.AddressCoreIff | website/partners/models.py:29-31 | The greedy recogniser accepts exactly the strings of the pattern's grammar, without anchoring. |
| PartnerValidators.AddressValid | website/partners/models.py:27-33 | The address validator accepts exactly the strings the anchored pattern matches. These are a prefix, at least one letter word, a house number starting with a non-zero digit, and an optional `-N` or letter ending. |
| Partners.ResetMainPartner | website/partners/models.py:48-55 | `_reset_main_partner` fails exactly when there are several main partners (`MultipleObjectsReturned`). With none it changes nothing (the swallowed `DoesNotExist`). Otherwise it keeps every row and changes rows at most in their main flag. Afterwards the row being saved is the only row that may still be main, and only if it was main before. |
| Partners.MainAfterStore | website/partners/models.py:42-46 | Storing a main partner in a table where only its own row may be main leaves it the one main partner. |
| Partners.Save | website/partners/models.py:42-55 | Saving fails exactly when a main partner is saved while several main partners exist. Otherwise the row is stored. Saving a main partner leaves it the only main partner. A non-main save changes nothing else. With no current main partner only the saved row changes. |
| Partners.SingleMain | website/partners/models.py:48-55 | With at most one main partner the reset succeeds and leaves no main partner besides the one being saved. |
| Partners.SavePreservesAtMostOneMain | website/partners/models.py:42-55 | Saving any partner into a table with at most one main partner succeeds and keeps at most one main partner. |
| Partners.SaveNonMainLeavesOthers | website/partners/models.py:42-46 | Saving a non-main partner leaves every other row as it was. |
| Partners.SaveMainDemotesOnly | website/partners/models.py:48-53 | Saving a main partner changes any other row at most by clearing its main flag. |
| Partners.SaveAllPreservesAtMostOneMain | website/partners/models.py:42-55 | Any sequence of saves keeps at most one main partner. |
| Partners.CompanyName | website/partners/models.py:114-117 | A vacancy's company name is its partner's name when a partner is set, else its own company name. |
| Partners.CompanyLogo | website/partners/models.py:119-122 | A vacancy's logo is its partner's logo when a partner is set, else its own (nullable) logo. |
| Partners.VacancyString | website/partners/models.py:124-125 | The text of a vacancy is its company name, then " - ", then its title. |
| Partners.PartnerOverridesCompany | website/partners/models.py:114-125 | With a partner set, the vacancy's own company name and logo have no effect on its name, logo or text. |
| Documents.YearChoices | website/documents/forms.py:65-71 | The choices run from current+1 down to 1990 in steps of one, current-1988 of them (none before 1989), each labelled with its own year. |
| Documents.YearLabelRoundTrip | website/documents/forms.py:69 | A label "Y-(Y+1)" reads back as the pair of years Y and Y+1. |
| Documents.InitialYearOffered | website/documents/forms.py:61-75 | The initial value, the current lecture year, is among the choices exactly when it is 1990 or later. |
| AdminCommon.ShowMessage | website/payments/admin.py:23-33 | Zero affected rows gives an error message and any other count a success message carrying that count. `website/registrations/admin.py:11-18` is the same function. |
| AdminCommon.ShowMessageRevealsCount | website/payments/admin.py:23-33 | Two row counts give the same feedback message exactly when they are equal. |
| AdminCommon.DeleteActions | website/payments/admin.py:144-148 | A run of `del actions[key]` succeeds exactly when every key is present and none repeats. It then keeps exactly the other actions. Otherwise it raises `KeyError` on one of the keys. |
| AdminCommon.DeleteActionsKeepsOrder | website/payments/admin.py:140-149 | The actions left after the deletions are the original ones in their original order, minus the deleted keys. |
| AdminCommon.GateObject | website/payments/admin.py:128-133 | The change form gets the stored object exactly when an id is given, the user is allowed and the object may be acted on. An unknown id raises `DoesNotExist`. |
| AdminCommon.GateReadsOnlyItsRow | website/payments/admin.py:128-133 | The gate's outcome depends only on the requested row: tables that agree on it give the same result. |
| AdminCommon.GateClosedWithoutPermission | website/payments/admin.py:128-133 | Without permission the gate hands no object for any id and never raises. |
| PaymentsAdmin.GetActions | website/payments/admin.py:140-149 | With `payments.process_payments` the actions are unchanged. Without it the four processing actions are removed and every other action stays. A missing one raises `KeyError`. |
| PaymentsAdmin.GetActionsKeepsOthers | website/payments/admin.py:140-149 | Without the permission the remaining actions keep their order. |
| PaymentsAdmin.ReadonlyFields | website/payments/admin.py:135-138 | A new payment is read-only in exactly created_at, type, processing_date and processed_by. An existing one is read-only in exactly the full field list of lines 65-74, which `super()` returns. |
| PaymentsAdmin.CreationEditable | website/payments/admin.py:135-138 | Of the class's read-only fields (lines 65-74, which `super()` returns), exactly amount, paid_by, topic and notes are editable on creation. Everything read-only on creation is also read-only afterwards, for every payment, and indeed every field is read-only once the payment exists. |
| PaymentsAdmin.ChangeformPayment | website/payments/admin.py:128-133 | The form gets the payment exactly when an id is given, the user may process payments and the payment is unprocessed. An unknown id raises. |
| PaymentsAdmin.ProcessedPaymentHidden | website/payments/admin.py:131-132 | A processed payment never reaches the change form. |
| PaymentsAdmin.ProcessSelected | website/payments/admin.py:151-202 | The four processing actions post nothing without `payments.process_payments`. Otherwise they post the error text exactly when no payment was updated, else the success text with the count. |
| PaymentsAdmin.ProcessPermissionDecides | website/payments/admin.py:128-202 | For a user, holding `payments.process_payments` is exactly what keeps the four processing actions, hands an unprocessed payment to the change form, and lets a processing action report back. |
| PaymentsAdmin.FilterAccounts | website/payments/admin.py:271-285 | `valid` keeps exactly the accounts with (from <= now and no end) or end < now. `invalid` keeps those with end >= now and `none` those with no start. Any other value keeps the list, and every result is a sub-multiset of the input. |
| PaymentsAdmin.ValidInvalidDisjoint | website/payments/admin.py:274-280 | No account is selected by both `valid` and `invalid`. |
| PaymentsAdmin.NeitherValidNorInvalid | website/payments/admin.py:274-280 | An account is in neither list exactly when it has no end date and its start is unset or in the future. |
| RegistrationsAdmin.ChangeformEntry | website/registrations/admin.py:61-70 | The review form gets the entry exactly when an id is given, the user may review entries and the entry is in review. An unknown id raises. |
| RegistrationsAdmin.DecidedEntryHidden | website/registrations/admin.py:64-68 | An accepted or rejected entry never reaches the review form. |
| RegistrationsAdmin.GetActions | website/registrations/admin.py:72-77 | Without `registrations.review_entries`, exactly accept/reject are removed (`KeyError` if absent). With it nothing changes. |
| RegistrationsAdmin.GetActionsKeepsOthers | website/registrations/admin.py:72-77 | Without the permission the other actions keep their order. |
| RegistrationsAdmin.ReadonlyFields | website/registrations/admin.py:79-85 | No entry, or one neither accepted nor rejected, is read-only in exactly status, created_at and updated_at. An accepted or rejected entry is read-only in every editable field. |
| RegistrationsAdmin.RenewalReadonlyFields | website/registrations/admin.py:146-150 | With no object the registration rule is returned unchanged. With an object, `member` is added at the end unless present, and nothing else changes. |
| RegistrationsAdmin.RenewalNoDuplicates | website/registrations/admin.py:146-150 | The renewal list repeats no field when the editable fields repeat none. |
| RegistrationsAdmin.GetPaymentActions | website/registrations/admin.py:184-189 | Without `registrations.process_payments`, exactly the cash and card actions are removed (`KeyError` if absent). |
| RegistrationsAdmin.ChangeformPayment | website/registrations/admin.py:173-182 | The payment form gets the stored payment exactly when an id is given, the user may process payments and the payment is unprocessed. An unknown id raises. |
| RegistrationsAdmin.ReviewSelected | website/registrations/admin.py:103-121 | Accept and reject post nothing without the review permission. Otherwise they post the action's error text exactly when no entry changed, else its success text with the count. |
| RegistrationsAdmin.ReviewPermissionDecides | website/registrations/admin.py:61-121 | For a user, holding `registrations.review_entries` is exactly what keeps accept/reject in the action list, hands an entry under review to the form, and lets a review action report back. |
| RegistrationsAdmin.EntryEditability | website/registrations/admin.py:79-85 | On a decided entry no editable field stays editable. On an open entry an editable field stays editable exactly when it is not the status or a timestamp. |
| RegistrationsAdmin.ProcessSelected | website/registrations/admin.py:191-212 | The cash and card actions post nothing without `registrations.process_payments`. Otherwise they post the error text exactly when no payment was processed, else the success text with the count. |
| RegistrationsAdmin.PaymentPermissionDecides | website/registrations/admin.py:173-212 | For a user, holding `registrations.process_payments` is exactly what keeps the cash/card actions, hands an unprocessed payment to the form, and lets a processing action report back. |

## Left out

- Database access, HTTP requests and responses, redirects, the messages framework, template rendering and `get_object_or_404`. Tables are sequences or maps and results are returned values.
- CSV writing, `slugify`, `timezone.localtime` and the `Content-Disposition` header of the exports.
- The per-registration information fields of the event export (`registration_information()`): the helper that computes them is not part of this model.
- `Event.registration_required()`, `Event.has_fields()`, `datetime_to_lectureyear`, `Member.has_been_member()`, `has_been_honorary_member()`, `current_membership` and `latest_membership` are not part of this model. Their results are parameters.
- The `event` and `index` views, including the `registration_percentage` float.
- `Registration()` field defaults beyond the member, date and cancellation date. The model's new registration has an empty guest name and is neither paid nor present.
- The auth-token view, the profile, statistics and e-mail change views of `members/views.py`, and everything in `registrations/services.py` and `payments/services.py`, e-mails and the payment admin views. The number of rows a service reports as updated is a parameter of the bulk actions.
- `model_ngettext` pluralisation and `%` formatting of the admin messages. A success message carries its template and its count.
- The CSV export actions and `set_last_used` of the payment admins. They only write rows or delegate to services.
- Django's own `get_actions` (site-wide actions, popups, `allowed_permissions`). Its result is the `base` parameter.
- `RegistrationsAdmin.ReadonlyFields`: the editable fields of the entry model come from model metadata that is not part of this model. They are the `editable` parameter.
- Members.ParseFilter: `str.isdigit()` also accepts non-ASCII digits, but only ASCII `0`-`9` are modelled as digits, because the Unicode digit table is not modelled.
- Members.FilterMemberships: the end date is compared with one day number `today`, both for `datetime.now()` and for the `honorary` branch's `datetime.now().date()`, because the time of day is not modelled.
- Members.DirectoryMembers: returns a set, so the `order_by('first_name')` ordering of the directory is not stated.
- Members.KeywordMatches: `icontains` is modelled as case-sensitive containment, because Unicode case folding is not modelled.
- Entry states other than review, accepted and rejected are collapsed into one `OtherStatus`. Only those three are distinguished by the rules.

## Findings

| source | as written | input that shows it | evidently intended | confidence | as-written member | corrected member |
|---|---|---|---|---|---|---|
| website/events/views.py:171-207 | After an action that leaves `registration` as `None`, the view still calls `registration.save()`. Such actions are `cancel` without any registration, and `update` or another action without one. | A logged-in member without a registration for an event with required registration posts `cancel`: `None.save()` raises `AttributeError`. | Report "You were not registered for this event." and store nothing. | not executed | EventActions.RegistrationViewAsWritten | EventActions.RegistrationView |
