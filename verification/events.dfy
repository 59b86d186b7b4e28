/** Registration bookkeeping of an event (events/views.py): the split of an
    event's registrations into confirmed participants, waiting list and
    cancellations shown on the admin details page, and the status the CSV
    export assigns to each registration. Both are recomputed from the
    registrations in database order on every read; there is no stored
    status. */
module Events {
  import opened Wrappers
  import Seqs

  /** The member a registration belongs to, reduced to what the views read. */
  datatype Member = Member(id: nat, fullName: string, email: string)

  /** A registration: a member, or a guest known only by `name`; `date` is
      the moment of registering and `dateCancelled` is null while the
      registration is active. Times are integer seconds. */
  datatype Registration = Registration(
    member: Option<Member>,
    name: string,
    date: int,
    dateCancelled: Option<int>,
    paid: bool,
    present: bool)
  {
    predicate IsActive() { dateCancelled.None? }
  }

  /** `registration_set.filter(date_cancelled=None)`, in database order. */
  function Active(regs: seq<Registration>): (r: seq<Registration>)
    ensures |r| <= |regs|
  {
    if regs == [] then []
    else if regs[0].IsActive() then [regs[0]] + Active(regs[1..])
    else Active(regs[1..])
  }

  /** `registration_set.exclude(date_cancelled=None)`, in database order. */
  function Cancelled(regs: seq<Registration>): (r: seq<Registration>)
    ensures |r| <= |regs|
  {
    if regs == [] then []
    else if !regs[0].IsActive() then [regs[0]] + Cancelled(regs[1..])
    else Cancelled(regs[1..])
  }

  /** Active and cancelled registrations partition the registration set by
      whether `date_cancelled` is set: the active list holds exactly the
      registrations without a cancel date, the cancelled list exactly those
      with one, and together they hold every registration as often as it
      occurs. */
  lemma {:induction false} ActiveCancelledPartition(regs: seq<Registration>)
    ensures forall x :: x in Active(regs) <==> x in regs && x.dateCancelled.None?
    ensures forall x :: x in Cancelled(regs) <==> x in regs && x.dateCancelled.Some?
    ensures multiset(Active(regs)) + multiset(Cancelled(regs)) == multiset(regs)
  {
    if regs != [] {
      ActiveCancelledPartition(regs[1..]);
      assert regs == [regs[0]] + regs[1..];
    }
  }

  lemma {:induction false} ActiveConcat(a: seq<Registration>, b: seq<Registration>)
    ensures Active(a + b) == Active(a) + Active(b)
  {
    if a == [] {
      assert a + b == b;
    } else {
      assert (a + b)[1..] == a[1..] + b;
      ActiveConcat(a[1..], b);
    }
  }

  // -----------------------------------------------------------------------
  // admin_details

  datatype Details = Details(
    confirmed: seq<Registration>,
    waiting: seq<Registration>,
    cancellations: seq<Registration>)

  /** The admin details page for capacity `maxParticipants` (null means no
      limit): `registrations[:n]` are confirmed and `registrations[n:]`
      wait, except that the waiting list is empty whenever `n` is falsy.
      A capacity of 0 therefore shows no active registration at all. */
  function AdminDetails(regs: seq<Registration>, maxParticipants: Option<nat>): (d: Details)
    ensures maxParticipants.Some? && maxParticipants.value > 0 ==>
              && d.confirmed + d.waiting == Active(regs)
              && |d.confirmed| == Seqs.Min(maxParticipants.value, |Active(regs)|)
    ensures maxParticipants.None? ==> d.confirmed == Active(regs) && d.waiting == []
    ensures maxParticipants == Some(0) ==> d.confirmed == [] && d.waiting == []
    ensures d.cancellations == Cancelled(regs)
  {
    var active := Active(regs);
    match maxParticipants
    case None => Details(active, [], Cancelled(regs))
    case Some(n) =>
      var cut := Seqs.Min(n, |active|);
      assert active[..cut] + active[cut..] == active;
      Details(active[..cut], if n != 0 then active[cut..] else [], Cancelled(regs))
  }

  /** Position of the registration at index `i` among the active ones. */
  function ActiveIndex(regs: seq<Registration>, i: nat): nat
    requires i <= |regs|
  {
    |Active(regs[..i])|
  }

  lemma {:induction false} ActiveSplit(regs: seq<Registration>, i: nat)
    requires i < |regs|
    ensures Active(regs) == Active(regs[..i]) + Active([regs[i]]) + Active(regs[i + 1..])
  {
    var rest := [regs[i]] + regs[i + 1..];
    assert regs == regs[..i] + rest;
    ActiveConcat(regs[..i], rest);
    ActiveConcat([regs[i]], regs[i + 1..]);
  }

  /** Cancelling the active registration at index `i` removes exactly that
      registration from the active list and keeps the others in order. */
  lemma CancelRemovesFromActive(regs: seq<Registration>, i: nat, t: int)
    requires i < |regs| && regs[i].IsActive()
    ensures
      var p := ActiveIndex(regs, i);
      var after := Active(regs[i := regs[i].(dateCancelled := Some(t))]);
      p < |Active(regs)| && after == Active(regs)[..p] + Active(regs)[p + 1..]
  {
    ActiveWithoutAt(regs, i, t);
    ActiveSplit(regs, i);
    ActiveSingle(regs[i]);
    SliceAround(Active(regs[..i]), regs[i], Active(regs[i + 1..]));
  }

  lemma ActiveSingle(r: Registration)
    ensures Active([r]) == if r.IsActive() then [r] else []
  {
    assert [r][1..] == [];
  }

  lemma SliceAround(front: seq<Registration>, x: Registration, back: seq<Registration>)
    ensures (front + [x] + back)[..|front|] == front
    ensures (front + [x] + back)[|front| + 1..] == back
  {
  }

  /** After cancelling at index `i`, the active list is what was active
      before and after that index. */
  lemma ActiveWithoutAt(regs: seq<Registration>, i: nat, t: int)
    requires i < |regs|
    ensures Active(regs[i := regs[i].(dateCancelled := Some(t))]) == Active(regs[..i]) + Active(regs[i + 1..])
  {
    var regs' := regs[i := regs[i].(dateCancelled := Some(t))];
    ActiveSplit(regs', i);
    ActiveSingle(regs'[i]);
    assert regs'[..i] == regs[..i];
    assert regs'[i + 1..] == regs[i + 1..];
  }

  /** Waiting-list promotion: when a confirmed registration is cancelled and
      someone is waiting, the first waiting registration becomes confirmed
      and the rest of the waiting list moves up by one. */
  lemma CancelPromotesFirstWaiting(regs: seq<Registration>, n: nat, i: nat, t: int)
    requires n > 0
    requires i < |regs| && regs[i].IsActive() && ActiveIndex(regs, i) < n
    requires |AdminDetails(regs, Some(n)).waiting| > 0
    ensures
      var before := AdminDetails(regs, Some(n));
      var after := AdminDetails(regs[i := regs[i].(dateCancelled := Some(t))], Some(n));
      && before.waiting[0] in after.confirmed
      && after.waiting == before.waiting[1..]
      && |after.confirmed| == n
  {
    var regs' := regs[i := regs[i].(dateCancelled := Some(t))];
    CancelRemovesFromActive(regs, i, t);
    var A := Active(regs);
    var p := ActiveIndex(regs, i);
    var A' := Active(regs');
    assert |A| > n;
    assert A' == A[..p] + A[p + 1..];
    assert A'[n - 1] == A[n];
    assert A'[n..] == A[n + 1..];
  }

  // -----------------------------------------------------------------------
  // export: the status column

  datatype Status = Registered | Waiting | CancelledStatus

  /** Python truthiness of the running `capacity`: null and 0 are false. */
  predicate Truthy(capacity: Option<int>) {
    capacity.Some? && capacity.value != 0
  }

  /** The export loop from index `i` on, with the running `capacity`: every
      cancelled registration seen raises a non-null capacity by one and is
      `cancelled`; an active one is `waiting` when the capacity is truthy
      and its index `i` has reached it, and `registered` otherwise. */
  function StatusesFrom(regs: seq<Registration>, i: nat, capacity: Option<int>): (st: seq<Status>)
    ensures |st| == |regs|
    decreases |regs|
  {
    if regs == [] then []
    else if regs[0].dateCancelled.Some? then
      var capacity' := if capacity.Some? then Some(capacity.value + 1) else None;
      [CancelledStatus] + StatusesFrom(regs[1..], i + 1, capacity')
    else
      var s := if Truthy(capacity) && i >= capacity.value then Waiting else Registered;
      [s] + StatusesFrom(regs[1..], i + 1, capacity)
  }

  /** A row is `cancelled` exactly when its registration is cancelled. */
  lemma {:induction false} StatusesCancelledIff(regs: seq<Registration>, i: nat, capacity: Option<int>, j: nat)
    requires j < |regs|
    ensures StatusesFrom(regs, i, capacity)[j] == CancelledStatus <==> !regs[j].IsActive()
    decreases |regs|
  {
    if j > 0 {
      var st := StatusesFrom(regs, i, capacity);
      var capacity' := if regs[0].dateCancelled.Some? && capacity.Some? then Some(capacity.value + 1) else capacity;
      assert st[1..] == StatusesFrom(regs[1..], i + 1, capacity');
      StatusesCancelledIff(regs[1..], i + 1, capacity', j - 1);
      assert st[j] == st[1..][j - 1];
    }
  }

  /** Without a participant limit no row is `waiting`. */
  lemma {:induction false} NoLimitNoWaiting(regs: seq<Registration>, i: nat, j: nat)
    requires j < |regs|
    ensures StatusesFrom(regs, i, None)[j] != Waiting
    decreases |regs|
  {
    if j > 0 {
      var st := StatusesFrom(regs, i, None);
      assert st[1..] == StatusesFrom(regs[1..], i + 1, None);
      NoLimitNoWaiting(regs[1..], i + 1, j - 1);
      assert st[j] == st[1..][j - 1];
    }
  }

  /** The per-row facts of the export loop started at index 0. */
  lemma LoopFromStart(regs: seq<Registration>, capacity: Option<int>)
    ensures forall j :: 0 <= j < |regs| ==>
              (StatusesFrom(regs, 0, capacity)[j] == CancelledStatus <==> !regs[j].IsActive())
    ensures capacity.None? ==> forall j :: 0 <= j < |regs| ==> StatusesFrom(regs, 0, capacity)[j] != Waiting
    ensures capacity.Some? && capacity.value > 0 ==>
              forall j :: 0 <= j < |regs| && regs[j].IsActive() ==>
                (StatusesFrom(regs, 0, capacity)[j] == Waiting <==> ActiveIndex(regs, j) >= capacity.value)
  {
    forall j | 0 <= j < |regs|
      ensures StatusesFrom(regs, 0, capacity)[j] == CancelledStatus <==> !regs[j].IsActive()
    {
      StatusesCancelledIff(regs, 0, capacity, j);
    }
    if capacity.None? {
      forall j | 0 <= j < |regs| ensures StatusesFrom(regs, 0, capacity)[j] != Waiting {
        NoLimitNoWaiting(regs, 0, j);
      }
    } else if capacity.value > 0 {
      forall j | 0 <= j < |regs| && regs[j].IsActive()
        ensures StatusesFrom(regs, 0, capacity)[j] == Waiting <==> ActiveIndex(regs, j) >= capacity.value
      {
        StatusFromSlack(regs, 0, capacity.value, j);
      }
    }
  }

  /** The status column of the export, one entry per registration, starting
      with `capacity = event.max_participants`. */
  function ExportStatuses(regs: seq<Registration>, maxParticipants: Option<nat>): (st: seq<Status>)
    ensures |st| == |regs|
    ensures forall j :: 0 <= j < |regs| ==> (st[j] == CancelledStatus <==> !regs[j].IsActive())
    ensures maxParticipants.None? ==> forall j :: 0 <= j < |regs| ==> st[j] != Waiting
    ensures maxParticipants.Some? && maxParticipants.value > 0 ==>
              forall j :: 0 <= j < |regs| && regs[j].IsActive() ==>
                (st[j] == Waiting <==> ActiveIndex(regs, j) >= maxParticipants.value)
  {
    var capacity := if maxParticipants.Some? then Some(maxParticipants.value as int) else None;
    LoopFromStart(regs, capacity);
    StatusesFrom(regs, 0, capacity)
  }

  /** In the export, a row is `cancelled` exactly when its registration is
      cancelled, whatever the participant limit. */
  lemma ExportCancelledIff(regs: seq<Registration>, maxParticipants: Option<nat>)
    ensures forall j :: 0 <= j < |regs| ==>
              (ExportStatuses(regs, maxParticipants)[j] == CancelledStatus <==> !regs[j].IsActive())
  {
    var capacity := if maxParticipants.Some? then Some(maxParticipants.value as int) else None;
    forall j | 0 <= j < |regs|
      ensures ExportStatuses(regs, maxParticipants)[j] == CancelledStatus <==> !regs[j].IsActive()
    {
      StatusesCancelledIff(regs, 0, capacity, j);
    }
  }

  /** Without a participant limit the export marks nobody `waiting`. */
  lemma ExportNoLimitNoWaiting(regs: seq<Registration>)
    ensures forall j :: 0 <= j < |regs| ==> ExportStatuses(regs, None)[j] != Waiting
  {
    forall j | 0 <= j < |regs|
      ensures ExportStatuses(regs, None)[j] != Waiting
    {
      NoLimitNoWaiting(regs, 0, j);
    }
  }

  /** The registrations whose export row has status `waiting`, in order. */
  function WaitingOf(regs: seq<Registration>, st: seq<Status>): seq<Registration>
    requires |regs| == |st|
  {
    if regs == [] then []
    else if st[0] == Waiting then [regs[0]] + WaitingOf(regs[1..], st[1..])
    else WaitingOf(regs[1..], st[1..])
  }

  function DropFront(s: seq<Registration>, k: int): seq<Registration> {
    if k <= 0 then s else if k >= |s| then [] else s[k..]
  }

  lemma DropFrontCons(r: Registration, rest: seq<Registration>, k: int)
    ensures DropFront([r] + rest, k) == if k <= 0 then [r] + rest else DropFront(rest, k - 1)
  {
    if 0 < k < |rest| + 1 {
      assert ([r] + rest)[k..] == rest[k - 1..];
    }
  }

  /** Dropping `k` from an active registration followed by the rest. */
  lemma DropFrontActive(r: Registration, rest: seq<Registration>, k: int)
    ensures DropFront([r] + rest, k) == (if k <= 0 then [r] else []) + DropFront(rest, k - 1)
  {
    DropFrontCons(r, rest, k);
  }

  lemma WaitingCancelledStep(regs: seq<Registration>, i: nat, capacity: int)
    requires regs != [] && !regs[0].IsActive()
    ensures WaitingOf(regs, StatusesFrom(regs, i, Some(capacity)))
         == WaitingOf(regs[1..], StatusesFrom(regs[1..], i + 1, Some(capacity + 1)))
    ensures Active(regs) == Active(regs[1..])
  {
    var st := StatusesFrom(regs, i, Some(capacity));
    assert st[1..] == StatusesFrom(regs[1..], i + 1, Some(capacity + 1));
  }

  lemma WaitingActiveStep(regs: seq<Registration>, i: nat, capacity: int)
    requires regs != [] && regs[0].IsActive() && capacity > 0
    ensures WaitingOf(regs, StatusesFrom(regs, i, Some(capacity)))
         == (if i >= capacity then [regs[0]] else [])
            + WaitingOf(regs[1..], StatusesFrom(regs[1..], i + 1, Some(capacity)))
    ensures Active(regs) == [regs[0]] + Active(regs[1..])
  {
    var st := StatusesFrom(regs, i, Some(capacity));
    assert st[1..] == StatusesFrom(regs[1..], i + 1, Some(capacity));
  }

  lemma {:induction false} WaitingFromSlack(regs: seq<Registration>, i: nat, capacity: int)
    requires capacity > 0
    ensures WaitingOf(regs, StatusesFrom(regs, i, Some(capacity)))
         == DropFront(Active(regs), capacity - i)
    decreases |regs|
  {
    if regs != [] {
      if !regs[0].IsActive() {
        WaitingCancelledStep(regs, i, capacity);
        WaitingFromSlack(regs[1..], i + 1, capacity + 1);
      } else {
        WaitingActiveStep(regs, i, capacity);
        WaitingFromSlack(regs[1..], i + 1, capacity);
        DropFrontActive(regs[0], Active(regs[1..]), capacity - i);
      }
    }
  }

  /** The export and the admin details page agree on the waiting list: for a
      positive capacity, the registrations the export marks `waiting` are
      exactly the admin details page's waiting list, in the same order. */
  lemma ExportWaitingMatchesDetails(regs: seq<Registration>, n: nat)
    requires n > 0
    ensures WaitingOf(regs, ExportStatuses(regs, Some(n))) == AdminDetails(regs, Some(n)).waiting
  {
    WaitingFromSlack(regs, 0, n);
  }

  lemma ActiveIndexCons(regs: seq<Registration>, j: nat)
    requires 0 < j <= |regs|
    ensures ActiveIndex(regs, j) == (if regs[0].IsActive() then 1 else 0) + ActiveIndex(regs[1..], j - 1)
  {
    assert regs[1..][..j - 1] == regs[..j][1..];
    assert regs[..j][0] == regs[0];
  }

  lemma {:induction false} StatusFromSlack(regs: seq<Registration>, i: nat, capacity: int, j: nat)
    requires capacity > 0
    requires j < |regs| && regs[j].IsActive()
    ensures StatusesFrom(regs, i, Some(capacity))[j] == Waiting
        <==> ActiveIndex(regs, j) >= capacity - i
    decreases |regs|
  {
    var st := StatusesFrom(regs, i, Some(capacity));
    if j > 0 {
      ActiveIndexCons(regs, j);
      assert regs[1..][j - 1] == regs[j];
      if regs[0].dateCancelled.Some? {
        StatusFromSlack(regs[1..], i + 1, capacity + 1, j - 1);
        assert st[1..] == StatusesFrom(regs[1..], i + 1, Some(capacity + 1));
      } else {
        StatusFromSlack(regs[1..], i + 1, capacity, j - 1);
        assert st[1..] == StatusesFrom(regs[1..], i + 1, Some(capacity));
      }
      assert st[j] == st[1..][j - 1];
    } else {
      assert regs[..0] == [];
    }
  }

  /** Per row: with a positive capacity `n`, an active registration is
      exported as `waiting` exactly when at least `n` active registrations
      precede it. */
  lemma ExportWaitingIff(regs: seq<Registration>, n: nat, j: nat)
    requires n > 0
    requires j < |regs| && regs[j].IsActive()
    ensures ExportStatuses(regs, Some(n))[j] == Waiting <==> ActiveIndex(regs, j) >= n
  {
    StatusFromSlack(regs, 0, n, j);
  }

  lemma {:induction false} ZeroStartNoCancellation(regs: seq<Registration>, i: nat)
    requires forall j :: 0 <= j < |regs| ==> regs[j].IsActive()
    ensures forall j :: 0 <= j < |regs| ==> StatusesFrom(regs, i, Some(0))[j] == Registered
    decreases |regs|
  {
    if regs != [] {
      ZeroStartNoCancellation(regs[1..], i + 1);
    }
  }

  lemma {:induction false} AfterCancellationAllWait(regs: seq<Registration>, i: nat, capacity: int)
    requires 0 < capacity <= i
    ensures forall j :: 0 <= j < |regs| && regs[j].IsActive() ==>
              StatusesFrom(regs, i, Some(capacity))[j] == Waiting
    decreases |regs|
  {
    if regs != [] {
      if regs[0].dateCancelled.Some? {
        AfterCancellationAllWait(regs[1..], i + 1, capacity + 1);
      } else {
        AfterCancellationAllWait(regs[1..], i + 1, capacity);
      }
    }
  }

  /** The capacity-0 quirk of the export, first half: a capacity of 0 is
      falsy, so every registration before the first cancellation is
      `registered`. */
  lemma {:induction false} ExportZeroBeforeCancellation(regs: seq<Registration>, c: nat)
    requires c <= |regs|
    requires forall j :: 0 <= j < c ==> regs[j].IsActive()
    ensures forall j :: 0 <= j < c ==> ExportStatuses(regs, Some(0))[j] == Registered
  {
    var st := ExportStatuses(regs, Some(0));
    PrefixStatuses(regs, c);
    ZeroStartNoCancellation(regs[..c], 0);
    forall j | 0 <= j < c
      ensures st[j] == Registered
    {
      assert st[..c][j] == st[j];
    }
  }

  /** The capacity-0 quirk of the export, second half: the first
      cancellation raises the capacity to 1, and from then on every active
      registration is `waiting`. */
  lemma {:induction false} ExportZeroAfterCancellation(regs: seq<Registration>, c: nat)
    requires c < |regs| && !regs[c].IsActive()
    requires forall j :: 0 <= j < c ==> regs[j].IsActive()
    ensures forall j :: c < j < |regs| && regs[j].IsActive() ==>
              ExportStatuses(regs, Some(0))[j] == Waiting
  {
    var st := ExportStatuses(regs, Some(0));
    var later := regs[c + 1..];
    ZeroFirstCancellation(regs, c);
    AfterCancellationAllWait(later, c + 1, 1);
    forall j | c < j < |regs| && regs[j].IsActive()
      ensures st[j] == Waiting
    {
      assert later[j - c - 1] == regs[j];
      assert st[c..][j - c] == st[j];
    }
  }

  /** At the first cancellation the zero capacity becomes 1. */
  lemma ZeroFirstCancellation(regs: seq<Registration>, c: nat)
    requires c < |regs| && !regs[c].IsActive()
    requires forall j :: 0 <= j < c ==> regs[j].IsActive()
    ensures ExportStatuses(regs, Some(0))[c..]
         == [CancelledStatus] + StatusesFrom(regs[c + 1..], c + 1, Some(1))
  {
    StatusesSuffix(regs, 0, Some(0), c);
    var tail := regs[c..];
    assert tail[0] == regs[c] && tail[1..] == regs[c + 1..];
    assert StatusesFrom(tail, c, Some(0)) == [CancelledStatus] + StatusesFrom(tail[1..], c + 1, Some(1));
  }

  /** With no cancellation before index `c`, the loop state at `c` is the
      initial capacity and the statuses up to `c` are those of the prefix. */
  lemma {:induction false} PrefixStatuses(regs: seq<Registration>, c: nat)
    requires c <= |regs|
    requires forall j :: 0 <= j < c ==> regs[j].IsActive()
    ensures StatusesFrom(regs, 0, Some(0))[..c] == StatusesFrom(regs[..c], 0, Some(0))
  {
    StatusesPrefixGeneral(regs, 0, Some(0), c);
  }

  lemma {:induction false} StatusesPrefixGeneral(regs: seq<Registration>, i: nat, capacity: Option<int>, c: nat)
    requires c <= |regs|
    requires forall j :: 0 <= j < c ==> regs[j].IsActive()
    ensures StatusesFrom(regs, i, capacity)[..c] == StatusesFrom(regs[..c], i, capacity)
    decreases c
  {
    if c > 0 {
      assert regs[..c][1..] == regs[1..][..c - 1];
      StatusesPrefixGeneral(regs[1..], i + 1, capacity, c - 1);
    }
  }

  lemma {:induction false} StatusesSuffix(regs: seq<Registration>, i: nat, capacity: Option<int>, c: nat)
    requires c <= |regs|
    requires forall j :: 0 <= j < c ==> regs[j].IsActive()
    ensures StatusesFrom(regs, i, capacity)[c..] == StatusesFrom(regs[c..], i + c, capacity)
    decreases c
  {
    if c > 0 {
      var st := StatusesFrom(regs, i, capacity);
      assert regs[0].IsActive();
      assert st[1..] == StatusesFrom(regs[1..], i + 1, capacity);
      assert regs[c..] == regs[1..][c - 1..];
      StatusesSuffix(regs[1..], i + 1, capacity, c - 1);
      assert st[c..] == st[1..][c - 1..];
    }
  }
}
