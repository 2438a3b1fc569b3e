/**
 * The expiry-notification pass (electron/services/notificationService.js):
 * select the memberships that are not soft-deleted, belong to a stored member
 * and have either passed their end date or used up their sessions; give each
 * of them that has no notification yet one unread notification whose wording
 * names the reason; report how many were selected and how many were notified.
 */
module NotificationService {
  import opened Wrappers
  import opened BaseRepository
  import opened Entities

  const MS_PER_DAY: int := 86400000

  /** The number of the day the clock reading `now` (milliseconds) falls in: midnight of that day, in days. */
  function Today(now: int): (day: int)
    ensures day * MS_PER_DAY <= now < (day + 1) * MS_PER_DAY
  {
    now / MS_PER_DAY
  }

  /** `endDate < today`; an absent end date never compares (SQL NULL). */
  predicate DateExpired(mm: MemberMembership, today: int) {
    mm.endDate.Some? && mm.endDate.value < today
  }

  /** `remainingTrainings = 0 AND totalTrainings IS NOT NULL`. */
  predicate TrainingsDepleted(mm: MemberMembership) {
    mm.remainingTrainings == Some(0) && mm.totalTrainings.Some?
  }

  /** What the query selects: not soft-deleted, expired by either rule, and joined to a stored member. */
  predicate Selectable(mms: Table<MemberMembership>, members: Table<Member>, k: int, today: int)
    requires k in mms
  {
    && mms[k].Active()
    && (DateExpired(mms[k].entity, today) || TrainingsDepleted(mms[k].entity))
    && mms[k].entity.memberId in members
  }

  function Expired(mms: Table<MemberMembership>, members: Table<Member>, today: int): (s: set<int>)
    ensures s <= mms.Keys
    ensures forall k :: k in mms ==> (k in s <==> Selectable(mms, members, k, today))
  {
    set k | k in mms.Keys && Selectable(mms, members, k, today)
  }

  /**
   * Some notification row refers to membership `m`. Soft-deleted rows count:
   * the join to notifications does not filter on `deletedAt`.
   */
  predicate HasNotification(notes: Table<Notification>, m: int) {
    exists k :: k in notes && notes[k].entity.memberMembershipId == m
  }

  /** The selected memberships that have no notification yet. */
  function Unnotified(mms: Table<MemberMembership>, members: Table<Member>, notes: Table<Notification>, today: int)
    : (s: set<int>)
    ensures s <= Expired(mms, members, today)
    ensures forall m :: m in s <==> m in Expired(mms, members, today) && !HasNotification(notes, m)
  {
    set m | m in Expired(mms, members, today) && !HasNotification(notes, m)
  }

  function DepletedMessage(firstName: string, lastName: string): string {
    "Изчерпани тренировки за " + firstName + " " + lastName
  }

  function ExpiredMessage(firstName: string, lastName: string): string {
    "Изтекло членство за " + firstName + " " + lastName
  }

  /** The depletion wording wins whenever the sessions are used up, even if the end date has also passed. */
  function MessageFor(mm: MemberMembership, member: Member): (msg: string)
    ensures TrainingsDepleted(mm) ==> msg == DepletedMessage(member.firstName, member.lastName)
    ensures !TrainingsDepleted(mm) ==> msg == ExpiredMessage(member.firstName, member.lastName)
  {
    if TrainingsDepleted(mm) then DepletedMessage(member.firstName, member.lastName)
    else ExpiredMessage(member.firstName, member.lastName)
  }

  /** The two wordings never coincide, so a message tells which rule selected the membership. */
  lemma WordingTellsReason(mm: MemberMembership, member: Member)
    ensures MessageFor(mm, member) == DepletedMessage(member.firstName, member.lastName) <==> TrainingsDepleted(mm)
    ensures MessageFor(mm, member) == ExpiredMessage(member.firstName, member.lastName) <==> !TrainingsDepleted(mm)
  {
    var d := DepletedMessage(member.firstName, member.lastName);
    var e := ExpiredMessage(member.firstName, member.lastName);
    assert d[2] == 'ч' && e[2] == 'т';
  }

  /**
   * The day rule in milliseconds: a membership is date-expired exactly from
   * the first millisecond of the day after its end date, so one that ends
   * today is not yet expired.
   */
  lemma ExpiresTheDayAfter(mm: MemberMembership, now: int)
    requires mm.endDate.Some?
    ensures DateExpired(mm, Today(now)) <==> now >= (mm.endDate.value + 1) * MS_PER_DAY
    ensures mm.endDate.value == Today(now) ==> !DateExpired(mm, Today(now))
  {
    var d := mm.endDate.value;
    var today := Today(now);
    assert today * MS_PER_DAY <= now < (today + 1) * MS_PER_DAY;
    if d < today {
      assert (d + 1) * MS_PER_DAY <= today * MS_PER_DAY;
    } else {
      assert (today + 1) * MS_PER_DAY <= (d + 1) * MS_PER_DAY;
    }
  }

  /** The notification the pass writes for a membership of `pending`, the ones it must notify. */
  ghost predicate CreatedFor(mms: Table<MemberMembership>, members: Table<Member>, pending: set<int>,
                             n: Stored<Notification>) {
    var m := n.entity.memberMembershipId;
    && m in pending
    && m in mms && mms[m].entity.memberId in members
    && n.Active()
    && !n.entity.isRead
    && n.entity.message == MessageFor(mms[m].entity, members[mms[m].entity.memberId].entity)
  }

  /** No membership receives two of the notifications `notes'` adds to `notes`. */
  ghost predicate AtMostOneEach(notes: Table<Notification>, notes': Table<Notification>) {
    forall k1, k2 :: k1 in notes' && k1 !in notes && k2 in notes' && k2 !in notes ==>
      (notes'[k1].entity.memberMembershipId == notes'[k2].entity.memberMembershipId ==> k1 == k2)
  }

  /**
   * Where the pass stands after notifying the memberships in `made`: the rows
   * it started from are untouched and each added row is the one notification
   * of a distinct membership in `made`.
   */
  ghost predicate Progress(mms: Table<MemberMembership>, members: Table<Member>, pending: set<int>,
                           notes: Table<Notification>, cur: Table<Notification>, made: set<int>) {
    && made <= pending
    && notes.Keys <= cur.Keys
    && (forall k :: k in notes ==> cur[k] == notes[k])
    && |cur| == |notes| + |made|
    && (forall k :: k in cur && k !in notes ==>
          CreatedFor(mms, members, pending, cur[k]) && cur[k].entity.memberMembershipId in made)
    && AtMostOneEach(notes, cur)
    && (forall m :: m in made ==> exists k :: k in cur && k !in notes && cur[k].entity.memberMembershipId == m)
  }

  /** Writing the notification of one more unnotified membership under a fresh key keeps `Progress`. */
  lemma NotifyStep(mms: Table<MemberMembership>, members: Table<Member>, pending: set<int>,
                   notes: Table<Notification>, cur: Table<Notification>, made: set<int>, m: int, k: int)
    requires Progress(mms, members, pending, notes, cur, made)
    requires m in pending && m !in made && m in mms && mms[m].entity.memberId in members
    requires k !in cur
    ensures var mm := mms[m].entity;
      var n := Stored(Notification(MessageFor(mm, members[mm.memberId].entity), false, m), None);
      Progress(mms, members, pending, notes, cur[k := n], made + {m})
  {
    var mm := mms[m].entity;
    var n := Stored(Notification(MessageFor(mm, members[mm.memberId].entity), false, m), None);
    StepAddsCreated(mms, members, pending, notes, cur, made, k, n);
    StepKeepsOnce(mms, members, pending, notes, cur, made, k, n);
    StepCovers(mms, members, pending, notes, cur, made, k, n);
  }

  /** The new row is one more created notification, of a membership now in `made`. */
  lemma StepAddsCreated(mms: Table<MemberMembership>, members: Table<Member>, pending: set<int>,
                        notes: Table<Notification>, cur: Table<Notification>, made: set<int>,
                        k: int, n: Stored<Notification>)
    requires Progress(mms, members, pending, notes, cur, made)
    requires k !in cur && n.entity.memberMembershipId !in made && CreatedFor(mms, members, pending, n)
    ensures var next := cur[k := n]; var made' := made + {n.entity.memberMembershipId};
      && made' <= pending
      && notes.Keys <= next.Keys
      && (forall k' :: k' in notes ==> next[k'] == notes[k'])
      && |next| == |notes| + |made'|
      && forall k' :: k' in next && k' !in notes ==>
           CreatedFor(mms, members, pending, next[k']) && next[k'].entity.memberMembershipId in made'
  {
  }

  /** A row for a membership not yet in `made` keeps every membership at one new row. */
  lemma StepKeepsOnce(mms: Table<MemberMembership>, members: Table<Member>, pending: set<int>,
                      notes: Table<Notification>, cur: Table<Notification>, made: set<int>,
                      k: int, n: Stored<Notification>)
    requires Progress(mms, members, pending, notes, cur, made)
    requires k !in cur && n.entity.memberMembershipId !in made
    ensures AtMostOneEach(notes, cur[k := n])
  {
    var next := cur[k := n];
    forall k1, k2 | k1 in next && k1 !in notes && k2 in next && k2 !in notes
      ensures next[k1].entity.memberMembershipId == next[k2].entity.memberMembershipId ==> k1 == k2
    {
      if k1 != k && k2 == k {
        assert cur[k1].entity.memberMembershipId in made;
      } else if k1 == k && k2 != k {
        assert cur[k2].entity.memberMembershipId in made;
      }
    }
  }

  /** Every membership in `made`, and the new one, still has its new row. */
  lemma StepCovers(mms: Table<MemberMembership>, members: Table<Member>, pending: set<int>,
                   notes: Table<Notification>, cur: Table<Notification>, made: set<int>,
                   k: int, n: Stored<Notification>)
    requires Progress(mms, members, pending, notes, cur, made)
    requires k !in cur
    ensures var next := cur[k := n];
      forall m :: m in made + {n.entity.memberMembershipId} ==>
        exists k' :: k' in next && k' !in notes && next[k'].entity.memberMembershipId == m
  {
    var next := cur[k := n];
    forall m' | m' in made + {n.entity.memberMembershipId}
      ensures exists k' :: k' in next && k' !in notes && next[k'].entity.memberMembershipId == m'
    {
      if m' == n.entity.memberMembershipId {
        assert next[k].entity.memberMembershipId == m';
      } else {
        var k' :| k' in cur && k' !in notes && cur[k'].entity.memberMembershipId == m';
        assert next[k'] == cur[k'];
      }
    }
  }

  /** Once every unnotified membership is in `made`, none is left unnotified. */
  lemma ProgressComplete(mms: Table<MemberMembership>, members: Table<Member>, notes: Table<Notification>,
                         today: int, cur: Table<Notification>)
    requires Progress(mms, members, Unnotified(mms, members, notes, today), notes, cur,
                      Unnotified(mms, members, notes, today))
    ensures Unnotified(mms, members, cur, today) == {}
  {
    var pending := Unnotified(mms, members, notes, today);
    forall m | m in Expired(mms, members, today) ensures HasNotification(cur, m) {
      if HasNotification(notes, m) {
        var k :| k in notes && notes[k].entity.memberMembershipId == m;
        assert cur[k] == notes[k];
      } else {
        assert m in pending;
      }
    }
  }

  /** The pass's resolved value `{ totalExpired, notificationsCreated }`. */
  datatype Summary = Summary(totalExpired: nat, notificationsCreated: nat)

  /**
   * One visit of the loop: a membership with no notification in `notes` gets
   * one written under a fresh key; any other is skipped.
   */
  method Visit(mms: Table<MemberMembership>, members: Table<Member>, notes: Table<Notification>,
               ghost pending: set<int>, cur: Table<Notification>, ghost made: set<int>, m: int)
    returns (cur': Table<Notification>, notified: bool)
    requires Progress(mms, members, pending, notes, cur, made)
    requires m in mms && mms[m].entity.memberId in members
    requires m in pending <==> !HasNotification(notes, m)
    requires m !in made
    ensures notified <==> m in pending
    ensures !notified ==> cur' == cur
    ensures Progress(mms, members, pending, notes, cur', if notified then made + {m} else made)
  {
    if HasNotification(notes, m) {
      return cur, false;
    }
    var mm := mms[m].entity;
    var n := Notification(MessageFor(mm, members[mm.memberId].entity), false, m);
    var w := Create(cur, n, None);
    NotifyStep(mms, members, pending, notes, cur, made, m, w.reply.value.id);
    return w.table, true;
  }

  /**
   * The loop of the pass: visit `expired` in ascending key order and write a
   * notification for each membership that has none in `notes`; `pending` is
   * the set of those memberships.
   */
  method NotifyEach(mms: Table<MemberMembership>, members: Table<Member>, notes: Table<Notification>,
                    expired: set<int>, ghost pending: set<int>)
    returns (cur: Table<Notification>, created: nat)
    requires forall m :: m in expired ==> m in mms && mms[m].entity.memberId in members
    requires forall m :: m in expired ==> (m in pending <==> !HasNotification(notes, m))
    requires pending <= expired
    ensures created == |pending|
    ensures Progress(mms, members, pending, notes, cur, pending)
  {
    cur := notes;
    created := 0;
    var todo := expired;
    ghost var made: set<int> := {};
    while todo != {}
      invariant todo <= expired
      invariant made <= pending
      invariant forall x :: x in pending ==> (x in made <==> x !in todo)
      invariant created == |made|
      invariant Progress(mms, members, pending, notes, cur, made)
      decreases |todo|
    {
      var m := Least(todo);
      var notified;
      cur, notified := Visit(mms, members, notes, pending, cur, made, m);
      if notified {
        assert |made + {m}| == |made| + 1;
        created := created + 1;
      }
      made := if notified then made + {m} else made;
      todo := todo - {m};
    }
    assert forall x :: x in pending ==> x in made;
    assert made == pending;
  }

  /**
   * `checkExpiredMembershipsAndCreateNotifications()` on the clock reading
   * `now`. `fault` is a failure of the selecting query, which is rethrown with
   * nothing written.
   */
  method CheckExpiredMembershipsAndCreateNotifications(
    mms: Table<MemberMembership>, members: Table<Member>, notes: Table<Notification>,
    now: int, fault: Option<StorageError>)
    returns (reply: Outcome<Summary>, notes': Table<Notification>)
    ensures fault.Some? ==> reply == Thrown(fault.value) && notes' == notes
    ensures fault.None? ==> reply == Ok(Summary(|Expired(mms, members, Today(now))|,
                                                |Unnotified(mms, members, notes, Today(now))|))
    ensures fault.None? ==>
      var pending := Unnotified(mms, members, notes, Today(now));
      Progress(mms, members, pending, notes, notes', pending)
    ensures fault.None? ==> Unnotified(mms, members, notes', Today(now)) == {}
    ensures reply.Ok? ==> reply.value.notificationsCreated <= reply.value.totalExpired
  {
    if fault.Some? {
      return Thrown(fault.value), notes;
    }
    var today := Today(now);
    var expired := Expired(mms, members, today);
    ghost var pending := Unnotified(mms, members, notes, today);
    var created;
    notes', created := NotifyEach(mms, members, notes, expired, pending);
    ProgressComplete(mms, members, notes, today, notes');
    SubsetCard(pending, expired);
    return Ok(Summary(|expired|, created)), notes';
  }

  /** A second pass over what the first one wrote selects the same memberships and notifies none. */
  method CheckTwice(mms: Table<MemberMembership>, members: Table<Member>, notes: Table<Notification>, now: int)
    returns (first: Summary, second: Summary)
    ensures second.notificationsCreated == 0
    ensures second.totalExpired == first.totalExpired
    ensures first.notificationsCreated <= first.totalExpired
  {
    var r1, notes1 := CheckExpiredMembershipsAndCreateNotifications(mms, members, notes, now, None);
    var r2, notes2 := CheckExpiredMembershipsAndCreateNotifications(mms, members, notes1, now, None);
    first, second := r1.value, r2.value;
  }

  /**
   * A notification suppresses a new one whatever its state: read or unread,
   * soft-deleted or not.
   */
  lemma AnyNotificationSuppresses(mms: Table<MemberMembership>, members: Table<Member>,
                                  notes: Table<Notification>, today: int, k: int)
    requires k in notes
    ensures notes[k].entity.memberMembershipId !in Unnotified(mms, members, notes, today)
  {
  }

  /** A subset is no larger than its superset. */
  lemma {:induction false} SubsetCard(a: set<int>, b: set<int>)
    requires a <= b
    ensures |a| <= |b|
    decreases |b|
  {
    if a != {} {
      Inhabited(a);
      var x :| x in a;
      SubsetCard(a - {x}, b - {x});
    }
  }
}
