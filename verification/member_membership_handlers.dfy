/**
 * The member-membership IPC handlers as written in the handler test double
 * (electron/ipc/__tests__/memberMembershipHandlers.spec.js): `create`
 * snapshots the plan's session count into the new membership, the training
 * channels forward to the ledger, and the list channels turn a rejected
 * repository call into an empty list.
 */
module MemberMembershipHandlers {
  import opened Wrappers
  import opened Query
  import opened BaseRepository
  import opened Entities
  import Ledger

  /** The `data` a renderer sends to `memberMembership:create`. */
  datatype NewMemberMembership = NewMemberMembership(
    memberId: int,
    membershipId: int,
    startDate: int,
    endDate: Option<int>)

  /**
   * The record `create` stores: the renderer's fields, with both session
   * counts set to the plan's session count, or to null when there is no plan
   * or the plan has no count. Only a missing value becomes null, so a plan of
   * zero sessions gives zero.
   */
  function Enrich(data: NewMemberMembership, plan: Option<Plan>): (mm: MemberMembership)
    ensures mm.memberId == data.memberId && mm.membershipId == data.membershipId
    ensures mm.startDate == data.startDate && mm.endDate == data.endDate
    ensures mm.totalTrainings == mm.remainingTrainings
    ensures mm.totalTrainings.Some? <==> plan.Some? && plan.value.trainings.Some?
    ensures mm.totalTrainings.Some? ==> mm.totalTrainings == plan.value.trainings
  {
    var trainings := if plan.Some? then plan.value.trainings else None;
    MemberMembership(data.memberId, data.membershipId, data.startDate, data.endDate, trainings, trainings)
  }

  /** The plan `create` looks up: by primary key, so a soft-deleted plan still counts. */
  function PlanOf(plans: Table<Plan>, id: int): Option<Plan> {
    if id in plans then Some(plans[id].entity) else None
  }

  /**
   * `memberMembership:create`: look the plan up, then create the enriched
   * record. A failure of either repository call is passed on unchanged.
   */
  function CreateHandler(plans: Table<Plan>, t: Table<MemberMembership>, data: NewMemberMembership,
                         lookupFault: Option<StorageError>, createFault: Option<StorageError>)
    : (w: Written<Record<MemberMembership>, MemberMembership>)
    ensures lookupFault.Some? ==> w == Written(Thrown(lookupFault.value), t)
    ensures lookupFault.None? && createFault.Some? ==> w == Written(Thrown(createFault.value), t)
    ensures lookupFault.None? && createFault.None? ==>
      && w.reply.Ok?
      && w.reply.value.id !in t
      && w.table == t[w.reply.value.id := Stored(Enrich(data, PlanOf(plans, data.membershipId)), None)]
      && w.reply.value.stored == w.table[w.reply.value.id]
  {
    match FindById(plans, data.membershipId, lookupFault)
    case Thrown(e) => Written(Thrown(e), t)
    case Ok(found) =>
      var plan := if found.Some? then Some(found.value.entity) else None;
      assert plan == PlanOf(plans, data.membershipId);
      Create(t, Enrich(data, plan), createFault)
  }

  /**
   * A created membership starts with equal counts: the plan's sessions when it
   * has a count, both absent when the plan is missing or time-based.
   */
  lemma CreatedCounts(plans: Table<Plan>, t: Table<MemberMembership>, data: NewMemberMembership)
    ensures var w := CreateHandler(plans, t, data, None, None);
      var mm := w.table[w.reply.value.id].entity;
      && mm.totalTrainings == mm.remainingTrainings
      && (data.membershipId in plans ==> mm.totalTrainings == plans[data.membershipId].entity.trainings)
      && (data.membershipId !in plans ==> mm.totalTrainings.None?)
  {
  }

  /**
   * Creating a membership keeps the ledger sound when the plan's session count
   * is not negative, and the new membership starts with no log entries.
   */
  lemma {:induction false} CreatePreservesValid(plans: Table<Plan>, l: Ledger.Book, data: NewMemberMembership)
    requires Ledger.Valid(l)
    requires data.membershipId in plans && plans[data.membershipId].entity.trainings.Some? ==>
      plans[data.membershipId].entity.trainings.value >= 0
    ensures var w := CreateHandler(plans, l.memberships, data, None, None);
      && Ledger.Valid(Ledger.Book(w.table, l.logs))
      && Ledger.LogsOf(l.logs, w.reply.value.id) == []
  {
    var w := CreateHandler(plans, l.memberships, data, None, None);
    var id := w.reply.value.id;
    var mm := Enrich(data, PlanOf(plans, data.membershipId));
    assert Ledger.BalanceOk(mm);
    forall k | k in w.table ensures Ledger.BalanceOk(w.table[k].entity) {
      if k != id {
        assert w.table[k] == l.memberships[k];
      }
    }
    forall e | e in l.logs ensures e.memberMembershipId != id {
      var i :| 0 <= i < |l.logs| && l.logs[i] == e;
      assert l.logs[i].memberMembershipId in l.memberships;
    }
  }

  /**
   * A membership created from a zero-session plan is tracked but exhausted:
   * a subtract is refused and changes nothing.
   */
  lemma ZeroPlanIsExhausted(plans: Table<Plan>, l: Ledger.Book, data: NewMemberMembership, now: int)
    requires data.membershipId in plans && plans[data.membershipId].entity.trainings == Some(0)
    ensures var w := CreateHandler(plans, l.memberships, data, None, None);
      var l1 := Ledger.Book(w.table, l.logs);
      Ledger.SubtractTraining(l1, w.reply.value.id, now) == Ledger.Step(Ledger.Refused(Ledger.NO_TRAININGS_REMAINING), l1)
  {
    var w := CreateHandler(plans, l.memberships, data, None, None);
    assert w.table[w.reply.value.id].entity.remainingTrainings == Some(0);
  }

  /** `memberMembership:subtractTraining`: forwards the id and returns the ledger's reply as is. */
  function SubtractHandler(l: Ledger.Book, id: int, now: int): (s: Ledger.Step)
    ensures !s.result.Changed? ==> s.ledger == l
    ensures s.result.Changed? ==> |s.ledger.logs| == |l.logs| + 1 && s.ledger.logs[|l.logs|].action == Subtract
  {
    Ledger.ChangesOnlyWhenCounted(l, id, now);
    Ledger.SubtractTraining(l, id, now)
  }

  /** `memberMembership:addTraining`: forwards the id and returns the ledger's reply as is. */
  function AddHandler(l: Ledger.Book, id: int, now: int): (s: Ledger.Step)
    ensures !s.result.Changed? ==> s.ledger == l
    ensures s.result.Changed? ==> |s.ledger.logs| == |l.logs| + 1 && s.ledger.logs[|l.logs|].action == Add
  {
    Ledger.ChangesOnlyWhenCounted(l, id, now);
    Ledger.AddTraining(l, id, now)
  }

  /** The two training channels are pure forwarders. */
  lemma HandlersForward(l: Ledger.Book, id: int, now: int)
    ensures SubtractHandler(l, id, now) == Ledger.SubtractTraining(l, id, now)
    ensures AddHandler(l, id, now) == Ledger.AddTraining(l, id, now)
  {
  }

  /** A rejected read becomes an empty list; a resolved one is passed on. */
  function OrEmpty<T>(reply: Outcome<seq<T>>): (r: seq<T>)
    ensures reply.Thrown? ==> r == []
    ensures reply.Ok? ==> r == reply.value
  {
    match reply
    case Ok(v) => v
    case Thrown(_) => []
  }

  /**
   * `memberMembership:getAll`: `findAll()` with no options, that is every
   * stored membership, soft-deleted ones included; a rejection gives none.
   */
  function GetAllHandler(t: Table<MemberMembership>, fault: Option<StorageError>): (r: Table<MemberMembership>)
    ensures fault.Some? ==> r == map[]
    ensures fault.None? ==> r == t
  {
    match FindAll(t, MemberMembershipColumns, NoOptions, fault)
    case Thrown(_) => map[]
    case Ok(found) =>
      assert forall k :: k in t ==> Matches(RowAt(t, MemberMembershipColumns, k), map[]);
      assert found.Keys == t.Keys;
      found
  }

  /**
   * `memberMembership:getExpirationsByMonth`: the repository's reply, or the
   * empty list when it rejects. The query itself is not part of this model,
   * so its reply is a parameter.
   */
  function ExpirationsHandler(reply: Outcome<seq<MemberMembership>>): (r: seq<MemberMembership>)
    ensures reply.Thrown? ==> r == []
    ensures reply.Ok? ==> r == reply.value
  {
    OrEmpty(reply)
  }

  /**
   * `trainingLog:getByMemberMembership`: the membership's log newest first,
   * or the empty list when the store rejects.
   */
  function TrainingLogsHandler(l: Ledger.Book, id: int, fault: Option<StorageError>): (r: seq<TrainingLog>)
    ensures fault.Some? ==> r == []
    ensures Ledger.NewestFirst(r)
    ensures fault.None? ==> multiset(r) == multiset(Ledger.LogsOf(l.logs, id))
  {
    OrEmpty(Ledger.GetTrainingLogs(l, id, fault))
  }
}
