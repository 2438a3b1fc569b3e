/**
 * The training-session ledger of MemberMembershipRepository: `subtractTraining`
 * and `addTraining` move a membership's `remainingTrainings` by one and append
 * a training log; `getTrainingLogs` lists one membership's log, newest first.
 *
 * The behaviour is the one written in the repository's test double
 * (electron/repositories/__tests__/MemberMembershipRepository.spec.js); the
 * shipped MemberMembershipRepository.js does not define these operations.
 */
module Ledger {
  import opened Wrappers
  import opened Query
  import opened BaseRepository
  import opened Entities
  import SoftDeletion

  const NOT_FOUND: string := "Member membership not found"
  const NOT_TRACKED: string := "Trainings not tracked for this membership"
  const NO_TRAININGS_REMAINING: string := "No trainings remaining"
  const EXCEEDS_TOTAL: string := "Cannot exceed total trainings"

  /** The book the ledger keeps: the memberships and the append-only training log they share. */
  datatype Book = Book(memberships: Table<MemberMembership>, logs: seq<TrainingLog>)

  /**
   * The object the two operations resolve to: `{success: true,
   * remainingTrainings, totalTrainings}`, `{success: true, message}` or
   * `{success: false, error}`.
   */
  datatype TrainingResult =
    | Changed(remainingTrainings: int, totalTrainings: Option<int>)
    | Untracked(message: string)
    | Refused(error: string)
  {
    predicate Success() {
      !Refused?
    }
  }

  /** A result together with the ledger as the call left it. */
  datatype Step = Step(result: TrainingResult, ledger: Book)

  /** A membership's balance is sound: both counts absent, or both present with `0 <= remaining <= total`. */
  predicate BalanceOk(mm: MemberMembership) {
    && (mm.remainingTrainings.None? <==> mm.totalTrainings.None?)
    && (mm.remainingTrainings.Some? ==>
          0 <= mm.remainingTrainings.value <= mm.totalTrainings.value)
  }

  /** Every balance is sound and every log entry belongs to a stored membership. */
  ghost predicate Valid(l: Book) {
    && (forall k :: k in l.memberships ==> BalanceOk(l.memberships[k].entity))
    && (forall i :: 0 <= i < |l.logs| ==> l.logs[i].memberMembershipId in l.memberships)
  }

  /** The stored membership with `remainingTrainings` replaced. */
  function WithRemaining(s: Stored<MemberMembership>, remaining: int): (r: Stored<MemberMembership>)
    ensures r.entity.remainingTrainings == Some(remaining)
    ensures r.entity.totalTrainings == s.entity.totalTrainings
    ensures r.deletedAt == s.deletedAt
    ensures r.entity.(remainingTrainings := s.entity.remainingTrainings) == s.entity
  {
    s.(entity := s.entity.(remainingTrainings := Some(remaining)))
  }

  /** The patch `update({ remainingTrainings })` applies to the row it selects. */
  function SetRemaining(remaining: int): Stored<MemberMembership> -> Stored<MemberMembership> {
    s => WithRemaining(s, remaining)
  }

  /** The ledger after `update({ remainingTrainings }, { where: { id } })` and the training-log insert. */
  function Record(l: Book, id: int, remaining: int, now: int, action: Action): Book
    requires id in l.memberships
  {
    Book(l.memberships[id := WithRemaining(l.memberships[id], remaining)], l.logs + [TrainingLog(id, now, action)])
  }

  /**
   * The write `Record` performs is the repository's update by primary key: it
   * reports one row (and the patched membership when the ORM lists it) and
   * rewrites that row alone.
   */
  lemma RecordIsUpdateById(l: Book, id: int, remaining: int, now: int, action: Action, listed: bool)
    requires id in l.memberships
    ensures var w := Update(l.memberships, MemberMembershipColumns, SetRemaining(remaining), SoftDeletion.ById(id),
                            listed, None);
      var patched := WithRemaining(l.memberships[id], remaining);
      && w.reply == Ok(UpdateResult(1, if listed then map[id := patched] else map[]))
      && w.table == Record(l, id, remaining, now, action).memberships
  {
    SoftDeletion.UpdateById(l.memberships, MemberMembershipColumns, SetRemaining(remaining), id, listed);
  }

  /**
   * `subtractTraining(id)` at time `now`. The lookup is by primary key, so a
   * soft-deleted membership is still found.
   */
  function SubtractTraining(l: Book, id: int, now: int): (s: Step)
    ensures id !in l.memberships ==> s == Step(Refused(NOT_FOUND), l)
    ensures id in l.memberships && l.memberships[id].entity.remainingTrainings.None? ==>
      s == Step(Untracked(NOT_TRACKED), l)
    ensures id in l.memberships && l.memberships[id].entity.remainingTrainings.Some? ==>
      var mm := l.memberships[id].entity;
      var before := mm.remainingTrainings.value;
      if before <= 0 then s == Step(Refused(NO_TRAININGS_REMAINING), l)
      else
        && s.result == Changed(before - 1, mm.totalTrainings)
        && s.ledger.memberships == l.memberships[id := WithRemaining(l.memberships[id], before - 1)]
        && s.ledger.logs == l.logs + [TrainingLog(id, now, Subtract)]
  {
    var found := FindById(l.memberships, id, None).value;
    if found.None? then Step(Refused(NOT_FOUND), l)
    else
      var mm := found.value.entity;
      if mm.remainingTrainings.None? then Step(Untracked(NOT_TRACKED), l)
      else if mm.remainingTrainings.value <= 0 then Step(Refused(NO_TRAININGS_REMAINING), l)
      else
        var newRemaining := mm.remainingTrainings.value - 1;
        Step(Changed(newRemaining, mm.totalTrainings), Record(l, id, newRemaining, now, Subtract))
  }

  /** `addTraining(id)` at time `now`. */
  function AddTraining(l: Book, id: int, now: int): (s: Step)
    ensures id !in l.memberships ==> s == Step(Refused(NOT_FOUND), l)
    ensures id in l.memberships ==>
      var mm := l.memberships[id].entity;
      if mm.remainingTrainings.None? || mm.totalTrainings.None? then
        s == Step(Refused(NOT_TRACKED), l)
      else if mm.remainingTrainings.value >= mm.totalTrainings.value then
        s == Step(Refused(EXCEEDS_TOTAL), l)
      else
        && s.result == Changed(mm.remainingTrainings.value + 1, mm.totalTrainings)
        && s.ledger.memberships
           == l.memberships[id := WithRemaining(l.memberships[id], mm.remainingTrainings.value + 1)]
        && s.ledger.logs == l.logs + [TrainingLog(id, now, Add)]
  {
    var found := FindById(l.memberships, id, None).value;
    if found.None? then Step(Refused(NOT_FOUND), l)
    else
      var mm := found.value.entity;
      if mm.remainingTrainings.None? || mm.totalTrainings.None? then Step(Refused(NOT_TRACKED), l)
      else if mm.remainingTrainings.value >= mm.totalTrainings.value then Step(Refused(EXCEEDS_TOTAL), l)
      else
        var newRemaining := mm.remainingTrainings.value + 1;
        Step(Changed(newRemaining, mm.totalTrainings), Record(l, id, newRemaining, now, Add))
  }

  /** A call changes the ledger exactly when it reports new counts, and then appends one log entry. */
  lemma ChangesOnlyWhenCounted(l: Book, id: int, now: int)
    ensures var s := SubtractTraining(l, id, now);
      (s.result.Changed? <==> s.ledger != l) && (s.result.Changed? ==> |s.ledger.logs| == |l.logs| + 1)
    ensures var s := AddTraining(l, id, now);
      (s.result.Changed? <==> s.ledger != l) && (s.result.Changed? ==> |s.ledger.logs| == |l.logs| + 1)
  {
    var s := SubtractTraining(l, id, now);
    if s.result.Changed? {
      assert |s.ledger.logs| == |l.logs| + 1;
    }
    var a := AddTraining(l, id, now);
    if a.result.Changed? {
      assert |a.ledger.logs| == |l.logs| + 1;
    }
  }

  /** `subtractTraining` keeps every balance sound and every log entry attached. */
  lemma SubtractPreservesValid(l: Book, id: int, now: int)
    requires Valid(l)
    ensures Valid(SubtractTraining(l, id, now).ledger)
  {
    var l' := SubtractTraining(l, id, now).ledger;
    if l' != l {
      assert l'.memberships.Keys == l.memberships.Keys;
      forall i | 0 <= i < |l'.logs| ensures l'.logs[i].memberMembershipId in l'.memberships {
        if i < |l.logs| {
          assert l'.logs[i] == l.logs[i];
        }
      }
    }
  }

  /** `addTraining` keeps every balance sound and every log entry attached. */
  lemma AddPreservesValid(l: Book, id: int, now: int)
    requires Valid(l)
    ensures Valid(AddTraining(l, id, now).ledger)
  {
    var l' := AddTraining(l, id, now).ledger;
    if l' != l {
      assert l'.memberships.Keys == l.memberships.Keys;
      forall i | 0 <= i < |l'.logs| ensures l'.logs[i].memberMembershipId in l'.memberships {
        if i < |l.logs| {
          assert l'.logs[i] == l.logs[i];
        }
      }
    }
  }

  /** One ledger request, as the IPC layer issues them. */
  datatype Request = SubtractRequest(id: int, at: int) | AddRequest(id: int, at: int)

  function Apply(l: Book, r: Request): Book {
    match r
    case SubtractRequest(id, at) => SubtractTraining(l, id, at).ledger
    case AddRequest(id, at) => AddTraining(l, id, at).ledger
  }

  /** The ledger after a sequence of requests handled one at a time. */
  function Run(l: Book, rs: seq<Request>): Book
    decreases |rs|
  {
    if rs == [] then l else Run(Apply(l, rs[0]), rs[1..])
  }

  /** `0 <= remaining <= total` holds after any sequence of subtract and add requests. */
  lemma {:induction false} RunPreservesValid(l: Book, rs: seq<Request>)
    requires Valid(l)
    ensures Valid(Run(l, rs))
    decreases |rs|
  {
    if rs != [] {
      match rs[0] {
        case SubtractRequest(id, at) => SubtractPreservesValid(l, id, at);
        case AddRequest(id, at) => AddPreservesValid(l, id, at);
      }
      RunPreservesValid(Apply(l, rs[0]), rs[1..]);
    }
  }

  /**
   * A successful subtract followed by an add on the same membership restores
   * the balance and leaves two log entries, `subtract` then `add`.
   */
  lemma SubtractThenAdd(l: Book, id: int, t1: int, t2: int)
    requires id in l.memberships && BalanceOk(l.memberships[id].entity)
    requires SubtractTraining(l, id, t1).result.Changed?
    ensures var l1 := SubtractTraining(l, id, t1).ledger;
      var s2 := AddTraining(l1, id, t2);
      && s2.result == Changed(l.memberships[id].entity.remainingTrainings.value,
                              l.memberships[id].entity.totalTrainings)
      && s2.ledger.memberships == l.memberships
      && s2.ledger.logs == l.logs + [TrainingLog(id, t1, Subtract), TrainingLog(id, t2, Add)]
  {
    SubtractedFacts(l, id, t1);
    var s := l.memberships[id];
    var before := s.entity.remainingTrainings.value;
    var l1 := SubtractTraining(l, id, t1).ledger;
    var lowered := WithRemaining(s, before - 1);
    assert l1.memberships[id] == lowered;
    AddedFacts(l1, id, t2);
    var s2 := AddTraining(l1, id, t2);
    assert WithRemaining(lowered, before) == s;
    assert s2.ledger.memberships == l1.memberships[id := s];
    assert s2.ledger.logs == l.logs + [TrainingLog(id, t1, Subtract)] + [TrainingLog(id, t2, Add)];
  }

  /** What a subtract that reported new counts did. */
  lemma SubtractedFacts(l: Book, id: int, now: int)
    requires SubtractTraining(l, id, now).result.Changed?
    ensures id in l.memberships && l.memberships[id].entity.remainingTrainings.Some?
    ensures var s := l.memberships[id]; var before := s.entity.remainingTrainings.value;
      && before > 0
      && SubtractTraining(l, id, now).ledger
         == Book(l.memberships[id := WithRemaining(s, before - 1)], l.logs + [TrainingLog(id, now, Subtract)])
  {
  }

  /** What an add on a membership below its total does. */
  lemma AddedFacts(l: Book, id: int, now: int)
    requires id in l.memberships
    requires var mm := l.memberships[id].entity;
      mm.remainingTrainings.Some? && mm.totalTrainings.Some?
      && mm.remainingTrainings.value < mm.totalTrainings.value
    ensures var s := l.memberships[id]; var after := s.entity.remainingTrainings.value + 1;
      AddTraining(l, id, now)
      == Step(Changed(after, s.entity.totalTrainings),
              Book(l.memberships[id := WithRemaining(s, after)], l.logs + [TrainingLog(id, now, Add)]))
  {
  }

  /**
   * On a membership that does not track trainings, subtract reports success
   * with a message while add reports failure, and neither changes anything.
   */
  lemma UntrackedAsymmetry(l: Book, id: int, now: int)
    requires id in l.memberships
    requires l.memberships[id].entity.remainingTrainings.None?
    ensures SubtractTraining(l, id, now) == Step(Untracked(NOT_TRACKED), l)
    ensures SubtractTraining(l, id, now).result.Success()
    ensures AddTraining(l, id, now) == Step(Refused(NOT_TRACKED), l)
    ensures !AddTraining(l, id, now).result.Success()
  {
  }

  /** The log entries of one membership, oldest first. */
  function LogsOf(logs: seq<TrainingLog>, id: int): (r: seq<TrainingLog>)
    ensures forall e :: e in r ==> e in logs && e.memberMembershipId == id
    ensures forall e :: e in logs && e.memberMembershipId == id ==> e in r
    ensures forall e :: multiset(r)[e] == if e.memberMembershipId == id then multiset(logs)[e] else 0
    ensures r == [] <==> forall e :: e in logs ==> e.memberMembershipId != id
  {
    if logs == [] then []
    else
      var rest := LogsOf(logs[..|logs| - 1], id);
      var last := logs[|logs| - 1];
      assert logs == logs[..|logs| - 1] + [last];
      if last.memberMembershipId == id then rest + [last] else rest
  }

  /** Newest first: `usedAt` never increases along the sequence. */
  predicate NewestFirst(s: seq<TrainingLog>) {
    forall i, j :: 0 <= i < j < |s| ==> s[i].usedAt >= s[j].usedAt
  }

  /** Places `e` into a newest-first sequence. */
  function Insert(e: TrainingLog, s: seq<TrainingLog>): (r: seq<TrainingLog>)
    requires NewestFirst(s)
    ensures NewestFirst(r)
    ensures multiset(r) == multiset(s) + multiset{e}
    ensures r[0] == e || (s != [] && r[0] == s[0])
  {
    if s == [] || e.usedAt >= s[0].usedAt then [e] + s
    else
      var tail := Insert(e, s[1..]);
      assert s == [s[0]] + s[1..];
      HeadFirst(s[0], tail);
      [s[0]] + tail
  }

  /** Prepending an entry at least as new as the head keeps a sequence newest first. */
  lemma HeadFirst(h: TrainingLog, tail: seq<TrainingLog>)
    requires NewestFirst(tail)
    requires tail != [] ==> h.usedAt >= tail[0].usedAt
    ensures NewestFirst([h] + tail)
  {
    var r := [h] + tail;
    forall i, j | 0 <= i < j < |r| ensures r[i].usedAt >= r[j].usedAt {
      if i == 0 {
        assert r[j] == tail[j - 1];
        assert tail[0].usedAt >= tail[j - 1].usedAt;
      } else {
        assert r[i] == tail[i - 1] && r[j] == tail[j - 1];
      }
    }
  }

  /** The order `getTrainingLogs` asks for: most recent use first. */
  function SortNewestFirst(s: seq<TrainingLog>): (r: seq<TrainingLog>)
    ensures NewestFirst(r)
    ensures multiset(r) == multiset(s)
  {
    if s == [] then []
    else
      assert s == [s[0]] + s[1..];
      Insert(s[0], SortNewestFirst(s[1..]))
  }

  /**
   * `getTrainingLogs(id)`: exactly the log entries of that membership (each as
   * many times as it was written), newest first; a store failure is rethrown.
   */
  function GetTrainingLogs(l: Book, id: int, fault: Option<StorageError>): (r: Outcome<seq<TrainingLog>>)
    ensures fault.Some? ==> r == Thrown(fault.value)
    ensures fault.None? ==> r.Ok?
    ensures r.Ok? ==> NewestFirst(r.value)
    ensures r.Ok? ==> multiset(r.value) == multiset(LogsOf(l.logs, id))
    ensures r.Ok? ==> forall e :: e in r.value <==> e in l.logs && e.memberMembershipId == id
  {
    if fault.Some? then Thrown(fault.value)
    else
      var r := SortNewestFirst(LogsOf(l.logs, id));
      assert forall e :: e in r <==> e in multiset(LogsOf(l.logs, id));
      Ok(r)
  }
}
