/**
 * The entities of the schema (electron/models) as immutable records, and the
 * column view of each one that `where` objects are matched against. The
 * primary key and `deletedAt` live in the store (BaseRepository.Stored), not
 * in these records; the `createdAt`/`updatedAt` timestamps are not modelled.
 *
 * Dates written DATEONLY are day numbers; DATE columns are millisecond
 * timestamps.
 */
module Entities {
  import opened Wrappers
  import opened Query

  datatype Member = Member(
    firstName: string,
    lastName: string,
    nickname: Option<string>,
    description: Option<string>)

  /** How a plan is measured: by calendar time or by a number of training sessions. */
  datatype PlanKind = Time | Training

  /** A purchasable membership plan (the `Membership` model). */
  datatype Plan = Plan(
    name: string,
    description: Option<string>,
    days: int,
    kind: PlanKind,
    trainings: Option<int>)

  /** A plan held by a member, with its own dates and session balance. */
  datatype MemberMembership = MemberMembership(
    memberId: int,
    membershipId: int,
    startDate: int,
    endDate: Option<int>,
    totalTrainings: Option<int>,
    remainingTrainings: Option<int>)

  /** The two values the `action` column of a training log takes. */
  datatype Action = Subtract | Add

  /** An append-only audit entry of one change to a session balance. */
  datatype TrainingLog = TrainingLog(memberMembershipId: int, usedAt: int, action: Action)

  datatype Notification = Notification(message: string, isRead: bool, memberMembershipId: int)

  function ActionName(a: Action): string {
    match a
    case Subtract => "subtract"
    case Add => "add"
  }

  function PlanKindName(k: PlanKind): string {
    match k
    case Time => "time"
    case Training => "training"
  }

  function TextOrNull(s: Option<string>): (v: Value)
    ensures v == Null <==> s.None?
  {
    match s
    case None => Null
    case Some(x) => Text(x)
  }

  function IntOrNull(n: Option<int>): (v: Value)
    ensures v == Null <==> n.None?
  {
    match n
    case None => Null
    case Some(x) => Int(x)
  }

  function MemberColumns(m: Member): Row {
    map["firstName" := Text(m.firstName), "lastName" := Text(m.lastName),
        "nickname" := TextOrNull(m.nickname), "description" := TextOrNull(m.description)]
  }

  function PlanColumns(p: Plan): Row {
    map["name" := Text(p.name), "description" := TextOrNull(p.description),
        "days" := Int(p.days), "type" := Text(PlanKindName(p.kind)),
        "trainings" := IntOrNull(p.trainings)]
  }

  function MemberMembershipColumns(mm: MemberMembership): Row {
    map["memberId" := Int(mm.memberId), "membershipId" := Int(mm.membershipId),
        "startDate" := Day(mm.startDate), "endDate" := DayOrNull(mm.endDate),
        "totalTrainings" := IntOrNull(mm.totalTrainings),
        "remainingTrainings" := IntOrNull(mm.remainingTrainings)]
  }

  function NotificationColumns(n: Notification): (row: Row)
    ensures "isRead" in row && row["isRead"] == Bool(n.isRead)
    ensures "memberMembershipId" in row && row["memberMembershipId"] == Int(n.memberMembershipId)
  {
    map["message" := Text(n.message), "isRead" := Bool(n.isRead),
        "memberMembershipId" := Int(n.memberMembershipId)]
  }
}
