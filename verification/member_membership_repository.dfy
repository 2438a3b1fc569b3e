/** MemberMembershipRepository (electron/repositories/MemberMembershipRepository.js): the soft-delete repository over member memberships. */
module MemberMembershipRepository {
  import opened Wrappers
  import opened Query
  import opened BaseRepository
  import opened Entities
  import SoftDeletion

  /** `findActive(options)`: the caller's query with `deletedAt = null` forced in. */
  function FindActive(t: Table<MemberMembership>, opts: Options, fault: Option<StorageError>): (r: Outcome<Table<MemberMembership>>)
    ensures fault.Some? ==> r == Thrown(fault.value)
    ensures fault.None? ==> r.Ok? && SoftDeletion.IsActiveSelection(t, MemberMembershipColumns, opts, r.value)
  {
    SoftDeletion.FindActive(t, MemberMembershipColumns, opts, fault)
  }

  /** `softDelete(id)`: stamps `deletedAt` with `now` on that key only. */
  function SoftDelete(t: Table<MemberMembership>, id: int, now: int, listed: bool, fault: Option<StorageError>)
    : (w: Written<UpdateResult<MemberMembership>, MemberMembership>)
    ensures fault.Some? ==> w.reply == Thrown(fault.value) && w.table == t
    ensures fault.None? ==> w.reply.Ok? && SoftDeletion.StampedOnly(t, id, Some(now), w.table)
    ensures fault.None? ==> SoftDeletion.UpdatedByKey(t, id, w.table, listed, w.reply.value)
  {
    SoftDeletion.SoftDelete(t, MemberMembershipColumns, id, now, listed, fault)
  }

  /** `restore(id)`: clears `deletedAt` on that key only. */
  function Restore(t: Table<MemberMembership>, id: int, listed: bool, fault: Option<StorageError>)
    : (w: Written<UpdateResult<MemberMembership>, MemberMembership>)
    ensures fault.Some? ==> w.reply == Thrown(fault.value) && w.table == t
    ensures fault.None? ==> w.reply.Ok? && SoftDeletion.StampedOnly(t, id, None, w.table)
    ensures fault.None? ==> SoftDeletion.UpdatedByKey(t, id, w.table, listed, w.reply.value)
  {
    SoftDeletion.Restore(t, MemberMembershipColumns, id, listed, fault)
  }

  /** Restoring right after a soft delete makes the membership active again. */
  lemma RestoreMakesActive(t: Table<MemberMembership>, id: int, now: int, listed: bool)
    requires id in t
    ensures id in FindActive(Restore(SoftDelete(t, id, now, listed, None).table, id, listed, None).table, NoOptions, None).value
  {
    SoftDeletion.HiddenUntilRestored(t, MemberMembershipColumns, id, now, listed, NoOptions);
  }
}
