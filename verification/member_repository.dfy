/** MemberRepository (electron/repositories/MemberRepository.js): the soft-delete repository over members. */
module MemberRepository {
  import opened Wrappers
  import opened Query
  import opened BaseRepository
  import opened Entities
  import SoftDeletion

  /** `findActive(options)`: the caller's query with `deletedAt = null` forced in. */
  function FindActive(t: Table<Member>, opts: Options, fault: Option<StorageError>): (r: Outcome<Table<Member>>)
    ensures fault.Some? ==> r == Thrown(fault.value)
    ensures fault.None? ==> r.Ok? && SoftDeletion.IsActiveSelection(t, MemberColumns, opts, r.value)
  {
    SoftDeletion.FindActive(t, MemberColumns, opts, fault)
  }

  /** `softDelete(id)`: stamps `deletedAt` with `now` on that key only. */
  function SoftDelete(t: Table<Member>, id: int, now: int, listed: bool, fault: Option<StorageError>)
    : (w: Written<UpdateResult<Member>, Member>)
    ensures fault.Some? ==> w.reply == Thrown(fault.value) && w.table == t
    ensures fault.None? ==> w.reply.Ok? && SoftDeletion.StampedOnly(t, id, Some(now), w.table)
    ensures fault.None? ==> SoftDeletion.UpdatedByKey(t, id, w.table, listed, w.reply.value)
  {
    SoftDeletion.SoftDelete(t, MemberColumns, id, now, listed, fault)
  }

  /** `restore(id)`: clears `deletedAt` on that key only. */
  function Restore(t: Table<Member>, id: int, listed: bool, fault: Option<StorageError>)
    : (w: Written<UpdateResult<Member>, Member>)
    ensures fault.Some? ==> w.reply == Thrown(fault.value) && w.table == t
    ensures fault.None? ==> w.reply.Ok? && SoftDeletion.StampedOnly(t, id, None, w.table)
    ensures fault.None? ==> SoftDeletion.UpdatedByKey(t, id, w.table, listed, w.reply.value)
  {
    SoftDeletion.Restore(t, MemberColumns, id, listed, fault)
  }

  /** A soft delete or restore of a key that does not exist changes nothing and reports `[0, []]`. */
  lemma MissingKeyUpdatesNothing(t: Table<Member>, id: int, now: int, listed: bool)
    requires id !in t
    ensures SoftDelete(t, id, now, listed, None) == Written(Ok(UpdateResult(0, map[])), t)
    ensures Restore(t, id, listed, None) == Written(Ok(UpdateResult(0, map[])), t)
  {
  }
}
