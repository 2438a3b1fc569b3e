/** MembershipRepository (electron/repositories/MembershipRepository.js): the soft-delete repository over membership plans. */
module MembershipRepository {
  import opened Wrappers
  import opened Query
  import opened BaseRepository
  import opened Entities
  import SoftDeletion

  /** `findActive(options)`: the caller's query with `deletedAt = null` forced in. */
  function FindActive(t: Table<Plan>, opts: Options, fault: Option<StorageError>): (r: Outcome<Table<Plan>>)
    ensures fault.Some? ==> r == Thrown(fault.value)
    ensures fault.None? ==> r.Ok? && SoftDeletion.IsActiveSelection(t, PlanColumns, opts, r.value)
  {
    SoftDeletion.FindActive(t, PlanColumns, opts, fault)
  }

  /** `softDelete(id)`: stamps `deletedAt` with `now` on that key only. */
  function SoftDelete(t: Table<Plan>, id: int, now: int, listed: bool, fault: Option<StorageError>)
    : (w: Written<UpdateResult<Plan>, Plan>)
    ensures fault.Some? ==> w.reply == Thrown(fault.value) && w.table == t
    ensures fault.None? ==> w.reply.Ok? && SoftDeletion.StampedOnly(t, id, Some(now), w.table)
    ensures fault.None? ==> SoftDeletion.UpdatedByKey(t, id, w.table, listed, w.reply.value)
  {
    SoftDeletion.SoftDelete(t, PlanColumns, id, now, listed, fault)
  }

  /** `restore(id)`: clears `deletedAt` on that key only. */
  function Restore(t: Table<Plan>, id: int, listed: bool, fault: Option<StorageError>)
    : (w: Written<UpdateResult<Plan>, Plan>)
    ensures fault.Some? ==> w.reply == Thrown(fault.value) && w.table == t
    ensures fault.None? ==> w.reply.Ok? && SoftDeletion.StampedOnly(t, id, None, w.table)
    ensures fault.None? ==> SoftDeletion.UpdatedByKey(t, id, w.table, listed, w.reply.value)
  {
    SoftDeletion.Restore(t, PlanColumns, id, listed, fault)
  }

  /** A soft-deleted plan is left out of every `findActive` query. */
  lemma SoftDeletedPlanHidden(t: Table<Plan>, id: int, now: int, listed: bool, opts: Options)
    requires id in t
    ensures id !in FindActive(SoftDelete(t, id, now, listed, None).table, opts, None).value
  {
    var t1 := SoftDelete(t, id, now, listed, None).table;
    assert !t1[id].Active();
  }

  /** Once restored, a soft-deleted plan is found again by a `findActive` query on its `type`. */
  lemma RestoredPlanFoundByType(t: Table<Plan>, id: int, now: int, listed: bool)
    requires id in t
    ensures var opts := Options(Some(map["type" := Text(PlanKindName(t[id].entity.kind))]), [], false);
      id in FindActive(Restore(SoftDelete(t, id, now, listed, None).table, id, listed, None).table, opts, None).value
  {
    var e := t[id].entity;
    var t1 := SoftDelete(t, id, now, listed, None).table;
    assert t1 == t[id := Stored(e, Some(now))];
    var t' := Restore(t1, id, listed, None).table;
    assert t' == t1[id := Stored(e, None)];
    var w: Where := map["type" := Text(PlanKindName(e.kind))];
    var row := RowAt(t', PlanColumns, id);
    assert row["type"] == w["type"];
    assert Matches(row, w - {"deletedAt"});
    SoftDeletion.HiddenUntilRestored(t, PlanColumns, id, now, listed, Options(Some(w), [], false));
  }
}
