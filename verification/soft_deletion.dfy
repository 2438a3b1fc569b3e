/**
 * The soft-delete convention shared by the Member, Membership,
 * MemberMembership and Notification repositories: `findActive` forces
 * `deletedAt = null` into the caller's query, `softDelete` stamps `deletedAt`
 * on one key and `restore` clears it again. Each repository module
 * instantiates these with its own entity columns.
 */
module SoftDeletion {
  import opened Wrappers
  import opened Query
  import opened BaseRepository

  /** The equality `findActive` forces: `deletedAt IS NULL`. */
  const NOT_DELETED: Where := map["deletedAt" := Null]

  /** The options selecting one primary key. */
  function ById(id: int): (opts: Options)
    ensures WhereOf(opts) == map["id" := Int(id)]
  {
    Options(Some(map["id" := Int(id)]), [], false)
  }

  /** The options `findActive` hands to `findAll`. */
  function ActiveOptions(opts: Options): (r: Options)
    ensures "deletedAt" in WhereOf(r) && WhereOf(r)["deletedAt"] == Null
    ensures forall c :: c != "deletedAt" ==> (c in WhereOf(r) <==> c in WhereOf(opts))
    ensures forall c :: c != "deletedAt" && c in WhereOf(opts) ==> WhereOf(r)[c] == WhereOf(opts)[c]
    ensures r.order == opts.order
  {
    Force(opts, NOT_DELETED)
  }

  /**
   * `found` is what `findActive(opts)` must return on `t`: exactly the rows
   * that are not soft-deleted and satisfy the caller's equalities on every
   * column other than `deletedAt`.
   */
  ghost predicate IsActiveSelection<E>(t: Table<E>, cols: E -> Row, opts: Options, found: Table<E>) {
    && (forall k :: k in found <==>
          k in t && t[k].Active() && Matches(RowAt(t, cols, k), WhereOf(opts) - {"deletedAt"}))
    && (forall k :: k in found ==> found[k] == t[k])
  }

  /** `t'` is `t` with only the `deletedAt` of key `id` set to `stamp` (no change if `id` is absent). */
  ghost predicate StampedOnly<E>(t: Table<E>, id: int, stamp: Option<int>, t': Table<E>) {
    t' == if id in t then t[id := Stored(t[id].entity, stamp)] else t
  }

  /**
   * The `[rowsUpdated, records]` reply of an update by key: one row if the key
   * exists, none otherwise; the records hold the updated row when the ORM lists
   * it and are empty otherwise.
   */
  ghost predicate UpdatedByKey<E>(t: Table<E>, id: int, t': Table<E>, listed: bool, reply: UpdateResult<E>) {
    && reply.rowsUpdated == (if id in t then 1 else 0)
    && (id in t <==> id in t')
    && reply.records == (if listed && id in t' then map[id := t'[id]] else map[])
  }

  function FindActive<E>(t: Table<E>, cols: E -> Row, opts: Options, fault: Option<StorageError>)
    : (r: Outcome<Table<E>>)
    ensures fault.Some? ==> r == Thrown(fault.value)
    ensures fault.None? ==> r.Ok? && IsActiveSelection(t, cols, opts, r.value)
  {
    var r := FindAll(t, cols, ActiveOptions(opts), fault);
    if fault.None? then
      forall k | k in t
        ensures Matches(RowAt(t, cols, k), WhereOf(ActiveOptions(opts)))
            <==> t[k].Active() && Matches(RowAt(t, cols, k), WhereOf(opts) - {"deletedAt"})
      {
        ForcedMatches(RowAt(t, cols, k), opts, NOT_DELETED);
      }
      r
    else r
  }

  /**
   * An `update` with `{ where: { id } }` patches that key alone and reports it,
   * or reports `[0, []]` and changes nothing when the key is absent.
   */
  lemma UpdateById<E>(t: Table<E>, cols: E -> Row, patch: Stored<E> -> Stored<E>, id: int, listed: bool)
    ensures Update(t, cols, patch, ById(id), listed, None)
      == if id in t then
           Written(Ok(UpdateResult(1, if listed then map[id := patch(t[id])] else map[])), t[id := patch(t[id])])
         else Written(Ok(UpdateResult(0, map[])), t)
  {
    SelectById(t, cols, id);
    if id in t {
      UpdateOne(t, cols, patch, ById(id), listed, id);
    } else {
      UpdateNothingSelected(t, cols, patch, ById(id), listed);
    }
  }

  /** The patch `update({ deletedAt: stamp })` applies to the row it selects. */
  function Stamp<E>(stamp: Option<int>): Stored<E> -> Stored<E> {
    (s: Stored<E>) => s.(deletedAt := stamp)
  }

  /**
   * Sets `deletedAt` to `stamp` on key `id`: the effect of
   * `update({ deletedAt: stamp }, { where: { id } })` (see `StampIsUpdateById`).
   */
  function StampById<E>(t: Table<E>, cols: E -> Row, id: int, stamp: Option<int>, listed: bool,
                        fault: Option<StorageError>): (w: Written<UpdateResult<E>, E>)
    ensures fault.Some? ==> w.reply == Thrown(fault.value) && w.table == t
    ensures fault.None? ==> w.reply.Ok? && StampedOnly(t, id, stamp, w.table)
    ensures fault.None? ==> UpdatedByKey(t, id, w.table, listed, w.reply.value)
  {
    if fault.Some? then Written(Thrown(fault.value), t)
    else if id in t then
      var s := Stored(t[id].entity, stamp);
      Written(Ok(UpdateResult(1, if listed then map[id := s] else map[])), t[id := s])
    else Written(Ok(UpdateResult(0, map[])), t)
  }

  /** Stamping a key is the repository's generic `update` restricted by `{ where: { id } }`. */
  lemma StampIsUpdateById<E>(t: Table<E>, cols: E -> Row, id: int, stamp: Option<int>, listed: bool,
                             fault: Option<StorageError>)
    ensures StampById(t, cols, id, stamp, listed, fault) == Update(t, cols, Stamp(stamp), ById(id), listed, fault)
  {
    if fault.None? {
      UpdateById(t, cols, Stamp(stamp), id, listed);
    }
  }

  /** `softDelete(id)`: `update({ deletedAt: now }, { where: { id } })`. */
  function SoftDelete<E>(t: Table<E>, cols: E -> Row, id: int, now: int, listed: bool, fault: Option<StorageError>)
    : (w: Written<UpdateResult<E>, E>)
    ensures fault.Some? ==> w.reply == Thrown(fault.value) && w.table == t
    ensures fault.None? ==> w.reply.Ok? && StampedOnly(t, id, Some(now), w.table)
    ensures fault.None? ==> UpdatedByKey(t, id, w.table, listed, w.reply.value)
  {
    StampById(t, cols, id, Some(now), listed, fault)
  }

  /** `restore(id)`: `update({ deletedAt: null }, { where: { id } })`. */
  function Restore<E>(t: Table<E>, cols: E -> Row, id: int, listed: bool, fault: Option<StorageError>)
    : (w: Written<UpdateResult<E>, E>)
    ensures fault.Some? ==> w.reply == Thrown(fault.value) && w.table == t
    ensures fault.None? ==> w.reply.Ok? && StampedOnly(t, id, None, w.table)
    ensures fault.None? ==> UpdatedByKey(t, id, w.table, listed, w.reply.value)
  {
    StampById(t, cols, id, None, listed, fault)
  }

  /**
   * Restoring right after a soft delete brings the row back exactly as it was
   * apart from `deletedAt`, which is null; a row that was active comes back
   * unchanged.
   */
  lemma RestoreAfterSoftDelete<E>(t: Table<E>, cols: E -> Row, id: int, now: int, listed: bool)
    ensures var t' := Restore(SoftDelete(t, cols, id, now, listed, None).table, cols, id, listed, None).table;
      && StampedOnly(t, id, None, t')
      && (id in t ==> t'[id].Active())
      && (id in t && t[id].Active() ==> t' == t)
  {
    var t1 := SoftDelete(t, cols, id, now, listed, None).table;
    var t2 := Restore(t1, cols, id, listed, None).table;
    if id in t {
      assert t2 == t[id := Stored(t[id].entity, None)];
      if t[id].Active() {
        assert t[id] == Stored(t[id].entity, None);
      }
    }
  }

  /**
   * A soft-deleted row is hidden from every `findActive` query, and once
   * restored it is returned again by any query whose other equalities it meets.
   */
  lemma HiddenUntilRestored<E>(t: Table<E>, cols: E -> Row, id: int, now: int, listed: bool, opts: Options)
    requires id in t
    ensures id !in FindActive(SoftDelete(t, cols, id, now, listed, None).table, cols, opts, None).value
    ensures var t' := Restore(SoftDelete(t, cols, id, now, listed, None).table, cols, id, listed, None).table;
      (Matches(RowAt(t', cols, id), WhereOf(opts) - {"deletedAt"})
       ==> id in FindActive(t', cols, opts, None).value)
  {
  }
}
