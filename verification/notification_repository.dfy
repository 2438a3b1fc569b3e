/**
 * NotificationRepository (electron/repositories/NotificationRepository.js):
 * the soft-delete repository over notifications plus the read-flag
 * operations. Every query it builds forces its own equalities over the
 * caller's `where` object and keeps the caller's other columns and options.
 */
module NotificationRepository {
  import opened Wrappers
  import opened Query
  import opened BaseRepository
  import opened Entities
  import SoftDeletion

  /** The equalities `findUnread` forces. */
  const UNREAD: Where := map["isRead" := Bool(false), "deletedAt" := Null]

  /** A notification as `markAsRead` leaves it. */
  function MarkedRead(s: Stored<Notification>): (r: Stored<Notification>)
    ensures r.entity.isRead
    ensures r.deletedAt == s.deletedAt
    ensures r.entity.message == s.entity.message
    ensures r.entity.memberMembershipId == s.entity.memberMembershipId
  {
    s.(entity := s.entity.(isRead := true))
  }

  /** JavaScript truthiness of the optional `memberMembershipId` argument: `null` and `0` are falsy. */
  predicate Truthy(memberMembershipId: Option<int>) {
    memberMembershipId.Some? && memberMembershipId.value != 0
  }

  /** The `where` object `markAllAsRead` builds. */
  function MarkAllScope(memberMembershipId: Option<int>): (w: Where)
    ensures "isRead" in w && w["isRead"] == Bool(false)
    ensures "deletedAt" in w && w["deletedAt"] == Null
    ensures "memberMembershipId" in w <==> Truthy(memberMembershipId)
    ensures Truthy(memberMembershipId) ==> w["memberMembershipId"] == Int(memberMembershipId.value)
    ensures w.Keys <= {"isRead", "deletedAt", "memberMembershipId"}
  {
    if Truthy(memberMembershipId) then UNREAD["memberMembershipId" := Int(memberMembershipId.value)]
    else UNREAD
  }

  /** The rows `markAllAsRead(memberMembershipId)` is meant to touch. */
  predicate InMarkAllScope(s: Stored<Notification>, memberMembershipId: Option<int>) {
    && s.Active()
    && !s.entity.isRead
    && (Truthy(memberMembershipId) ==> s.entity.memberMembershipId == memberMembershipId.value)
  }

  lemma MarkAllScopeMatches(t: Table<Notification>, k: int, memberMembershipId: Option<int>)
    requires k in t
    ensures Matches(RowAt(t, NotificationColumns, k), MarkAllScope(memberMembershipId))
        <==> InMarkAllScope(t[k], memberMembershipId)
  {
    var row := RowAt(t, NotificationColumns, k);
    var w := MarkAllScope(memberMembershipId);
    assert row["isRead"] == Bool(t[k].entity.isRead);
    assert row["memberMembershipId"] == Int(t[k].entity.memberMembershipId);
    if InMarkAllScope(t[k], memberMembershipId) {
      forall c | c in w ensures c in row && row[c] == w[c] {
      }
    }
  }

  function FindActive(t: Table<Notification>, opts: Options, fault: Option<StorageError>)
    : (r: Outcome<Table<Notification>>)
    ensures fault.Some? ==> r == Thrown(fault.value)
    ensures fault.None? ==> r.Ok? && SoftDeletion.IsActiveSelection(t, NotificationColumns, opts, r.value)
  {
    SoftDeletion.FindActive(t, NotificationColumns, opts, fault)
  }

  /** The options `findUnread` hands to `findAll`. */
  function UnreadOptions(opts: Options): (r: Options)
    ensures "isRead" in WhereOf(r) && WhereOf(r)["isRead"] == Bool(false)
    ensures "deletedAt" in WhereOf(r) && WhereOf(r)["deletedAt"] == Null
    ensures forall c :: c !in UNREAD ==> (c in WhereOf(r) <==> c in WhereOf(opts))
    ensures forall c :: c !in UNREAD && c in WhereOf(opts) ==> WhereOf(r)[c] == WhereOf(opts)[c]
    ensures r.order == opts.order
  {
    Force(opts, UNREAD)
  }

  /**
   * `findUnread(options)`: the unread, non-deleted notifications that meet
   * the caller's other equalities; a caller's `isRead` or `deletedAt` is overridden.
   */
  function FindUnread(t: Table<Notification>, opts: Options, fault: Option<StorageError>)
    : (r: Outcome<Table<Notification>>)
    ensures fault.Some? ==> r == Thrown(fault.value)
    ensures fault.None? ==> r.Ok?
    ensures r.Ok? ==> forall k :: k in r.value <==>
      k in t && t[k].Active() && !t[k].entity.isRead
      && Matches(RowAt(t, NotificationColumns, k), WhereOf(opts) - UNREAD.Keys)
    ensures r.Ok? ==> forall k :: k in r.value ==> r.value[k] == t[k]
  {
    var r := FindAll(t, NotificationColumns, UnreadOptions(opts), fault);
    if fault.None? then
      forall k | k in t
        ensures Matches(RowAt(t, NotificationColumns, k), WhereOf(UnreadOptions(opts)))
            <==> t[k].Active() && !t[k].entity.isRead
                 && Matches(RowAt(t, NotificationColumns, k), WhereOf(opts) - UNREAD.Keys)
      {
        var row := RowAt(t, NotificationColumns, k);
        ForcedMatches(row, opts, UNREAD);
        assert row["isRead"] == Bool(t[k].entity.isRead);
        if t[k].Active() && !t[k].entity.isRead {
          forall c | c in UNREAD ensures c in row && row[c] == UNREAD[c] {
          }
        }
      }
      r
    else r
  }

  /**
   * `markAsRead(id)`: sets `isRead` on that key only; `[0, []]` when the key is
   * absent (the effect of the update by key, see `MarkAsReadIsUpdateById`).
   */
  function MarkAsRead(t: Table<Notification>, id: int, listed: bool, fault: Option<StorageError>)
    : (w: Written<UpdateResult<Notification>, Notification>)
    ensures fault.Some? ==> w.reply == Thrown(fault.value) && w.table == t
    ensures fault.None? ==> w.reply.Ok?
    ensures fault.None? ==> w.table == if id in t then t[id := MarkedRead(t[id])] else t
    ensures fault.None? ==> SoftDeletion.UpdatedByKey(t, id, w.table, listed, w.reply.value)
  {
    if fault.Some? then Written(Thrown(fault.value), t)
    else if id in t then
      Written(Ok(UpdateResult(1, if listed then map[id := MarkedRead(t[id])] else map[])), t[id := MarkedRead(t[id])])
    else Written(Ok(UpdateResult(0, map[])), t)
  }

  /** `markAsRead` is the repository's generic `update({ isRead: true }, { where: { id } })`. */
  lemma MarkAsReadIsUpdateById(t: Table<Notification>, id: int, listed: bool, fault: Option<StorageError>)
    ensures MarkAsRead(t, id, listed, fault)
      == Update(t, NotificationColumns, MarkedRead, SoftDeletion.ById(id), listed, fault)
  {
    if fault.None? {
      SoftDeletion.UpdateById(t, NotificationColumns, MarkedRead, id, listed);
    }
  }

  /**
   * `markAllAsRead(memberMembershipId = null)`: sets `isRead` on every unread,
   * non-deleted notification (of that membership when the argument is truthy)
   * and leaves every other row, soft-deleted unread ones included, as it was.
   */
  function MarkAllAsRead(t: Table<Notification>, memberMembershipId: Option<int>, listed: bool,
                         fault: Option<StorageError>)
    : (w: Written<UpdateResult<Notification>, Notification>)
    ensures fault.Some? ==> w.reply == Thrown(fault.value) && w.table == t
    ensures w.table.Keys == t.Keys
    ensures fault.None? ==> forall k :: k in t ==>
      w.table[k] == if InMarkAllScope(t[k], memberMembershipId) then MarkedRead(t[k]) else t[k]
    ensures fault.None? ==> w.reply.Ok?
    ensures w.reply.Ok? ==>
      w.reply.value.rowsUpdated == |set k | k in t && InMarkAllScope(t[k], memberMembershipId)|
    ensures w.reply.Ok? && listed ==>
      w.reply.value.records == map k | k in t && InMarkAllScope(t[k], memberMembershipId) :: MarkedRead(t[k])
    ensures w.reply.Ok? && !listed ==> w.reply.value.records == map[]
  {
    if fault.Some? then Written(Thrown(fault.value), t)
    else
      var s := MarkAllKeys(t, memberMembershipId);
      Written(Ok(UpdateResult(|s|, if listed then Listing(t, MarkedRead, s) else map[])), Rewrite(t, MarkedRead, s))
  }

  /** The keys of the rows `markAllAsRead` rewrites. */
  function MarkAllKeys(t: Table<Notification>, memberMembershipId: Option<int>): (s: set<int>)
    ensures forall k :: k in s <==> k in t && InMarkAllScope(t[k], memberMembershipId)
  {
    set k | k in t && InMarkAllScope(t[k], memberMembershipId)
  }

  /**
   * `markAllAsRead` is the repository's generic
   * `update({ isRead: true }, { where: scope })` with the scope `MarkAllScope` builds.
   */
  lemma MarkAllAsReadIsUpdate(t: Table<Notification>, memberMembershipId: Option<int>, listed: bool,
                              fault: Option<StorageError>)
    ensures MarkAllAsRead(t, memberMembershipId, listed, fault)
      == Update(t, NotificationColumns, MarkedRead, MarkAllOptions(memberMembershipId), listed, fault)
  {
    if fault.None? {
      MarkAllSelected(t, memberMembershipId);
      UpdateSelected(t, NotificationColumns, MarkedRead, MarkAllOptions(memberMembershipId), listed,
                     MarkAllKeys(t, memberMembershipId));
    }
  }

  /** The options `markAllAsRead` hands to `update`. */
  function MarkAllOptions(memberMembershipId: Option<int>): (r: Options)
    ensures WhereOf(r) == MarkAllScope(memberMembershipId)
  {
    Options(Some(MarkAllScope(memberMembershipId)), [], false)
  }

  /** The rows `markAllAsRead`'s `where` selects are exactly those in its scope. */
  lemma MarkAllSelected(t: Table<Notification>, memberMembershipId: Option<int>)
    ensures Selected(t, NotificationColumns, WhereOf(MarkAllOptions(memberMembershipId)))
      == MarkAllKeys(t, memberMembershipId)
  {
    var opts := MarkAllOptions(memberMembershipId);
    forall k | k in t
      ensures k in Selected(t, NotificationColumns, WhereOf(opts)) <==> InMarkAllScope(t[k], memberMembershipId)
    {
      MarkAllScopeMatches(t, k, memberMembershipId);
    }
  }

  /** A second `markAllAsRead` with the same argument finds nothing left to update. */
  lemma MarkAllAsReadTwice(t: Table<Notification>, memberMembershipId: Option<int>, listed: bool)
    ensures var t1 := MarkAllAsRead(t, memberMembershipId, listed, None).table;
      && MarkAllAsRead(t1, memberMembershipId, listed, None).reply == Ok(UpdateResult(0, map[]))
      && MarkAllAsRead(t1, memberMembershipId, listed, None).table == t1
  {
    var t1 := MarkAllAsRead(t, memberMembershipId, listed, None).table;
    var w := MarkAllAsRead(t1, memberMembershipId, listed, None);
    forall k | k in t1 ensures !InMarkAllScope(t1[k], memberMembershipId) {
    }
    assert MarkAllKeys(t1, memberMembershipId) == {};
    assert w.table == t1;
  }

  /** The options `findByMemberMembership` hands to `findAll`. */
  function ByMembershipOptions(memberMembershipId: int, opts: Options): (r: Options)
    ensures "memberMembershipId" in WhereOf(r) && WhereOf(r)["memberMembershipId"] == Int(memberMembershipId)
    ensures "deletedAt" in WhereOf(r) && WhereOf(r)["deletedAt"] == Null
    ensures forall c :: c != "memberMembershipId" && c != "deletedAt" ==>
      (c in WhereOf(r) <==> c in WhereOf(opts))
    ensures forall c :: c != "memberMembershipId" && c != "deletedAt" && c in WhereOf(opts) ==>
      WhereOf(r)[c] == WhereOf(opts)[c]
    ensures r.order == opts.order
  {
    Force(opts, map["memberMembershipId" := Int(memberMembershipId), "deletedAt" := Null])
  }

  /**
   * `findByMemberMembership(id, options)`: the non-deleted notifications of
   * that membership meeting the caller's other equalities.
   */
  function FindByMemberMembership(t: Table<Notification>, memberMembershipId: int, opts: Options,
                                  fault: Option<StorageError>): (r: Outcome<Table<Notification>>)
    ensures fault.Some? ==> r == Thrown(fault.value)
    ensures fault.None? ==> r.Ok?
    ensures r.Ok? ==> forall k :: k in r.value <==>
      k in t && t[k].Active() && t[k].entity.memberMembershipId == memberMembershipId
      && Matches(RowAt(t, NotificationColumns, k), WhereOf(opts) - {"memberMembershipId", "deletedAt"})
    ensures r.Ok? ==> forall k :: k in r.value ==> r.value[k] == t[k]
  {
    var forced: Where := map["memberMembershipId" := Int(memberMembershipId), "deletedAt" := Null];
    var r := FindAll(t, NotificationColumns, ByMembershipOptions(memberMembershipId, opts), fault);
    if fault.None? then
      forall k | k in t
        ensures Matches(RowAt(t, NotificationColumns, k), WhereOf(ByMembershipOptions(memberMembershipId, opts)))
            <==> t[k].Active() && t[k].entity.memberMembershipId == memberMembershipId
                 && Matches(RowAt(t, NotificationColumns, k), WhereOf(opts) - {"memberMembershipId", "deletedAt"})
      {
        var row := RowAt(t, NotificationColumns, k);
        ForcedMatches(row, opts, forced);
        assert forced.Keys == {"memberMembershipId", "deletedAt"};
        assert row["memberMembershipId"] == Int(t[k].entity.memberMembershipId);
        if t[k].Active() && t[k].entity.memberMembershipId == memberMembershipId {
          forall c | c in forced ensures c in row && row[c] == forced[c] {
          }
        }
      }
      r
    else r
  }

  function SoftDelete(t: Table<Notification>, id: int, now: int, listed: bool, fault: Option<StorageError>)
    : (w: Written<UpdateResult<Notification>, Notification>)
    ensures fault.Some? ==> w.reply == Thrown(fault.value) && w.table == t
    ensures fault.None? ==> w.reply.Ok? && SoftDeletion.StampedOnly(t, id, Some(now), w.table)
    ensures fault.None? ==> SoftDeletion.UpdatedByKey(t, id, w.table, listed, w.reply.value)
  {
    SoftDeletion.SoftDelete(t, NotificationColumns, id, now, listed, fault)
  }

  function Restore(t: Table<Notification>, id: int, listed: bool, fault: Option<StorageError>)
    : (w: Written<UpdateResult<Notification>, Notification>)
    ensures fault.Some? ==> w.reply == Thrown(fault.value) && w.table == t
    ensures fault.None? ==> w.reply.Ok? && SoftDeletion.StampedOnly(t, id, None, w.table)
    ensures fault.None? ==> SoftDeletion.UpdatedByKey(t, id, w.table, listed, w.reply.value)
  {
    SoftDeletion.Restore(t, NotificationColumns, id, listed, fault)
  }

  /** Restoring right after a soft delete leaves the notification active and otherwise unchanged. */
  lemma RestoreAfterSoftDelete(t: Table<Notification>, id: int, now: int, listed: bool)
    requires id in t
    ensures var t' := Restore(SoftDelete(t, id, now, listed, None).table, id, listed, None).table;
      t'[id].Active() && t'[id].entity == t[id].entity
      && forall k :: k in t && k != id ==> k in t' && t'[k] == t[k]
  {
    SoftDeletion.RestoreAfterSoftDelete(t, NotificationColumns, id, now, listed);
  }
}
