# member-tracker core in Dafny

A functional model of the business logic of the member-tracker gym
application (an Electron + Sequelize + SQLite desktop program). The model has
three parts:

- **The store and its repositories.** Each table is a map from primary key to
  a stored entity together with its `deletedAt` stamp (`BaseRepository.Table`).
  `where` objects are maps from column to value, and a row matches when every
  listed column is equal (`Query.Matches`). On top of this sit the
  `BaseRepository` operations (`create`, `findAll`, `findOne`, `findById`,
  `update`, `destroy`) and the abstract-class guard. The shared soft-delete
  convention (`SoftDeletion`) is instantiated by the Member, Membership
  (plan), MemberMembership and Notification repositories. The Notification
  repository adds `findUnread`, `markAsRead`, `markAllAsRead` and
  `findByMemberMembership`.
- **The training-session ledger** (`Ledger`). `subtractTraining` and
  `addTraining` move a membership's remaining session count by one and
  append a training log entry. `getTrainingLogs` lists one membership's log,
  newest first. `Ledger.Valid` states the invariant the operations keep:
  `0 <= remaining <= total`, both counts present or both absent, and every
  log entry attached to a stored membership.
- **The IPC handlers and the expiry pass.** `MemberMembershipHandlers.Enrich`
  snapshots the plan's session count on create. The read handlers turn a
  rejection into an empty list. The expiry pass
  (`NotificationService.CheckExpiredMembershipsAndCreateNotifications`)
  selects non-deleted memberships that are past their end date or out of
  sessions. It writes one unread notification for each one that has none
  yet and reports the two counts.

Two of the modelled behaviours exist in the repository only in test
doubles, and the model follows those doubles:

- The ledger operations are modelled from the class in
  `electron/repositories/__tests__/MemberMembershipRepository.spec.js`. The
  shipped `electron/repositories/MemberMembershipRepository.js` defines
  only `findActive`, `softDelete` and `restore`.
- The create enrichment follows
  `electron/ipc/__tests__/memberMembershipHandlers.spec.js`. The shipped
  `electron/ipc/memberMembershipHandlers.js` passes `data` to `create`
  unchanged.

Conventions:

- **Time.** Dates stored as DATEONLY are day numbers. `deletedAt` and `usedAt`
  are millisecond timestamps, and the current time `now` is a parameter.
- **Update replies.** Whether the ORM answers an `update` with the updated
  rows as a list is a parameter (`listed`) of every updating operation; when
  it does not, the reply's records are empty.
- **Errors.** A rejected database call is an `Outcome.Thrown` carrying the
  error unchanged. Each repository operation takes an optional `fault` to
  make its call reject, and the state is then unchanged.

## Model

| member | source | states |
|---|---|---|
| Query.Force | electron/repositories/NotificationRepository.js:28-37 | the merged `where` carries every forced key with the forced value (forced values override the caller's) and keeps every other caller key and value; order and `returning` pass through |
| Query.ForcedMatches | electron/repositories/NotificationRepository.js:17-37 | a row matches the merged `where` iff it matches the forced equalities and the caller's remaining ones |
| Query.ForceIdempotent | electron/repositories/NotificationRepository.js:17-25 | forcing the same keys twice gives the same query as forcing them once |
| BaseRepository.Construct | electron/repositories/BaseRepository.js:6-11 | constructing throws exactly for the abstract base itself, with the abstract-class message; a subclass constructs |
| BaseRepository.Create | electron/repositories/BaseRepository.js:18-26 | the record is stored under a fresh key, active, with nothing else changed, and returned; a failure is rethrown with the table unchanged |
| BaseRepository.FindAll | electron/repositories/BaseRepository.js:33-41 | returns exactly the rows matching every `where` equality, as stored; a failure is rethrown |
| BaseRepository.FindOne | electron/repositories/BaseRepository.js:48-56 | null iff no row matches; otherwise a matching row (the lowest key) as stored |
| BaseRepository.FindById | electron/repositories/BaseRepository.js:63-71 | null iff the key is absent, otherwise the stored row, soft-deleted or not |
| BaseRepository.UpdateOptions | electron/repositories/BaseRepository.js:81-84 | the caller's options with `returning` set and `where`/order unchanged |
| BaseRepository.ShapeUpdate | electron/repositories/BaseRepository.js:86-91 | the reply is `[rowsUpdated, records]`, with records replaced by none when the ORM returns no array |
| BaseRepository.Update | electron/repositories/BaseRepository.js:79-96 | matching rows are patched, all other rows and the key set are unchanged, and the count is the number matched; the records are the patched rows when the ORM lists them and empty when its second element is not a list; a failure is rethrown with the table unchanged |
| BaseRepository.UpdateSelected | electron/repositories/BaseRepository.js:79-96 | once the selected keys are known, an update rewrites exactly those rows, counts them, and lists them rewritten when the ORM returns a list |
| BaseRepository.UpdateNothingSelected | electron/repositories/BaseRepository.js:79-96 | an update that matches nothing reports `[0, []]` and changes nothing |
| BaseRepository.Destroy | electron/repositories/BaseRepository.js:103-111 | returns `{count}` equal to the number of matching rows (0 included) and removes exactly those |
| BaseRepository.NextKey | electron/models/MemberMembership.js:8-12 | an auto-increment key is positive, unused and above every key in use |
| SoftDeletion.ActiveOptions | electron/repositories/MemberMembershipRepository.js:17-25 | `deletedAt = null` is forced, every other caller key and the order are kept |
| SoftDeletion.FindActive | electron/repositories/MemberMembershipRepository.js:17-25 | returns exactly the non-deleted rows satisfying the caller's other equalities, whatever `deletedAt` the caller asked for |
| SoftDeletion.SoftDelete | electron/repositories/MemberMembershipRepository.js:28-33 | stamps `deletedAt = now` on that key only; reports one row (and that row when the ORM lists it), or `[0, []]` for a missing key |
| SoftDeletion.Restore | electron/repositories/MemberMembershipRepository.js:36-41 | clears `deletedAt` on that key only; reports one row (and that row when the ORM lists it), or `[0, []]` for a missing key |
| SoftDeletion.StampIsUpdateById | electron/repositories/MemberMembershipRepository.js:28-41 | soft delete and restore are the generic `update` of `deletedAt` restricted to `{ where: { id } }`, faults included |
| SoftDeletion.RestoreAfterSoftDelete | electron/repositories/MemberMembershipRepository.js:28-41 | restore after soft delete leaves the row active with its entity unchanged, and an active row comes back exactly as it was |
| SoftDeletion.HiddenUntilRestored | electron/repositories/MembershipRepository.js:17-41 | a soft-deleted row is hidden from every `findActive` query and is found again after restore by any query its columns satisfy |
| MemberRepository.FindActive | electron/repositories/MemberRepository.js:17-25 | the active-selection property on members |
| MemberRepository.SoftDelete | electron/repositories/MemberRepository.js:28-33 | stamps that member only and reports the rows touched |
| MemberRepository.Restore | electron/repositories/MemberRepository.js:36-41 | clears that member's stamp only and reports the rows touched |
| MemberRepository.MissingKeyUpdatesNothing | electron/repositories/MemberRepository.js:28-41 | soft delete and restore of a missing key report `[0, []]` and change nothing |
| MembershipRepository.FindActive | electron/repositories/MembershipRepository.js:17-25 | the active-selection property on plans, including the caller's `type` equality |
| MembershipRepository.SoftDelete | electron/repositories/MembershipRepository.js:28-33 | stamps that plan only |
| MembershipRepository.Restore | electron/repositories/MembershipRepository.js:36-41 | clears that plan's stamp only |
| MembershipRepository.SoftDeletedPlanHidden | electron/repositories/MembershipRepository.js:17-33 | a soft-deleted plan is absent from every `findActive` result |
| MembershipRepository.RestoredPlanFoundByType | electron/repositories/MembershipRepository.js:17-41 | after soft delete and restore, a `findActive` on the plan's own `type` returns it again |
| MemberMembershipRepository.FindActive | electron/repositories/MemberMembershipRepository.js:17-25 | the active-selection property on member memberships |
| MemberMembershipRepository.SoftDelete | electron/repositories/MemberMembershipRepository.js:28-33 | stamps that membership only |
| MemberMembershipRepository.Restore | electron/repositories/MemberMembershipRepository.js:36-41 | clears that membership's stamp only |
| MemberMembershipRepository.RestoreMakesActive | electron/repositories/MemberMembershipRepository.js:28-41 | restore after soft delete makes the membership visible to `findActive` again |
| NotificationRepository.MarkedRead | electron/repositories/NotificationRepository.js:40-45 | marking read sets `isRead` and keeps message, membership and `deletedAt` |
| NotificationRepository.MarkAllScope | electron/repositories/NotificationRepository.js:48-52 | the scope forces unread and not deleted, and adds the membership only for a truthy argument (not null, not 0) |
| NotificationRepository.MarkAllScopeMatches | electron/repositories/NotificationRepository.js:48-58 | a row matches that scope iff it is active, unread and (for a truthy argument) of that membership |
| NotificationRepository.FindActive | electron/repositories/NotificationRepository.js:17-25 | the active-selection property on notifications |
| NotificationRepository.UnreadOptions | electron/repositories/NotificationRepository.js:28-37 | `isRead = false` and `deletedAt = null` are forced, overriding the caller; other keys and order are kept |
| NotificationRepository.FindUnread | electron/repositories/NotificationRepository.js:28-37 | returns exactly the active unread rows matching the caller's other equalities |
| NotificationRepository.MarkAsRead | electron/repositories/NotificationRepository.js:40-45 | marks exactly that notification read; reports one row (and that row when the ORM lists it), or `[0, []]` when absent |
| NotificationRepository.MarkAsReadIsUpdateById | electron/repositories/NotificationRepository.js:40-45 | `markAsRead` is the generic `update({ isRead: true })` restricted to `{ where: { id } }`, faults included |
| NotificationRepository.MarkAllAsRead | electron/repositories/NotificationRepository.js:48-58 | marks read exactly the rows in scope (soft-deleted unread rows stay unread) and reports their number; the records are exactly those rows as marked when the ORM lists them, and empty otherwise |
| NotificationRepository.MarkAllAsReadIsUpdate | electron/repositories/NotificationRepository.js:48-58 | `markAllAsRead` is the generic `update({ isRead: true })` with the `where` `MarkAllScope` builds, faults included |
| NotificationRepository.MarkAllAsReadTwice | electron/repositories/NotificationRepository.js:48-58 | a second `markAllAsRead` with the same argument updates 0 rows and changes nothing |
| NotificationRepository.ByMembershipOptions | electron/repositories/NotificationRepository.js:61-70 | the membership id and `deletedAt = null` are forced, other keys and the order pass through |
| NotificationRepository.FindByMemberMembership | electron/repositories/NotificationRepository.js:61-70 | returns exactly the active rows of that membership matching the caller's other equalities |
| NotificationRepository.SoftDelete | electron/repositories/NotificationRepository.js:73-78 | stamps that notification only |
| NotificationRepository.Restore | electron/repositories/NotificationRepository.js:81-86 | clears that notification's stamp only |
| NotificationRepository.RestoreAfterSoftDelete | electron/repositories/NotificationRepository.js:73-86 | restore after soft delete leaves the notification active, with its content and every other row unchanged |
| Ledger.WithRemaining | electron/repositories/__tests__/MemberMembershipRepository.spec.js:83-87 | the session update sets the remaining count and leaves every other field of the membership, and its soft-delete stamp, unchanged |
| Ledger.RecordIsUpdateById | electron/repositories/__tests__/MemberMembershipRepository.spec.js:83-87 | the remaining-count write is the repository's update by primary key: it reports one row (the patched membership when the ORM lists it) and rewrites that row alone |
| Ledger.SubtractTraining | electron/repositories/__tests__/MemberMembershipRepository.spec.js:68-100 | unknown id: refused with nothing changed; untracked: success message with nothing changed; no sessions left: refused with nothing changed; otherwise remaining − 1 on that id only, total kept, one `subtract` entry appended, new counts reported |
| Ledger.AddTraining | electron/repositories/__tests__/MemberMembershipRepository.spec.js:102-134 | unknown id, either count null, or remaining ≥ total: refused with nothing changed; otherwise remaining + 1 on that id only and one `add` entry appended |
| Ledger.ChangesOnlyWhenCounted | electron/repositories/__tests__/MemberMembershipRepository.spec.js:68-134 | each operation changes the ledger iff it reports new counts, and then the log grows by exactly one |
| Ledger.SubtractPreservesValid | electron/repositories/__tests__/MemberMembershipRepository.spec.js:79-81 | subtract keeps `0 <= remaining <= total` and every log entry attached |
| Ledger.AddPreservesValid | electron/repositories/__tests__/MemberMembershipRepository.spec.js:113-115 | add keeps `0 <= remaining <= total` and every log entry attached |
| Ledger.RunPreservesValid | electron/repositories/__tests__/MemberMembershipRepository.spec.js:68-134 | the invariant holds after any sequence of subtract and add requests |
| Ledger.SubtractThenAdd | electron/repositories/__tests__/MemberMembershipRepository.spec.js:83-133 | a successful subtract followed by add restores the original counts and memberships, with log entries `subtract` then `add` |
| Ledger.SubtractedFacts | electron/repositories/__tests__/MemberMembershipRepository.spec.js:79-99 | a subtract that reports new counts had a positive remaining count, lowered it by one and appended its log entry |
| Ledger.AddedFacts | electron/repositories/__tests__/MemberMembershipRepository.spec.js:113-133 | an add on a membership below its total raises the count by one and appends its log entry |
| Ledger.UntrackedAsymmetry | electron/repositories/__tests__/MemberMembershipRepository.spec.js:75-111 | on an untracked membership subtract reports success and add reports failure, and neither changes anything |
| Ledger.LogsOf | electron/repositories/__tests__/MemberMembershipRepository.spec.js:136-142 | every entry of that membership occurs exactly as often as it was logged, no other entry occurs, and the result is empty iff no entry refers to the membership |
| Ledger.Insert | electron/repositories/__tests__/MemberMembershipRepository.spec.js:139 | inserting into a newest-first list keeps it newest first and adds exactly that entry |
| Ledger.HeadFirst | electron/repositories/__tests__/MemberMembershipRepository.spec.js:139 | an entry at least as new as the head can be put in front of a newest-first list |
| Ledger.SortNewestFirst | electron/repositories/__tests__/MemberMembershipRepository.spec.js:139 | the result is ordered by `usedAt` descending and is a permutation of the input |
| Ledger.GetTrainingLogs | electron/repositories/__tests__/MemberMembershipRepository.spec.js:136-142 | returns exactly that membership's log entries (as a multiset) ordered by `usedAt` descending; a failure is rethrown |
| MemberMembershipHandlers.Enrich | electron/ipc/__tests__/memberMembershipHandlers.spec.js:37-43 | the input fields pass through; both counts equal the plan's `trainings` (0 stays 0) and are null for a missing or time-based plan |
| MemberMembershipHandlers.CreateHandler | electron/ipc/__tests__/memberMembershipHandlers.spec.js:37-45 | the enriched record is created under a fresh key using the plan looked up by id; a failure of either call is passed on with nothing written |
| MemberMembershipHandlers.CreatedCounts | electron/ipc/__tests__/memberMembershipHandlers.spec.js:145-186 | right after create the two counts are equal, the plan's count when it has one and null when the plan is missing |
| MemberMembershipHandlers.CreatePreservesValid | electron/ipc/__tests__/memberMembershipHandlers.spec.js:37-45 | create from a plan with a non-negative count keeps the ledger invariant, and the new membership has no log entries |
| MemberMembershipHandlers.ZeroPlanIsExhausted | electron/ipc/__tests__/memberMembershipHandlers.spec.js:41-42 | a membership created from a zero-session plan is tracked, and a subtract on it is refused with no change |
| MemberMembershipHandlers.SubtractHandler | electron/ipc/__tests__/memberMembershipHandlers.spec.js:47-49 | every reply without new counts (a refusal, or the untracked success) changes nothing; a reply with new counts appends exactly one `subtract` entry |
| MemberMembershipHandlers.AddHandler | electron/ipc/__tests__/memberMembershipHandlers.spec.js:51-53 | a refusal changes nothing and a success appends exactly one `add` entry |
| MemberMembershipHandlers.HandlersForward | electron/ipc/__tests__/memberMembershipHandlers.spec.js:47-53 | both training channels return the ledger's reply unchanged |
| MemberMembershipHandlers.OrEmpty | electron/ipc/__tests__/memberMembershipHandlers.spec.js:99-113 | a rejected read becomes `[]`, a resolved one is returned as is |
| MemberMembershipHandlers.GetAllHandler | electron/ipc/__tests__/memberMembershipHandlers.spec.js:55-65 | every stored membership (soft-deleted included) when the read succeeds, none when it rejects |
| MemberMembershipHandlers.ExpirationsHandler | electron/ipc/__tests__/memberMembershipHandlers.spec.js:99-105 | the repository's reply, or `[]` when it rejects |
| MemberMembershipHandlers.TrainingLogsHandler | electron/ipc/__tests__/memberMembershipHandlers.spec.js:107-113 | the membership's log newest first, or `[]` when the store rejects |
| NotificationService.Today | electron/services/notificationService.js:15-16 | the day number of the clock reading: the reading lies in that day, from its first millisecond up to the next day's first |
| NotificationService.Expired | electron/services/notificationService.js:22-53 | a membership is selected iff it is not soft-deleted, (past its end date or out of sessions with a non-null total), and has a stored member |
| NotificationService.Unnotified | electron/services/notificationService.js:41-61 | the selected memberships with no notification row at all, soft-deleted rows included |
| NotificationService.MessageFor | electron/services/notificationService.js:66-70 | the depletion wording whenever sessions are used up (even if also past the end date), otherwise the expiry wording, with the member's names |
| NotificationService.WordingTellsReason | electron/services/notificationService.js:67-70 | the two wordings never coincide, so the message identifies the rule that selected the membership |
| NotificationService.ExpiresTheDayAfter | electron/services/notificationService.js:15-31 | date expiry starts at the first millisecond of the day after the end date, so a membership ending today is not expired |
| NotificationService.NotifyStep | electron/services/notificationService.js:73-78 | writing one more notification under a fresh key keeps the pass's bookkeeping: originals untouched, one unread active row per distinct membership |
| NotificationService.ProgressComplete | electron/services/notificationService.js:59-81 | once every unnotified membership has been handled, no selected membership is left without a notification |
| NotificationService.Visit | electron/services/notificationService.js:59-81 | one iteration notifies the membership iff it had no notification, and otherwise changes nothing |
| NotificationService.NotifyEach | electron/services/notificationService.js:57-81 | the loop writes exactly one notification per unnotified membership and counts them |
| NotificationService.CheckExpiredMembershipsAndCreateNotifications | electron/services/notificationService.js:11-93 | reports (number selected, number unnotified); existing rows are untouched; each new row is unread, active, has the reason's message and belongs to a distinct unnotified membership; all selected memberships end up notified; `notificationsCreated <= totalExpired`; a query failure is rethrown with nothing written |
| NotificationService.CheckTwice | electron/services/notificationService.js:57-87 | a second pass over the first pass's output selects the same memberships and creates no notification |
| NotificationService.AnyNotificationSuppresses | electron/services/notificationService.js:41-61 | any notification row of a membership, read or soft-deleted, prevents a new one |

## Left out

- Logging (`console.log`/`console.error`), module-level singleton construction and the ORM's `toJSON` conversions: no behaviour beyond the values modelled.
- `limit`, `offset`, `order` and `include` options are carried or ignored, not interpreted: `findAll` results are modelled as sets of rows keyed by id. The one ordering that matters, `getTrainingLogs` by `usedAt` descending, is modelled as a sorted sequence.
- BaseRepository.FindOne: returns the lowest matching key; the database's actual pick is unspecified without an `order`.
- BaseRepository.FindAll: a `where` on a column the table does not have selects no row here; SQLite rejects such a query ("no such column") and the call would throw. Rows carry no schema in this model, so the unknown-column failure is not modelled.
- SoftDeletion.ActiveOptions, NotificationRepository.UnreadOptions and NotificationRepository.ByMembershipOptions: the source writes the forced equalities into the caller's own `options.where` object, so the caller sees it changed afterwards; the model builds fresh options and does not model that aliasing.
- Sequelize refusing an `update`/`destroy` without a `where`, and `where` operators other than equality in repository calls, are not modelled.
- BaseRepository.NextKey: SQLite's AUTOINCREMENT never reuses a key even after deletion; the model takes one more than the largest key in use, which is only fresh, not the high-water mark.
- The `createdAt`/`updatedAt` timestamps are not modelled.
- Ledger.SubtractTraining and Ledger.AddTraining take no storage faults: a failure between the count update and the log insert (which would leave the count changed without a log entry) is not modelled.
- The read-modify-write of the ledger is sequential; concurrent requests are not modelled.
- MemberMembershipHandlers.GetAllHandler: the `result || []` null case and the "repository missing `findAll`" guard cannot arise from the modelled repository, which always returns a list.
- `getLatestActiveMemberships` and `getExpirationsByMonth` have no implementation in the repository; `ExpirationsHandler` takes the repository's reply as a parameter.
- MemberMembershipHandlers.CreatePreservesValid: requires a non-negative plan count; nothing in the application prevents a negative `trainings` value, which would give a negative balance.
- The `notification` association the expiry pass includes is not declared in `electron/associations.js`; it is modelled as "some notification row refers to this membership", any row counting.
- NotificationService.CheckExpiredMembershipsAndCreateNotifications: only a failure of the selecting query is modelled; a failure of one of the `Notification.create` calls part-way through (earlier notifications kept, error rethrown) is not.
- NotificationService.Today: the local-time start of day is modelled as `now / 86400000` in a fixed zone; time zones and daylight saving are not modelled.
- The membership loop visits keys in ascending order; the database's row order without an `order` is unspecified, and only the keys of the new notifications depend on it.
- The Electron IPC registration itself, the OAuth/backup handlers, the database setup and the Vue front end are outside this model.
