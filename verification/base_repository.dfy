/**
 * The generic record store behind every repository (BaseRepository.js) and
 * the result shapes it promises: plain records, `null` for a missing record,
 * `[rowsUpdated, records]` for an update, `{count}` for a delete, and the
 * store's own error passed through unchanged.
 *
 * A table maps primary keys to stored entities. Every entity of the schema
 * except the training log carries a nullable `deletedAt`, so the store keeps
 * it beside the entity and the soft-delete repositories can be written once.
 */
module BaseRepository {
  import opened Wrappers
  import opened Query

  /** An entity as stored: its own columns plus the soft-delete stamp. */
  datatype Stored<E> = Stored(entity: E, deletedAt: Option<int>) {
    predicate Active() {
      deletedAt.None?
    }
  }

  type Table<E> = map<int, Stored<E>>

  /** One plain record handed back to a caller, with its primary key. */
  datatype Record<E> = Record(id: int, stored: Stored<E>)

  /** A reply together with the table as the call left it. */
  datatype Written<T, E> = Written(reply: Outcome<T>, table: Table<E>)

  /** The `[rowsUpdated, updatedRecords]` pair returned by `update`. */
  datatype UpdateResult<E> = UpdateResult(rowsUpdated: nat, records: Table<E>)

  /** What the ORM's own update resolves to; `records` is absent when it is not an array. */
  datatype OrmUpdateReply<E> = OrmUpdateReply(count: nat, records: Option<Table<E>>)

  /** The `{ count }` object returned by `destroy`. */
  datatype DestroyResult = DestroyResult(count: nat)

  const ABSTRACT_CLASS_ERROR: string :=
    "BaseRepository is an abstract class and cannot be instantiated directly"

  /** Which class a `new` expression names: the base itself or one of its subclasses. */
  datatype RepositoryClass = Base | Subclass(name: string)

  /** The row of key `k` as a `where` object sees it: entity columns, `id` and `deletedAt`. */
  function RowAt<E>(t: Table<E>, cols: E -> Row, k: int): (row: Row)
    requires k in t
    ensures "id" in row && row["id"] == Int(k)
    ensures "deletedAt" in row && (row["deletedAt"] == Null <==> t[k].Active())
  {
    cols(t[k].entity)["id" := Int(k)]["deletedAt" := InstantOrNull(t[k].deletedAt)]
  }

  /** The keys of the rows a `where` object selects. */
  function Selected<E>(t: Table<E>, cols: E -> Row, w: Where): (s: set<int>)
    ensures s <= t.Keys
    ensures forall k :: k in t ==> (k in s <==> Matches(RowAt(t, cols, k), w))
  {
    set k | k in t && Matches(RowAt(t, cols, k), w)
  }

  /** A `where { id }` query selects the row with that key and nothing else. */
  lemma SelectById<E>(t: Table<E>, cols: E -> Row, id: int)
    ensures Selected(t, cols, map["id" := Int(id)]) == if id in t then {id} else {}
  {
    var s := Selected(t, cols, map["id" := Int(id)]);
    forall k | k in s ensures k == id {
      assert RowAt(t, cols, k)["id"] == Int(id);
    }
    if id in t {
      assert id in s;
    }
  }

  /** A set is empty or has an element one can pick. */
  lemma Inhabited(s: set<int>)
    ensures s == {} || exists x :: x in s
  {
    if forall x :: x !in s {
      assert s == {};
    }
  }

  lemma {:induction false} LeastExists(s: set<int>)
    requires s != {}
    ensures exists k :: k in s && forall j :: j in s ==> k <= j
  {
    Inhabited(s);
    var x :| x in s;
    var rest := s - {x};
    if rest == {} {
      forall j | j in s ensures x <= j {
        assert j == x || j in rest;
      }
    } else {
      LeastExists(rest);
      var m :| m in rest && forall j :: j in rest ==> m <= j;
      var k := if x < m then x else m;
      forall j | j in s ensures k <= j {
        assert j == x || j in rest;
      }
      assert k in s;
    }
  }

  lemma {:induction false} GreatestExists(s: set<int>)
    requires s != {}
    ensures exists k :: k in s && forall j :: j in s ==> j <= k
  {
    Inhabited(s);
    var x :| x in s;
    var rest := s - {x};
    if rest == {} {
      forall j | j in s ensures j <= x {
        assert j == x || j in rest;
      }
    } else {
      GreatestExists(rest);
      var m :| m in rest && forall j :: j in rest ==> j <= m;
      var k := if m < x then x else m;
      forall j | j in s ensures j <= k {
        assert j == x || j in rest;
      }
      assert k in s;
    }
  }

  function Least(s: set<int>): (k: int)
    requires s != {}
    ensures k in s && forall j :: j in s ==> k <= j
  {
    LeastExists(s);
    var k :| k in s && forall j :: j in s ==> k <= j; k
  }

  /**
   * The key an auto-increment insert receives: one past the largest key in
   * use, and at least 1.
   */
  function NextKey<E>(t: Table<E>): (k: int)
    ensures k >= 1 && k !in t
    ensures forall j :: j in t ==> j < k
  {
    if t.Keys == {} then 1
    else
      GreatestExists(t.Keys);
      var m :| m in t.Keys && forall j :: j in t.Keys ==> j <= m;
      if m < 1 then 1 else m + 1
  }

  /** `new BaseRepository(model)` throws; `new Subclass(model)` succeeds. */
  function Construct(cls: RepositoryClass): (r: Outcome<RepositoryClass>)
    ensures r.Thrown? <==> cls.Base?
    ensures r.Thrown? ==> r.error == ABSTRACT_CLASS_ERROR
    ensures r.Ok? ==> r.value == cls
  {
    if cls.Base? then Thrown(ABSTRACT_CLASS_ERROR) else Ok(cls)
  }

  /** `create(data)`: inserts under a fresh key and returns the new plain record. */
  function Create<E>(t: Table<E>, e: E, fault: Option<StorageError>): (w: Written<Record<E>, E>)
    ensures fault.Some? ==> w.reply == Thrown(fault.value) && w.table == t
    ensures fault.None? ==> w.reply.Ok? && w.reply.value.id !in t
    ensures fault.None? ==> w.table == t[w.reply.value.id := Stored(e, None)]
    ensures fault.None? ==> w.reply.value.stored == Stored(e, None)
  {
    if fault.Some? then Written(Thrown(fault.value), t)
    else
      var k := NextKey(t);
      Written(Ok(Record(k, Stored(e, None))), t[k := Stored(e, None)])
  }

  /** `findAll(options)`: every row the `where` object selects, as plain records. */
  function FindAll<E>(t: Table<E>, cols: E -> Row, opts: Options, fault: Option<StorageError>)
    : (r: Outcome<Table<E>>)
    ensures fault.Some? ==> r == Thrown(fault.value)
    ensures fault.None? ==> r.Ok? && r.value.Keys == Selected(t, cols, WhereOf(opts))
    ensures r.Ok? ==> forall k :: k in r.value ==> r.value[k] == t[k]
  {
    if fault.Some? then Thrown(fault.value)
    else Ok(map k | k in Selected(t, cols, WhereOf(opts)) :: t[k])
  }

  /**
   * `findOne(options)`: `null` when no row is selected, otherwise one selected
   * row (the one with the smallest key, the store's natural order).
   */
  function FindOne<E>(t: Table<E>, cols: E -> Row, opts: Options, fault: Option<StorageError>)
    : (r: Outcome<Option<Record<E>>>)
    ensures fault.Some? ==> r == Thrown(fault.value)
    ensures fault.None? ==> r.Ok?
    ensures r.Ok? ==> (r.value.None? <==> Selected(t, cols, WhereOf(opts)) == {})
    ensures r.Ok? && r.value.Some? ==>
      var rec := r.value.value;
      rec.id in t && rec.stored == t[rec.id] && Matches(RowAt(t, cols, rec.id), WhereOf(opts))
      && forall j :: j in Selected(t, cols, WhereOf(opts)) ==> rec.id <= j
  {
    if fault.Some? then Thrown(fault.value)
    else
      var s := Selected(t, cols, WhereOf(opts));
      if s == {} then Ok(None) else var k := Least(s); Ok(Some(Record(k, t[k])))
  }

  /** `findById(id)`: `null` when the key is absent, the plain record otherwise. */
  function FindById<E>(t: Table<E>, id: int, fault: Option<StorageError>): (r: Outcome<Option<Stored<E>>>)
    ensures fault.Some? ==> r == Thrown(fault.value)
    ensures fault.None? ==> r.Ok? && (r.value.None? <==> id !in t)
    ensures r.Ok? && r.value.Some? ==> id in t && r.value.value == t[id]
  {
    if fault.Some? then Thrown(fault.value)
    else if id in t then Ok(Some(t[id])) else Ok(None)
  }

  /** The caller's options with the flag asking the ORM to return the updated rows. */
  function UpdateOptions(opts: Options): (r: Options)
    ensures r.returning
    ensures r.where == opts.where && r.order == opts.order
  {
    opts.(returning := true)
  }

  /** The pair `update` resolves to: the row count, and the ORM's rows or none when it gave no list. */
  function ShapeUpdate<E>(raw: OrmUpdateReply<E>): (r: UpdateResult<E>)
    ensures r.rowsUpdated == raw.count
    ensures raw.records.Some? ==> r.records == raw.records.value
    ensures raw.records.None? ==> r.records == map[]
  {
    UpdateResult(raw.count, raw.records.GetOr(map[]))
  }

  /** `t` with every row whose key is in `s` rewritten by `patch`, and every other row as it was. */
  function Rewrite<E>(t: Table<E>, patch: Stored<E> -> Stored<E>, s: set<int>): (t': Table<E>)
    ensures t'.Keys == t.Keys
    ensures forall k :: k in t ==> t'[k] == if k in s then patch(t[k]) else t[k]
  {
    map k | k in t :: if k in s then patch(t[k]) else t[k]
  }

  /** The rewritten rows of the keys in `s`: the list an update with `returning` answers with. */
  function Listing<E>(t: Table<E>, patch: Stored<E> -> Stored<E>, s: set<int>): (r: map<int, Stored<E>>)
    ensures r.Keys == s * t.Keys
    ensures forall k :: k in r ==> r[k] == patch(t[k])
  {
    map k | k in s && k in t :: patch(t[k])
  }

  /**
   * `update(data, options)`: every selected row is rewritten by `patch` (the
   * columns in `data`), every other row is left as it was, and the reply counts
   * the rewritten rows. `listed` says whether the ORM answers with the
   * rewritten rows as a list, as it does when the database honours
   * `returning`; otherwise the reply carries no records.
   */
  function Update<E>(t: Table<E>, cols: E -> Row, patch: Stored<E> -> Stored<E>,
                     opts: Options, listed: bool, fault: Option<StorageError>): (w: Written<UpdateResult<E>, E>)
    ensures fault.Some? ==> w.reply == Thrown(fault.value) && w.table == t
    ensures w.table.Keys == t.Keys
    ensures forall k :: k in t && k !in Selected(t, cols, WhereOf(opts)) ==> w.table[k] == t[k]
    ensures fault.None? ==> forall k :: k in Selected(t, cols, WhereOf(opts)) ==> w.table[k] == patch(t[k])
    ensures fault.None? ==> w.reply.Ok?
    ensures w.reply.Ok? ==> w.reply.value.rowsUpdated == |Selected(t, cols, WhereOf(opts))|
    ensures w.reply.Ok? && listed ==> w.reply.value.records.Keys == Selected(t, cols, WhereOf(opts))
    ensures w.reply.Ok? && listed ==> forall k :: k in w.reply.value.records ==> w.reply.value.records[k] == w.table[k]
    ensures w.reply.Ok? && !listed ==> w.reply.value.records == map[]
  {
    if fault.Some? then Written(Thrown(fault.value), t)
    else
      var sent := UpdateOptions(opts);
      var s := Selected(t, cols, WhereOf(sent));
      var raw := OrmUpdateReply(|s|, if sent.returning && listed then Some(Listing(t, patch, s)) else None);
      Written(Ok(ShapeUpdate(raw)), Rewrite(t, patch, s))
  }

  /** `destroy(options)`: removes every selected row and reports `{count}`. */
  function Destroy<E>(t: Table<E>, cols: E -> Row, opts: Options, fault: Option<StorageError>)
    : (w: Written<DestroyResult, E>)
    ensures fault.Some? ==> w.reply == Thrown(fault.value) && w.table == t
    ensures fault.None? ==> w.reply == Ok(DestroyResult(|Selected(t, cols, WhereOf(opts))|))
    ensures fault.None? ==> w.table.Keys == t.Keys - Selected(t, cols, WhereOf(opts))
    ensures forall k :: k in w.table ==> w.table[k] == t[k]
  {
    if fault.Some? then Written(Thrown(fault.value), t)
    else
      var s := Selected(t, cols, WhereOf(opts));
      Written(Ok(DestroyResult(|s|)), map k | k in t && k !in s :: t[k])
  }

  /** An update whose `where` selects nothing changes nothing and reports `[0, []]`. */
  lemma UpdateNothingSelected<E>(t: Table<E>, cols: E -> Row, patch: Stored<E> -> Stored<E>, opts: Options,
                                 listed: bool)
    requires Selected(t, cols, WhereOf(opts)) == {}
    ensures Update(t, cols, patch, opts, listed, None) == Written(Ok(UpdateResult(0, map[])), t)
  {
    var w := Update(t, cols, patch, opts, listed, None);
    assert w.table == t;
  }

  /** Once the selected keys `s` are known, an update rewrites exactly those rows and lists them when `listed`. */
  lemma UpdateSelected<E>(t: Table<E>, cols: E -> Row, patch: Stored<E> -> Stored<E>, opts: Options,
                          listed: bool, s: set<int>)
    requires Selected(t, cols, WhereOf(opts)) == s
    ensures Update(t, cols, patch, opts, listed, None)
      == Written(Ok(UpdateResult(|s|, if listed then Listing(t, patch, s) else map[])), Rewrite(t, patch, s))
  {
    assert WhereOf(UpdateOptions(opts)) == WhereOf(opts);
  }

  /** With exactly `k` selected, an update rewrites row `k` and keeps every other row. */
  lemma UpdateOneTable<E>(t: Table<E>, cols: E -> Row, patch: Stored<E> -> Stored<E>, opts: Options,
                          listed: bool, k: int)
    requires Selected(t, cols, WhereOf(opts)) == {k}
    ensures k in t
    ensures Update(t, cols, patch, opts, listed, None).table == t[k := patch(t[k])]
  {
    var w := Update(t, cols, patch, opts, listed, None);
    var sel := Selected(t, cols, WhereOf(opts));
    assert k in sel;
    forall j | j in t ensures w.table[j] == t[k := patch(t[k])][j] {
      if j != k {
        assert j !in sel;
      }
    }
  }

  /**
   * An update whose `where` selects exactly the key `k` patches that row alone
   * and reports it (in the records too when the ORM lists them).
   */
  lemma UpdateOne<E>(t: Table<E>, cols: E -> Row, patch: Stored<E> -> Stored<E>, opts: Options,
                     listed: bool, k: int)
    requires Selected(t, cols, WhereOf(opts)) == {k}
    ensures k in t
    ensures Update(t, cols, patch, opts, listed, None)
      == Written(Ok(UpdateResult(1, if listed then map[k := patch(t[k])] else map[])), t[k := patch(t[k])])
  {
    UpdateOneTable(t, cols, patch, opts, listed, k);
    var w := Update(t, cols, patch, opts, listed, None);
    if listed {
      var records := w.reply.value.records;
      assert records.Keys == {k};
      assert records[k] == patch(t[k]);
      assert records == map[k := patch(t[k])];
    }
  }
}
