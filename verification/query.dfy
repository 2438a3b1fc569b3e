/**
 * The part of a Sequelize query the repositories build and inspect: a
 * `where` object of column/value equalities plus the options that are passed
 * through untouched (`order`) or added (`returning`).
 */
module Query {
  import opened Wrappers

  /**
   * A column value as it appears in a row or in a `where` equality. A DATEONLY
   * column holds a day number (`Day`), a DATE column a millisecond timestamp
   * (`Instant`).
   */
  datatype Value = Null | Int(i: int) | Bool(b: bool) | Text(s: string) | Day(day: int) | Instant(ms: int)

  /** A nullable DATEONLY column. */
  function DayOrNull(d: Option<int>): (v: Value)
    ensures v == Null <==> d.None?
    ensures d.Some? ==> v == Day(d.value)
  {
    match d
    case None => Null
    case Some(x) => Day(x)
  }

  /** A nullable DATE column. */
  function InstantOrNull(t: Option<int>): (v: Value)
    ensures v == Null <==> t.None?
    ensures t.Some? ==> v == Instant(t.value)
  {
    match t
    case None => Null
    case Some(x) => Instant(x)
  }

  /** A plain record (`toJSON()` of a model instance): column name to value. */
  type Row = map<string, Value>

  /** A `where` object made of equalities; `{c: null}` reads as `c IS NULL`. */
  type Where = map<string, Value>

  datatype Direction = Asc | Desc

  datatype OrderTerm = OrderTerm(column: string, direction: Direction)

  /**
   * Query options. `where` is absent when the caller passed none; `order` is
   * carried to the store unchanged; `returning` is the flag `update` adds.
   */
  datatype Options = Options(where: Option<Where>, order: seq<OrderTerm>, returning: bool)

  /** The options a caller that passes none gets. */
  const NoOptions: Options := Options(None, [], false)

  /** A row satisfies a `where` object when it agrees with every equality in it. */
  predicate Matches(row: Row, w: Where) {
    forall c :: c in w ==> c in row && row[c] == w[c]
  }

  /** The caller's `where` object, or the empty one when none was given. */
  function WhereOf(opts: Options): Where {
    opts.where.GetOr(map[])
  }

  /**
   * The caller's options with `forced` merged into the `where` object: the
   * forced equalities override any the caller gave for the same column; the
   * caller's other columns and all other options are kept.
   */
  function Force(opts: Options, forced: Where): (r: Options)
    ensures r.where.Some?
    ensures forall c :: c in forced ==> c in r.where.value && r.where.value[c] == forced[c]
    ensures forall c :: c !in forced ==> (c in r.where.value <==> c in WhereOf(opts))
    ensures forall c :: c !in forced && c in WhereOf(opts) ==> r.where.value[c] == WhereOf(opts)[c]
    ensures r.order == opts.order && r.returning == opts.returning
  {
    opts.(where := Some(WhereOf(opts) + forced))
  }

  /**
   * The merged query selects exactly the rows that satisfy the forced
   * equalities and the caller's equalities on the other columns.
   */
  lemma ForcedMatches(row: Row, opts: Options, forced: Where)
    ensures Matches(row, WhereOf(Force(opts, forced)))
        <==> Matches(row, forced) && Matches(row, WhereOf(opts) - forced.Keys)
  {
    var merged := WhereOf(Force(opts, forced));
    if Matches(row, forced) && Matches(row, WhereOf(opts) - forced.Keys) {
      forall c | c in merged
        ensures c in row && row[c] == merged[c]
      {
        if c in forced {
        } else {
          assert c in WhereOf(opts) - forced.Keys;
        }
      }
    }
  }

  /** Forcing the same equalities twice is the same as forcing them once. */
  lemma ForceIdempotent(opts: Options, forced: Where)
    ensures Force(Force(opts, forced), forced) == Force(opts, forced)
  {
    var once := WhereOf(opts) + forced;
    assert once + forced == once;
  }
}
