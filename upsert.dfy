/** The key-derived WHERE and the insert-then-update policy of
    TableQuery.InsertOrUpdate, as functions of the builder's state and of an
    abstract driver. */
module UpsertPolicy {
  import opened Types
  import opened Binding
  import opened Render

  /** SetWhereForCheckKey: with key columns set and no WHERE text, the WHERE
      becomes the key conditions with the key values as arguments (even when
      no value is a key, which leaves the text empty and the arguments
      cleared); otherwise the WHERE is left as it is. */
  function DerivedWhere(keys: seq<string>, w: string, wargs: seq<Value>, kvs: Entries): (string, seq<Value>)
  {
    if |keys| > 0 && w == "" then (KeyWhere(kvs, keys), KeyArgs(kvs, keys)) else (w, wargs)
  }

  /** What InsertOrUpdate returns and the statements it renders and hands to
      ExecuteNonQuery, in order; a statement that fails to open or to bind
      is listed although the driver never executes it. */
  datatype UpsertRun = UpsertRun(result: Result<int>, issued: seq<Statement>)

  /** Whether the insert's outcome sends InsertOrUpdate on to Update: a
      SqliteException (caught), or a count below 1. */
  predicate FallsBack(insert: Result<int>)
  {
    insert == Err(DriverFailure) || (insert.Ok? && insert.value < 1)
  }

  /** InsertOrUpdate: derive the WHERE; without values or WHERE fail with
      "need WHERE"; otherwise insert, and update once if the insert falls
      back. Any other failure of the insert propagates. */
  function Upsert(driver: Driver, table: string, kvs: Entries, keys: seq<string>,
                  w: string, wargs: seq<Value>): UpsertRun
  {
    var (w', wargs') := DerivedWhere(keys, w, wargs, kvs);
    if |kvs| == 0 || w' == "" then UpsertRun(Err(NeedWhere), [])
    else
      var ins := InsertStatement(table, kvs);
      var inserted := ExecuteNonQuery(driver, ins);
      if FallsBack(inserted) then
        var up := UpdateStatement(table, kvs, keys, w', wargs');
        UpsertRun(ExecuteNonQuery(driver, up), [ins, up])
      else UpsertRun(inserted, [ins])
  }

  /** Execution fails only with the driver's or the binding's errors. */
  lemma ExecuteNeverNeedsWhere(driver: Driver, st: Statement)
    ensures ExecuteNonQuery(driver, st) != Err(NeedWhere)
  {
    match Bind(Placeholders.Extract(st.text), st.args)
    case Ok(_) =>
    case Err(e) =>
  }

  /** "need WHERE" is raised exactly when there are no values or no WHERE
      can be had, and then nothing is executed. */
  lemma UpsertNeedWhere(driver: Driver, table: string, kvs: Entries, keys: seq<string>,
                        w: string, wargs: seq<Value>)
    ensures var run := Upsert(driver, table, kvs, keys, w, wargs);
            (run.result == Err(NeedWhere) <==> |kvs| == 0 || DerivedWhere(keys, w, wargs, kvs).0 == "")
            && (run.result == Err(NeedWhere) ==> run.issued == [])
  {
    var (w', wargs') := DerivedWhere(keys, w, wargs, kvs);
    var ins := InsertStatement(table, kvs);
    ExecuteNeverNeedsWhere(driver, ins);
    ExecuteNeverNeedsWhere(driver, UpdateStatement(table, kvs, keys, w', wargs'));
  }

  /** Without a WHERE and without key columns, InsertOrUpdate always fails
      with "need WHERE". */
  lemma UpsertWithoutKeysOrWhere(driver: Driver, table: string, kvs: Entries,
                                 wargs: seq<Value>)
    ensures Upsert(driver, table, kvs, [], "", wargs) == UpsertRun(Err(NeedWhere), [])
  {
  }

  /** When it gets going, InsertOrUpdate executes the insert first and the
      update at most once, exactly when the insert falls back; the result is
      the insert's when it does not fall back and the update's when it does. */
  lemma UpsertRunsUpdateOnlyOnFallback(driver: Driver, table: string, kvs: Entries,
                                       keys: seq<string>, w: string, wargs: seq<Value>)
    requires |kvs| > 0 && DerivedWhere(keys, w, wargs, kvs).0 != ""
    ensures var run := Upsert(driver, table, kvs, keys, w, wargs);
            var (w', wargs') := DerivedWhere(keys, w, wargs, kvs);
            var inserted := ExecuteNonQuery(driver, InsertStatement(table, kvs));
            && 1 <= |run.issued| <= 2
            && run.issued[0] == InsertStatement(table, kvs)
            && (|run.issued| == 2 <==> FallsBack(inserted))
            && (|run.issued| == 2 ==> run.issued[1] == UpdateStatement(table, kvs, keys, w', wargs')
                                      && run.result == ExecuteNonQuery(driver, run.issued[1]))
            && (|run.issued| == 1 ==> run.result == inserted)
  {
  }

  /** The key conditions are non-empty exactly when some value's column is a
      key. */
  lemma KeyWhereEmpty(kvs: Entries, keys: seq<string>)
    ensures KeyWhere(kvs, keys) == "" <==> forall i :: 0 <= i < |kvs| ==> kvs[i].0 !in keys
  {
    var cs := KeyConditions(kvs, keys);
    var ps := KeyPositions(kvs, keys);
    KeyPositionsExact(kvs, keys);
    if |cs| > 0 {
      JoinNonEmpty(cs, " AND ");
      assert kvs[ps[0]].0 in keys;
    } else {
      assert |ps| == 0;
    }
  }
}
