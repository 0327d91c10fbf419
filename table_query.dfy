/** TableQuery: the fluent statement builder. Its fields change in place;
    every renderer loops over the values or columns appending to a buffer,
    and is proved to produce the text of the matching Render function. */
module TableQueries {
  import opened Text
  import opened Types
  import opened Binding
  import opened Render
  import opened UpsertPolicy

  /** The placeholder Insert appends for its n-th value. */
  lemma InsertPlaceholdersSnoc(n: nat)
    ensures InsertPlaceholders(n + 1) == InsertPlaceholders(n) + ["@insArg" + NatToString(n + 1)]
  {
    assert Tag(ArgName("insArg", n + 1)) == "@insArg" + NatToString(n + 1);
  }

  /** One more value adds its column and its value at the end. */
  lemma EntriesSnoc(kvs: Entries, i: nat)
    requires i < |kvs|
    ensures Columns(kvs[..i + 1]) == Columns(kvs[..i]) + [kvs[i].0]
    ensures ValuesOf(kvs[..i + 1]) == ValuesOf(kvs[..i]) + [kvs[i].1]
  {
  }

  /** A column, '=', '@', a prefix and a number: the SET and key-condition
      items as the renderers append them. */
  lemma ItemShape(col: string, lit: string, prefix: string, n: nat)
    requires lit == "=@" + prefix
    ensures col + lit + NatToString(n) == col + "=" + Tag(ArgName(prefix, n))
  {
    var d := NatToString(n);
    assert lit == "=" + "@" + prefix;
    assert col + lit + d == col + "=" + ("@" + (prefix + d));
  }

  /** One more non-key entry adds its SET item, numbered after the others. */
  lemma SetItemsSnoc(entries: Entries, e: (string, Value))
    ensures SetItems(entries + [e]) == SetItems(entries) + [e.0 + "=" + Tag(ArgName("upArg", |entries| + 1))]
  {
    var a := SetItems(entries + [e]);
    var b := SetItems(entries) + [e.0 + "=" + Tag(ArgName("upArg", |entries| + 1))];
    assert |a| == |b|;
    forall i | 0 <= i < |a|
      ensures a[i] == b[i]
    {
      if i < |entries| {
        assert (entries + [e])[i] == entries[i];
      }
    }
  }

  /** A buffer holding `head` and the join of `parts` grows into the join of
      one more part by appending the separator (unless it is the first) and
      the part. */
  lemma HeadJoinSnoc(head: string, parts: seq<string>, sep: string, p: string)
    ensures head + Join(parts + [p], sep) == if parts == [] then head + p else head + Join(parts, sep) + sep + p
  {
    JoinSnoc(parts, sep, p);
  }

  /** The join of one more item col + lit + d, as the renderers append
      it. */
  lemma JoinSnocItem(parts: seq<string>, sep: string, col: string, lit: string, d: string)
    ensures Join(parts + [col + lit + d], sep)
         == (if |parts| == 0 then Join(parts, sep) else Join(parts, sep) + sep) + col + lit + d
  {
    JoinSnoc(parts, sep, col + lit + d);
    if |parts| == 0 {
      assert Join(parts, sep) == "";
    }
  }

  /** Appending item by item, with the separator before all but the first,
      builds the join. */
  lemma JoinStep(parts: seq<string>, i: nat, sep: string)
    requires i < |parts|
    ensures Join(parts[..i + 1], sep) == (if i == 0 then parts[i] else Join(parts[..i], sep) + sep + parts[i])
  {
    assert parts[..i + 1] == parts[..i] + [parts[i]];
    JoinSnoc(parts[..i], sep, parts[i]);
  }

  /** One iteration of Update's SET loop at a non-key column: the entry
      joins the SET list, which grows by ", " (unless it is the first) and
      col=@upArgK, K one more than the columns set so far. */
  lemma SetLoopStep(kvs: Entries, keys: seq<string>, i: nat, head: string)
    requires i < |kvs| && kvs[i].0 !in keys
    ensures var e := NonKeyEntries(kvs[..i], keys);
            var before := head + Join(SetItems(e), ", ");
            && NonKeyEntries(kvs[..i + 1], keys) == e + [kvs[i]]
            && ValuesOf(e + [kvs[i]]) == ValuesOf(e) + [kvs[i].1]
            && head + Join(SetItems(e + [kvs[i]]), ", ")
               == (if |e| == 0 then before else before + ", ") + kvs[i].0 + "=@upArg" + NatToString(|e| + 1)
  {
    var e := NonKeyEntries(kvs[..i], keys);
    NonKeyEntriesSnoc(kvs, keys, i);
    var kv := kvs[i];
    SetItemsSnoc(e, kv);
    var item := kv.0 + "=" + Tag(ArgName("upArg", |e| + 1));
    ItemShape(kv.0, "=@upArg", "upArg", |e| + 1);
    HeadJoinSnoc(head, SetItems(e), ", ", item);
    assert ValuesOf(e + [kv]) == ValuesOf(e) + [kv.1];
  }

  /** One iteration of Insert's loop: the column and the placeholder of the
      i-th value join their lists, after ", " unless they are the first. */
  lemma InsertLoopStep(kvs: Entries, i: nat)
    requires i < |kvs|
    ensures var f := Join(Columns(kvs[..i]), ", ");
            Join(Columns(kvs[..i + 1]), ", ") == (if i == 0 then f else f + ", ") + kvs[i].0
    ensures var v := Join(InsertPlaceholders(i), ", ");
            Join(InsertPlaceholders(i + 1), ", ") == (if i == 0 then v else v + ", ") + "@insArg" + NatToString(i + 1)
  {
    EntriesSnoc(kvs, i);
    JoinSnoc(Columns(kvs[..i]), ", ", kvs[i].0);
    PlaceholderStep(i);
  }

  /** One iteration of Insert(params values)'s loop, on the buffer. */
  lemma InsertValuesStep(head: string, i: nat)
    ensures var before := head + Join(InsertPlaceholders(i), ", ");
            head + Join(InsertPlaceholders(i + 1), ", ")
            == (if i == 0 then before else before + ", ") + "@insArg" + NatToString(i + 1)
  {
    PlaceholderStep(i);
    var v := Join(InsertPlaceholders(i), ", ");
    var d := NatToString(i + 1);
    if i == 0 {
      assert v == "";
      assert head + ("" + "@insArg" + d) == head + "" + "@insArg" + d;
    } else {
      assert head + (v + ", " + "@insArg" + d) == head + v + ", " + "@insArg" + d;
    }
  }

  /** The placeholder list grows by ", " (unless empty) and @insArgN. */
  lemma PlaceholderStep(i: nat)
    ensures var v := Join(InsertPlaceholders(i), ", ");
            Join(InsertPlaceholders(i + 1), ", ") == (if i == 0 then v else v + ", ") + "@insArg" + NatToString(i + 1)
  {
    InsertPlaceholdersSnoc(i);
    var p := "@insArg" + NatToString(i + 1);
    JoinSnoc(InsertPlaceholders(i), ", ", p);
    assert "@insArg" + NatToString(i + 1) == p;
  }

  /** One iteration of the key-condition loop: a non-key column changes
      nothing; a key column at position i appends " AND " (unless it is the
      first) and col=@kcArgI, and its value. */
  lemma KeyLoopStep(kvs: Entries, keys: seq<string>, i: nat)
    requires i < |kvs| && kvs[i].0 in keys
    ensures var before := Join(KeyConditions(kvs[..i], keys), " AND ");
            var args := KeyArgs(kvs[..i], keys);
            && Join(KeyConditions(kvs[..i + 1], keys), " AND ")
               == (if |args| == 0 then before else before + " AND ") + kvs[i].0 + "=@kcArg" + NatToString(i)
            && KeyArgs(kvs[..i + 1], keys) == args + [kvs[i].1]
  {
    var conds := KeyConditions(kvs[..i], keys);
    assert |KeyArgs(kvs[..i], keys)| == |conds|;
    KeyConditionsSnoc(kvs, keys, i);
    var kv := kvs[i];
    ItemShape(kv.0, "=@kcArg", "kcArg", i);
    JoinSnocItem(conds, " AND ", kv.0, "=@kcArg", NatToString(i));
  }

  /** A non-key column adds no condition and no argument. */
  lemma KeyLoopSkip(kvs: Entries, keys: seq<string>, i: nat)
    requires i < |kvs| && kvs[i].0 !in keys
    ensures KeyConditions(kvs[..i + 1], keys) == KeyConditions(kvs[..i], keys)
    ensures KeyArgs(kvs[..i + 1], keys) == KeyArgs(kvs[..i], keys)
  {
    KeyConditionsSnoc(kvs, keys, i);
    assert KeyConditions(kvs[..i], keys) + [] == KeyConditions(kvs[..i], keys);
    assert KeyArgs(kvs[..i], keys) + [] == KeyArgs(kvs[..i], keys);
  }

  /** The loops' starting point: nothing set, no conditions. */
  lemma LoopStart(kvs: Entries, keys: seq<string>)
    ensures Join(SetItems(NonKeyEntries(kvs[..0], keys)), ", ") == ""
    ensures ValuesOf(NonKeyEntries(kvs[..0], keys)) == []
    ensures Join(KeyConditions(kvs[..0], keys), " AND ") == "" && KeyArgs(kvs[..0], keys) == []
  {
    assert kvs[..0] == [];
    assert Join([], ", ") == "" && Join([], " AND ") == "";
  }

  /** The `first`-flag loop of the renderers: append the parts to the
      buffer, with the separator before all but the first. */
  method AppendJoined(buffer: string, parts: seq<string>, sep: string) returns (out: string)
    ensures out == buffer + Join(parts, sep)
  {
    out := buffer;
    var first := true;
    var i := 0;
    assert parts[..0] == [] && Join([], sep) == "";
    while i < |parts|
      invariant 0 <= i <= |parts| && (first <==> i == 0)
      invariant out == buffer + Join(parts[..i], sep)
    {
      JoinStep(parts, i, sep);
      if first {
        first := false;
      } else {
        out := out + sep;
      }
      out := out + parts[i];
      i := i + 1;
    }
    assert parts[..i] == parts;
  }

  class TableQuery {
    const tableName: string
    var isDistinct: bool
    var whereStr: string
    var whereArgs: seq<Value>
    /** The column/value map, in its enumeration order. */
    var values: Entries
    var orderBy: string
    var groupBy: string
    var limit: int
    var limitOffset: int
    var keys: seq<string>

    /** A builder for `tableName` with everything empty. */
    constructor (tableName: string)
      ensures this.tableName == tableName && !isDistinct
      ensures whereStr == "" && whereArgs == [] && values == []
      ensures orderBy == "" && groupBy == "" && limit == 0 && limitOffset == 0 && keys == []
    {
      this.tableName := tableName;
      isDistinct := false;
      whereStr := "";
      whereArgs := [];
      values := [];
      orderBy := "";
      groupBy := "";
      limit := 0;
      limitOffset := 0;
      keys := [];
    }

    /** Reset empties every part of the statement but the key columns. */
    method Reset()
      modifies this`whereStr, this`whereArgs, this`values, this`orderBy, this`groupBy,
               this`limit, this`limitOffset, this`isDistinct
      ensures whereStr == "" && whereArgs == [] && values == [] && orderBy == "" && groupBy == ""
      ensures limit == 0 && limitOffset == 0 && !isDistinct
      ensures keys == old(keys)
    {
      whereStr := "";
      whereArgs := [];
      values := [];
      orderBy := "";
      groupBy := "";
      limit := 0;
      limitOffset := 0;
      isDistinct := false;
    }

    method Keys(keys: seq<string>)
      modifies this`keys
      ensures this.keys == keys
    {
      this.keys := keys;
    }

    method Where(where: string, args: seq<Value>)
      modifies this`whereStr, this`whereArgs
      ensures whereStr == where && whereArgs == args
    {
      whereStr := where;
      whereArgs := args;
    }

    /** WhereAnd: on an empty WHERE it is Where("(" + where + ")", args);
        otherwise " AND (where)" is appended and args follow the existing
        arguments. */
    method WhereAnd(where: string, args: seq<Value>)
      modifies this`whereStr, this`whereArgs
      ensures (whereStr, whereArgs) == WhereAnded(old(whereStr), old(whereArgs), where, args)
    {
      if whereStr == "" {
        Where("(" + where + ")", args);
        return;
      }
      whereStr := whereStr + " AND (";
      whereStr := whereStr + where;
      whereStr := whereStr + ")";
      whereArgs := whereArgs + args;
    }

    method Values(keyValues: Entries)
      modifies this`values
      ensures values == keyValues
    {
      values := keyValues;
    }

    method OrderBy(field: string, asc: bool)
      modifies this`orderBy
      ensures orderBy == OrderByAppended(old(orderBy), field, asc)
    {
      if orderBy != "" {
        orderBy := orderBy + ", ";
      }
      orderBy := orderBy + field + (if asc then " ASC" else " DESC");
    }

    method SetOrderBy(orderByStr: string)
      modifies this`orderBy
      ensures orderBy == orderByStr
    {
      orderBy := orderByStr;
    }

    method GroupBy(groupByStr: string)
      modifies this`groupBy
      ensures groupBy == groupByStr
    {
      groupBy := groupByStr;
    }

    /** Limit(count, offset); the source's default offset is 0. */
    method Limit(count: int, offset: int)
      modifies this`limit, this`limitOffset
      ensures limit == count && limitOffset == offset
    {
      limit := count;
      limitOffset := offset;
    }

    /** Distnict() in the source. */
    method Distinct()
      modifies this`isDistinct
      ensures isDistinct
    {
      isDistinct := true;
    }

    // -------------------------------------------------------------------
    // Renderers and their execution

    /** Insert(params values): the statement handed to the driver, and the
        driver's answer. */
    method InsertValues(driver: Driver, vs: seq<Value>) returns (r: Result<int>, st: Statement)
      ensures st == InsertValuesStatement(tableName, vs)
      ensures r == ExecuteNonQuery(driver, st)
    {
      var cmd := "INSERT INTO " + tableName + " VALUES(";
      ghost var head := cmd;
      var first := true;
      var argCnt := 0;
      var i := 0;
      while i < |vs|
        invariant 0 <= i <= |vs| && argCnt == i && (first <==> i == 0)
        invariant cmd == head + Join(InsertPlaceholders(i), ", ")
      {
        InsertValuesStep(head, i);
        if first {
          first := false;
        } else {
          cmd := cmd + ", ";
        }
        argCnt := argCnt + 1;
        cmd := cmd + "@insArg" + NatToString(argCnt);
        i := i + 1;
      }
      cmd := cmd + ");";
      st := Statement(cmd, vs);
      r := ExecuteNonQuery(driver, st);
    }

    /** Insert(): the columns and the placeholders in the order of the
        values. */
    method Insert(driver: Driver) returns (r: Result<int>, st: Statement)
      ensures st == InsertStatement(tableName, values)
      ensures r == ExecuteNonQuery(driver, st)
    {
      var cmd := "INSERT INTO " + tableName;
      var fieldStr := "";
      var valueStr := "";
      var first := true;
      var argCnt := 0;
      var i := 0;
      while i < |values|
        invariant 0 <= i <= |values| && argCnt == i && (first <==> i == 0)
        invariant fieldStr == Join(Columns(values[..i]), ", ")
        invariant valueStr == Join(InsertPlaceholders(i), ", ")
      {
        var kv := values[i];
        InsertLoopStep(values, i);
        if first {
          first := false;
        } else {
          fieldStr := fieldStr + ", ";
          valueStr := valueStr + ", ";
        }
        fieldStr := fieldStr + kv.0;
        argCnt := argCnt + 1;
        valueStr := valueStr + "@insArg" + NatToString(argCnt);
        i := i + 1;
      }
      assert values[..i] == values;
      cmd := cmd + "(" + fieldStr + ") VALUES(" + valueStr + ");";
      var valList := ValuesOf(values);
      st := Statement(cmd, valList);
      r := ExecuteNonQuery(driver, st);
    }

    /** Update(): SET for the non-key columns, then the WHERE when there is
        one. */
    method Update(driver: Driver) returns (r: Result<int>, st: Statement)
      ensures st == UpdateStatement(tableName, values, keys, whereStr, whereArgs)
      ensures r == ExecuteNonQuery(driver, st)
    {
      var cmd, args := SetClause();
      ghost var setPart, setArgs := cmd, args;
      if whereStr != "" {
        cmd := cmd + " WHERE " + whereStr;
        assert cmd == setPart + WhereClause(whereStr);
        args := AppendWhereArgs(args);
      } else {
        assert cmd == setPart + WhereClause(whereStr);
        assert args == setArgs + [];
      }
      cmd := cmd + ";";
      st := Statement(cmd, args);
      r := ExecuteNonQuery(driver, st);
    }

    /** Update's SET loop: a numbered col=@upArgK for each non-key column,
        and the values of those columns. */
    method SetClause() returns (cmd: string, args: seq<Value>)
      ensures cmd == "UPDATE " + tableName + " SET " + Join(SetItems(NonKeyEntries(values, keys)), ", ")
      ensures args == ValuesOf(NonKeyEntries(values, keys))
    {
      cmd := "UPDATE " + tableName + " SET ";
      ghost var head := cmd;
      args := [];
      var first := true;
      var argCnt := 0;
      var i := 0;
      LoopStart(values, keys);
      while i < |values|
        invariant 0 <= i <= |values|
        invariant argCnt == |NonKeyEntries(values[..i], keys)| && (first <==> argCnt == 0)
        invariant cmd == head + Join(SetItems(NonKeyEntries(values[..i], keys)), ", ")
        invariant args == ValuesOf(NonKeyEntries(values[..i], keys))
      {
        var kv := values[i];
        ghost var e := NonKeyEntries(values[..i], keys);
        if kv.0 in keys {
          NonKeyEntriesSnoc(values, keys, i);
          assert NonKeyEntries(values[..i + 1], keys) == e + [] == e;
          i := i + 1;
          continue;
        }
        SetLoopStep(values, keys, i, head);
        if first {
          first := false;
        } else {
          cmd := cmd + ", ";
        }
        argCnt := argCnt + 1;
        cmd := cmd + kv.0 + "=@upArg" + NatToString(argCnt);
        args := args + [kv.1];
        assert cmd == head + Join(SetItems(e + [kv]), ", ");
        i := i + 1;
      }
      assert values[..i] == values;
    }

    /** The WHERE arguments copied after the SET values. */
    method AppendWhereArgs(base: seq<Value>) returns (args: seq<Value>)
      ensures args == base + whereArgs
    {
      args := base;
      var j := 0;
      while j < |whereArgs|
        invariant 0 <= j <= |whereArgs|
        invariant args == base + whereArgs[..j]
      {
        assert whereArgs[..j + 1] == whereArgs[..j] + [whereArgs[j]];
        args := args + [whereArgs[j]];
        j := j + 1;
      }
      assert whereArgs[..j] == whereArgs;
    }

    /** Delete(): the WHERE arguments are passed whether or not there is a
        WHERE text. */
    method Delete(driver: Driver) returns (r: Result<int>, st: Statement)
      ensures st == DeleteStatement(tableName, whereStr, whereArgs)
      ensures r == ExecuteNonQuery(driver, st)
    {
      var cmd := "DELETE FROM " + tableName;
      if whereStr != "" {
        cmd := cmd + " WHERE " + whereStr;
      }
      cmd := cmd + ";";
      st := Statement(cmd, whereArgs);
      r := ExecuteNonQuery(driver, st);
    }

    /** CreateSelectQuery: the clauses in their fixed order. */
    method CreateSelectQuery(isCount: bool, columns: seq<string>) returns (sql: string)
      ensures sql == SelectSql(isDistinct, isCount, columns, tableName, whereStr, groupBy, orderBy, limit, limitOffset)
    {
      var cmd := SelectHead(isCount, columns);
      sql := AppendSelectClauses(cmd);
    }

    /** The first part of CreateSelectQuery: SELECT, DISTINCT and the
        projection. */
    method SelectHead(isCount: bool, columns: seq<string>) returns (cmd: string)
      ensures cmd == "SELECT " + (if isDistinct then "DISTINCT " else "") + Projection(isCount, columns)
    {
      cmd := "SELECT ";
      if isDistinct {
        cmd := cmd + "DISTINCT ";
      }
      ghost var select := cmd;
      if isCount {
        cmd := cmd + "count(";
      }
      if |columns| < 1 {
        cmd := cmd + "*";
      } else {
        cmd := AppendJoined(cmd, columns, ", ");
      }
      if isCount {
        cmd := cmd + ")";
      }
      ghost var list := if |columns| < 1 then "*" else Join(columns, ", ");
      assert cmd == select + (if isCount then "count(" else "") + list + (if isCount then ")" else "");
    }

    /** The rest of CreateSelectQuery: FROM, then WHERE, GROUP BY, ORDER BY
        and LIMIT when present, then ';'. */
    method AppendSelectClauses(head: string) returns (cmd: string)
      ensures cmd == head + " FROM " + tableName + WhereClause(whereStr)
                     + (if groupBy == "" then "" else " GROUP BY " + groupBy)
                     + (if orderBy == "" then "" else " ORDER BY " + orderBy)
                     + LimitClause(limit, limitOffset) + ";"
    {
      cmd := head + " FROM " + tableName;
      ghost var from := cmd;
      if whereStr != "" {
        cmd := cmd + " WHERE " + whereStr;
      }
      assert cmd == from + WhereClause(whereStr);
      ghost var where := cmd;
      if groupBy != "" {
        cmd := cmd + " GROUP BY " + groupBy;
      }
      assert cmd == where + (if groupBy == "" then "" else " GROUP BY " + groupBy);
      ghost var group := cmd;
      if orderBy != "" {
        cmd := cmd + " ORDER BY " + orderBy;
      }
      assert cmd == group + (if orderBy == "" then "" else " ORDER BY " + orderBy);
      cmd := AppendLimit(cmd);
      cmd := cmd + ";";
    }

    /** The LIMIT part of CreateSelectQuery: the offset and a comma only
        when the offset is positive, all only when the count is. */
    method AppendLimit(head: string) returns (cmd: string)
      ensures cmd == head + LimitClause(limit, limitOffset)
    {
      cmd := head;
      if limit > 0 {
        cmd := cmd + " LIMIT ";
        ghost var offsetPart := "";
        if limitOffset > 0 {
          offsetPart := NatToString(limitOffset) + ",";
          cmd := cmd + NatToString(limitOffset) + ",";
        }
        assert cmd == head + " LIMIT " + offsetPart;
        ghost var count := NatToString(limit);
        cmd := cmd + NatToString(limit);
        assert cmd == head + (" LIMIT " + offsetPart + count);
      }
    }

    /** Select(columns): the query and the arguments handed to the driver
        (the WHERE arguments). */
    method Select(columns: seq<string>) returns (st: Statement)
      ensures st == SelectStatement(isDistinct, columns, tableName, whereStr, whereArgs, groupBy, orderBy, limit, limitOffset)
    {
      var cmd := CreateSelectQuery(false, columns);
      st := Statement(cmd, whereArgs);
    }

    /** Count(columns): the count query, handed to the driver with no
        arguments at all. */
    method Count(columns: seq<string>) returns (st: Statement)
      ensures st == CountStatement(isDistinct, columns, tableName, whereStr, groupBy, orderBy, limit, limitOffset)
    {
      var cmd := CreateSelectQuery(true, columns);
      st := Statement(cmd, []);
    }

    /** SelectOne(creator, columns): Limit(1), which also sets the offset
        to 0, then Select. */
    method SelectOne(columns: seq<string>) returns (st: Statement)
      modifies this`limit, this`limitOffset
      ensures limit == 1 && limitOffset == 0
      ensures st == SelectStatement(isDistinct, columns, tableName, whereStr, whereArgs, groupBy, orderBy, 1, 0)
    {
      Limit(1, 0);
      st := Select(columns);
    }

    // -------------------------------------------------------------------
    // The WHERE derived from the key columns

    /** SetWhereForCheckKey: with key columns and no WHERE, the WHERE becomes
        k=@kcArgI joined with " AND " for the key columns k of `source`, I
        the position of k among all entries, with the key values as
        arguments. */
    method SetWhereForCheckKey(source: Entries)
      modifies this`whereStr, this`whereArgs
      ensures (whereStr, whereArgs) == DerivedWhere(keys, old(whereStr), old(whereArgs), source)
    {
      var enableFillWhere := |keys| > 0 && whereStr == "";
      if !enableFillWhere {
        return;
      }
      var buffer, argList := KeyConditionLoop(source);
      Where(buffer, argList);
    }

    /** The loop shared by both copies of the key-derived WHERE. */
    method KeyConditionLoop(source: Entries) returns (buffer: string, argList: seq<Value>)
      ensures buffer == KeyWhere(source, keys) && argList == KeyArgs(source, keys)
    {
      buffer := "";
      argList := [];
      var isFirst := true;
      var i := 0;
      LoopStart(source, keys);
      while i < |source|
        invariant 0 <= i <= |source|
        invariant buffer == Join(KeyConditions(source[..i], keys), " AND ")
        invariant argList == KeyArgs(source[..i], keys)
        invariant isFirst <==> |argList| == 0
      {
        var kv := source[i];
        if kv.0 !in keys {
          KeyLoopSkip(source, keys, i);
        } else {
          KeyLoopStep(source, keys, i);
          if isFirst {
            isFirst := false;
          } else {
            buffer := buffer + " AND ";
          }
          buffer := buffer + kv.0 + "=@kcArg" + NatToString(i);
          argList := argList + [kv.1];
        }
        i := i + 1;
      }
      assert source[..i] == source;
    }

    /** GetColumns_And_SetWhereForCheckKey: the columns of `source`, in
        order; the WHERE is derived as by SetWhereForCheckKey when
        `enableFillWhere` is set and left alone otherwise. */
    method GetColumnsAndSetWhereForCheckKey(source: Entries, enableFillWhere: bool) returns (cols: array<string>)
      modifies this`whereStr, this`whereArgs
      ensures fresh(cols) && cols[..] == Columns(source)
      ensures (whereStr, whereArgs)
           == if enableFillWhere then DerivedWhere(keys, old(whereStr), old(whereArgs), source)
              else (old(whereStr), old(whereArgs))
    {
      cols := new string[|source|](_ => "");
      var fill := enableFillWhere && |keys| > 0 && whereStr == "";
      var i := 0;
      while i < |source|
        modifies cols
        invariant 0 <= i <= |source|
        invariant forall j :: 0 <= j < i ==> cols[j] == source[j].0
      {
        cols[i] := source[i].0;
        i := i + 1;
      }
      if fill {
        var buffer, argList := KeyConditionLoop(source);
        Where(buffer, argList);
      }
    }

    /** GetColumnsFromCreator: the columns only; the WHERE is not touched. */
    method GetColumnsFromCreator(source: Entries) returns (cols: array<string>)
      modifies this`whereStr, this`whereArgs
      ensures fresh(cols) && cols[..] == Columns(source)
      ensures whereStr == old(whereStr) && whereArgs == old(whereArgs)
    {
      cols := GetColumnsAndSetWhereForCheckKey(source, false);
    }

    /** SelectOne(creator): the creator's columns and, when derivable, the
        key-derived WHERE, then SelectOne with those columns. */
    method SelectOneOf(source: Entries) returns (st: Statement)
      modifies this`whereStr, this`whereArgs, this`limit, this`limitOffset
      ensures (whereStr, whereArgs) == DerivedWhere(keys, old(whereStr), old(whereArgs), source)
      ensures limit == 1 && limitOffset == 0
      ensures st == SelectStatement(isDistinct, Columns(source), tableName, whereStr, whereArgs, groupBy, orderBy, 1, 0)
    {
      var cols := GetColumnsAndSetWhereForCheckKey(source, true);
      st := SelectOne(cols[..]);
    }

    /** Select(creator): the creator's columns and, when derivable, the
        key-derived WHERE, then Select with those columns. */
    method SelectOf(source: Entries) returns (st: Statement)
      modifies this`whereStr, this`whereArgs
      ensures (whereStr, whereArgs) == DerivedWhere(keys, old(whereStr), old(whereArgs), source)
      ensures st == SelectStatement(isDistinct, Columns(source), tableName, whereStr, whereArgs, groupBy, orderBy, limit, limitOffset)
    {
      var cols := GetColumnsAndSetWhereForCheckKey(source, true);
      st := Select(cols[..]);
    }

    // -------------------------------------------------------------------
    // The row forms and the upsert

    /** Insert(row): take the row's values, then Insert(). */
    method InsertRow(driver: Driver, row: Entries) returns (r: Result<int>, st: Statement)
      modifies this`values
      ensures values == row
      ensures st == InsertStatement(tableName, row) && r == ExecuteNonQuery(driver, st)
    {
      Values(row);
      r, st := Insert(driver);
    }

    /** Update(row): take the row's values, derive the WHERE from the keys,
        then Update(). */
    method UpdateRow(driver: Driver, row: Entries) returns (r: Result<int>, st: Statement)
      modifies this`values, this`whereStr, this`whereArgs
      ensures values == row
      ensures (whereStr, whereArgs) == DerivedWhere(keys, old(whereStr), old(whereArgs), row)
      ensures st == UpdateStatement(tableName, row, keys, whereStr, whereArgs) && r == ExecuteNonQuery(driver, st)
    {
      Values(row);
      SetWhereForCheckKey(values);
      r, st := Update(driver);
    }

    /** InsertOrUpdate(): derive the WHERE; fail with "need WHERE" without
        values or WHERE; otherwise Insert, a SqliteException counting as -1,
        and Update once when the result is below 1. `issued` lists the
        statements rendered and handed to ExecuteNonQuery, in order. */
    method InsertOrUpdate(driver: Driver) returns (r: Result<int>, issued: seq<Statement>)
      modifies this`whereStr, this`whereArgs
      ensures (whereStr, whereArgs) == DerivedWhere(keys, old(whereStr), old(whereArgs), values)
      ensures UpsertRun(r, issued) == Upsert(driver, tableName, values, keys, old(whereStr), old(whereArgs))
    {
      SetWhereForCheckKey(values);
      ghost var run := Upsert(driver, tableName, values, keys, old(whereStr), old(whereArgs));
      if |values| > 0 && whereStr != "" {
        var result := -1;
        var inserted, ins := Insert(driver);
        issued := [ins];
        assert run == if FallsBack(inserted)
                      then UpsertRun(ExecuteNonQuery(driver, UpdateStatement(tableName, values, keys, whereStr, whereArgs)),
                                     [ins, UpdateStatement(tableName, values, keys, whereStr, whereArgs)])
                      else UpsertRun(inserted, [ins]);
        match inserted {
          case Ok(n) =>
            result := n;
          case Err(e) =>
            if e == DriverFailure {
              result := -1;
            } else {
              r := inserted;
              return;
            }
        }
        assert FallsBack(inserted) <==> result < 1;
        if result < 1 {
          var up;
          r, up := Update(driver);
          issued := issued + [up];
        } else {
          r := Ok(result);
        }
      } else {
        r := Err(NeedWhere);
        issued := [];
      }
    }

    /** InsertOrUpdate(row): take the row's values, then InsertOrUpdate(). */
    method InsertOrUpdateRow(driver: Driver, row: Entries) returns (r: Result<int>, issued: seq<Statement>)
      modifies this`values, this`whereStr, this`whereArgs
      ensures values == row
      ensures (whereStr, whereArgs) == DerivedWhere(keys, old(whereStr), old(whereArgs), row)
      ensures UpsertRun(r, issued) == Upsert(driver, tableName, row, keys, old(whereStr), old(whereArgs))
    {
      Values(row);
      r, issued := InsertOrUpdate(driver);
    }
  }
}
