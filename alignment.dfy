/** What the driver receives for each rendered statement: its placeholders
    are extracted and bound to its arguments (CreateCommand), and for every
    statement TableQuery renders, the i-th generated placeholder is bound to
    the i-th argument. Table names, column names, GROUP BY and ORDER BY
    texts are assumed free of '@'; the WHERE text is the caller's and
    contributes its own names. */
module Alignment {
  import opened Text
  import opened Types
  import opened Placeholders
  import opened Binding
  import opened Render
  import opened UpsertPolicy

  /** No column name holds a placeholder. */
  predicate NoTagColumns(kvs: Entries)
  {
    forall kv :: kv in kvs ==> '@' !in kv.0
  }

  /** insArg1, ..., insArgN. */
  function InsertNames(n: nat): (ns: seq<string>)
    ensures |ns| == n && forall i :: 0 <= i < n ==> ns[i] == ArgName("insArg", i + 1)
  {
    seq(n, i requires 0 <= i < n => ArgName("insArg", i + 1))
  }

  /** upArg1, ..., upArgM. */
  function UpdateNames(m: nat): (ns: seq<string>)
    ensures |ns| == m && forall i :: 0 <= i < m ==> ns[i] == ArgName("upArg", i + 1)
  {
    seq(m, i requires 0 <= i < m => ArgName("upArg", i + 1))
  }

  /** kcArgP for each key position P. */
  function KeyNames(kvs: Entries, keys: seq<string>): (ns: seq<string>)
    ensures |ns| == |KeyPositions(kvs, keys)|
    ensures forall j :: 0 <= j < |ns| ==> ns[j] == ArgName("kcArg", KeyPositions(kvs, keys)[j])
  {
    var ps := KeyPositions(kvs, keys);
    seq(|ps|, j requires 0 <= j < |ps| => ArgName("kcArg", ps[j]))
  }

  // ---------------------------------------------------------------------
  // Generated names

  /** A generated name is a well-formed placeholder name. */
  lemma ArgNameIsName(prefix: string, n: nat)
    requires IsName(prefix)
    ensures IsName(ArgName(prefix, n))
  {
    var d := NatToString(n);
    var a := prefix + d;
    forall i | 0 <= i < |a|
      ensures IsNameChar(a[i])
    {
      if i >= |prefix| {
        assert a[i] == d[i - |prefix|];
        assert IsDigit(d[i - |prefix|]);
      }
    }
  }

  /** A tag written after some text, as the renderers concatenate it. */
  lemma TagShape(pre: string, name: string)
    ensures pre + Tag(name) == pre + "@" + name
  {
  }

  /** The three prefixes the renderers number. */
  lemma PrefixesAreNames()
    ensures IsName("insArg") && IsName("upArg") && IsName("kcArg")
  {
    assert IsNameChar('i') && IsNameChar('n') && IsNameChar('s') && IsNameChar('A') && IsNameChar('r')
        && IsNameChar('g') && IsNameChar('u') && IsNameChar('p') && IsNameChar('k') && IsNameChar('c');
  }

  /** Distinct numbers give distinct names. */
  lemma ArgNameInjective(prefix: string, m: nat, n: nat)
    requires ArgName(prefix, m) == ArgName(prefix, n)
    ensures m == n
  {
    assert ArgName(prefix, m)[|prefix|..] == NatToString(m);
    assert ArgName(prefix, n)[|prefix|..] == NatToString(n);
    NatToStringInjective(m, n);
  }

  lemma InsertNamesDistinct(n: nat)
    ensures Distinct(InsertNames(n))
  {
    var ns := InsertNames(n);
    forall i, j | 0 <= i < j < n
      ensures ns[i] != ns[j]
    {
      if ns[i] == ns[j] {
        ArgNameInjective("insArg", i + 1, j + 1);
      }
    }
  }

  lemma UpdateNamesDistinct(m: nat)
    ensures Distinct(UpdateNames(m))
  {
    var ns := UpdateNames(m);
    forall i, j | 0 <= i < j < m
      ensures ns[i] != ns[j]
    {
      if ns[i] == ns[j] {
        ArgNameInjective("upArg", i + 1, j + 1);
      }
    }
  }

  lemma KeyNamesDistinct(kvs: Entries, keys: seq<string>)
    ensures Distinct(KeyNames(kvs, keys))
  {
    var ns := KeyNames(kvs, keys);
    var ps := KeyPositions(kvs, keys);
    KeyPositionsExact(kvs, keys);
    forall i, j | 0 <= i < j < |ns|
      ensures ns[i] != ns[j]
    {
      assert ps[i] < ps[j];
      if ns[i] == ns[j] {
        ArgNameInjective("kcArg", ps[i], ps[j]);
      }
    }
  }

  /** The numbers rendered into the text hold no '@'. */
  lemma NumberHasNoTag(n: nat)
    ensures '@' !in NatToString(n)
  {
    var s := NatToString(n);
    forall i | 0 <= i < |s|
      ensures s[i] != '@'
    {
      assert IsDigit(s[i]);
    }
  }

  // ---------------------------------------------------------------------
  // The names each statement's text yields

  /** The fixed words of the rendered statements hold no '@'. */
  lemma KeywordsHaveNoTag()
    ensures '@' !in "INSERT INTO " && '@' !in "(" && '@' !in ") VALUES(" && '@' !in " VALUES("
    ensures '@' !in "UPDATE " && '@' !in " SET " && '@' !in " WHERE " && '@' !in "DELETE FROM "
    ensures '@' !in ""
  {
  }

  lemma NoTagConcat(a: string, b: string, c: string)
    requires '@' !in a && '@' !in b && '@' !in c
    ensures '@' !in a + b + c
  {
  }

  /** A WHERE clause followed by a terminator contributes the WHERE text's
      names. */
  lemma WhereTail(acc: seq<string>, w: string, t: string)
    requires |t| > 0 && Ends(t[0]) && '@' !in t
    ensures Scan(Idle(acc), WhereClause(w) + t) == Idle(acc + Closed(w))
  {
    if w == "" {
      assert WhereClause(w) + t == t;
      ScanPlain(Idle(acc), t);
      assert Closed(w) == [];
      assert acc + [] == acc;
    } else {
      assert WhereClause(w) + t == " WHERE " + (w + t);
      KeywordsHaveNoTag();
      ScanSkip(Idle(acc), " WHERE ", w + t);
      ScanTerminated(acc, w, t);
    }
  }

  /** The INSERT text yields insArg1 .. insArgN, one per value. */
  lemma ExtractInsert(table: string, kvs: Entries)
    requires '@' !in table && NoTagColumns(kvs)
    ensures Extract(InsertStatement(table, kvs).text) == InsertNames(|kvs|)
  {
    var n := |kvs|;
    var cols := Join(Columns(kvs), ", ");
    JoinAvoids(Columns(kvs), ", ", '@');
    KeywordsHaveNoTag();
    var pre := "INSERT INTO " + table + "(" + cols + ") VALUES(";
    NoTagConcat("INSERT INTO ", table, "(");
    NoTagConcat("INSERT INTO " + table + "(", cols, ") VALUES(");
    var list := Join(InsertPlaceholders(n), ", ");
    assert InsertStatement(table, kvs).text == pre + (list + ");");
    ScanSkip(Start, pre, list + ");");
    InsertList(n, ");");
  }

  /** The generated placeholder list @insArg1, ..., @insArgN. */
  lemma InsertList(n: nat, t: string)
    requires |t| > 0 && Ends(t[0]) && '@' !in t
    ensures Scan(Start, Join(InsertPlaceholders(n), ", ") + t) == Idle(InsertNames(n))
  {
    var items := InsertPlaceholders(n);
    var pres := seq(n, i requires 0 <= i < n => "");
    var ns := InsertNames(n);
    forall i | 0 <= i < |items|
      ensures items[i] == pres[i] + "@" + ns[i]
    {
      TagShape("", ns[i]);
    }
    PrefixesAreNames();
    forall i | 0 <= i < |items|
      ensures '@' !in pres[i] && IsName(ns[i])
    {
      ArgNameIsName("insArg", i + 1);
    }
    ScanTaggedList([], items, pres, ns, ", ", t);
    assert [] + ns == ns;
  }

  /** The INSERT of Insert(params values) yields insArg1 .. insArgN too. */
  lemma ExtractInsertValues(table: string, vs: seq<Value>)
    requires '@' !in table
    ensures Extract(InsertValuesStatement(table, vs).text) == InsertNames(|vs|)
  {
    var pre := "INSERT INTO " + table + " VALUES(";
    KeywordsHaveNoTag();
    NoTagConcat("INSERT INTO ", table, " VALUES(");
    var list := Join(InsertPlaceholders(|vs|), ", ");
    assert InsertValuesStatement(table, vs).text == pre + (list + ");");
    ScanSkip(Start, pre, list + ");");
    InsertList(|vs|, ");");
  }

  /** Dropping the key columns keeps the column names free of '@'. */
  lemma NonKeyColumnsHaveNoTag(kvs: Entries, keys: seq<string>)
    requires NoTagColumns(kvs)
    ensures NoTagColumns(NonKeyEntries(kvs, keys))
  {
    NonKeyEntriesMembers(kvs, keys);
  }

  /** The generated SET list col=@upArg1, ... of entries `e`. */
  lemma SetList(e: Entries, acc: seq<string>, t: string)
    requires NoTagColumns(e)
    requires |t| > 0 && Ends(t[0]) && '@' !in t
    ensures Scan(Idle(acc), Join(SetItems(e), ", ") + t) == Idle(acc + UpdateNames(|e|))
  {
    var m := |e|;
    var items := SetItems(e);
    var pres := seq(m, i requires 0 <= i < m => e[i].0 + "=");
    var ns := UpdateNames(m);
    forall i | 0 <= i < |items|
      ensures items[i] == pres[i] + "@" + ns[i]
    {
      TagShape(e[i].0 + "=", ns[i]);
    }
    PrefixesAreNames();
    forall i | 0 <= i < |items|
      ensures '@' !in pres[i] && IsName(ns[i])
    {
      assert e[i] in e;
      ArgNameIsName("upArg", i + 1);
    }
    ScanTaggedList(acc, items, pres, ns, ", ", t);
  }

  /** The SET list followed by the WHERE clause and ';'. */
  lemma SetListThenWhere(e: Entries, w: string)
    requires NoTagColumns(e)
    ensures Scan(Start, Join(SetItems(e), ", ") + (WhereClause(w) + ";")) == Idle(UpdateNames(|e|) + Closed(w))
  {
    var list := Join(SetItems(e), ", ");
    var ns := UpdateNames(|e|);
    if w == "" {
      assert list + (WhereClause(w) + ";") == list + ";";
      SetList(e, [], ";");
      assert Closed(w) == [];
      assert [] + ns == ns + [];
    } else {
      assert list + (WhereClause(w) + ";") == (list + " WHERE ") + (w + ";");
      ScanAppend(Start, list + " WHERE ", w + ";");
      SetList(e, [], " WHERE ");
      assert [] + ns == ns;
      ScanTerminated(ns, w, ";");
    }
  }

  /** The UPDATE text yields upArg1 .. upArgM for the M non-key columns,
      then the names of the WHERE text. */
  lemma ExtractUpdate(table: string, kvs: Entries, keys: seq<string>, w: string, wargs: seq<Value>)
    requires '@' !in table && NoTagColumns(kvs)
    ensures Extract(UpdateStatement(table, kvs, keys, w, wargs).text)
         == UpdateNames(|NonKeyEntries(kvs, keys)|) + Closed(w)
  {
    var e := NonKeyEntries(kvs, keys);
    NonKeyColumnsHaveNoTag(kvs, keys);
    var head := "UPDATE " + table + " SET ";
    KeywordsHaveNoTag();
    NoTagConcat("UPDATE ", table, " SET ");
    var list := Join(SetItems(e), ", ");
    var rest := WhereClause(w) + ";";
    assert UpdateStatement(table, kvs, keys, w, wargs).text == head + list + WhereClause(w) + ";";
    Regroup3(head, list, WhereClause(w), ";");
    ScanSkip(Start, head, list + rest);
    SetListThenWhere(e, w);
  }

  /** The DELETE text yields the names of the WHERE text. */
  lemma ExtractDelete(table: string, w: string, wargs: seq<Value>)
    requires '@' !in table
    ensures Extract(DeleteStatement(table, w, wargs).text) == Closed(w)
  {
    var head := "DELETE FROM " + table;
    KeywordsHaveNoTag();
    NoTagConcat("DELETE FROM ", table, "");
    assert head + "" == head;
    assert DeleteStatement(table, w, wargs).text == head + (WhereClause(w) + ";");
    ScanSkip(Start, head, WhereClause(w) + ";");
    WhereTail([], w, ";");
    assert [] + Closed(w) == Closed(w);
  }

  /** What follows the WHERE clause of a SELECT is a terminator. */
  lemma SelectTail(groupBy: string, orderBy: string, limit: int, offset: int)
    requires '@' !in groupBy && '@' !in orderBy
    ensures var t := (if groupBy == "" then "" else " GROUP BY " + groupBy)
                     + (if orderBy == "" then "" else " ORDER BY " + orderBy)
                     + LimitClause(limit, offset) + ";";
            |t| > 0 && Ends(t[0]) && '@' !in t
  {
    var g := if groupBy == "" then "" else " GROUP BY " + groupBy;
    var o := if orderBy == "" then "" else " ORDER BY " + orderBy;
    var l := LimitClause(limit, offset);
    if limit > 0 {
      NumberHasNoTag(limit);
      if offset > 0 {
        NumberHasNoTag(offset);
      }
    }
    assert '@' !in l;
    var t := g + o + l + ";";
    assert t[0] == if g != "" then g[0] else if o != "" then o[0] else if l != "" then l[0] else ';';
  }

  /** The part of a SELECT before its WHERE clause holds no '@'. */
  lemma SelectHeadHasNoTag(isDistinct: bool, isCount: bool, columns: seq<string>, table: string)
    requires '@' !in table
    requires forall i :: 0 <= i < |columns| ==> '@' !in columns[i]
    ensures '@' !in "SELECT " + (if isDistinct then "DISTINCT " else "") + Projection(isCount, columns) + " FROM " + table
  {
    JoinAvoids(columns, ", ", '@');
    assert '@' !in Projection(isCount, columns);
  }

  /** Moving the parentheses of a left-nested concatenation. */
  lemma Regroup(h: string, a: string, b: string, c: string, d: string, e: string)
    ensures h + a + b + c + d + e == h + (a + (b + c + d + e))
  {
    assert h + a + b + c + d + e == h + a + (b + c + d + e);
  }

  lemma Regroup3(h: string, a: string, b: string, c: string)
    ensures h + a + b + c == h + (a + (b + c))
  {
  }

  /** The SELECT (and count) text yields the names of the WHERE text. */
  lemma ExtractSelect(isDistinct: bool, isCount: bool, columns: seq<string>, table: string, w: string,
                      groupBy: string, orderBy: string, limit: int, offset: int)
    requires '@' !in table && '@' !in groupBy && '@' !in orderBy
    requires forall i :: 0 <= i < |columns| ==> '@' !in columns[i]
    ensures Extract(SelectSql(isDistinct, isCount, columns, table, w, groupBy, orderBy, limit, offset)) == Closed(w)
  {
    var head := "SELECT " + (if isDistinct then "DISTINCT " else "") + Projection(isCount, columns) + " FROM " + table;
    SelectHeadHasNoTag(isDistinct, isCount, columns, table);
    var g := if groupBy == "" then "" else " GROUP BY " + groupBy;
    var o := if orderBy == "" then "" else " ORDER BY " + orderBy;
    var t := g + o + LimitClause(limit, offset) + ";";
    SelectTail(groupBy, orderBy, limit, offset);
    var wc := WhereClause(w);
    assert SelectSql(isDistinct, isCount, columns, table, w, groupBy, orderBy, limit, offset)
        == head + wc + g + o + LimitClause(limit, offset) + ";";
    Regroup(head, wc, g, o, LimitClause(limit, offset), ";");
    ScanSkip(Start, head, wc + t);
    WhereTail([], w, t);
    assert [] + Closed(w) == Closed(w);
  }

  /** The derived WHERE yields kcArgP for each key position P. */
  lemma KeyWhereNames(kvs: Entries, keys: seq<string>)
    requires NoTagColumns(kvs)
    ensures Closed(KeyWhere(kvs, keys)) == KeyNames(kvs, keys)
  {
    var ps := KeyPositions(kvs, keys);
    var cs := KeyConditions(kvs, keys);
    var ns := KeyNames(kvs, keys);
    var pres := seq(|ps|, j requires 0 <= j < |ps| => kvs[ps[j]].0 + "=");
    forall j | 0 <= j < |cs|
      ensures cs[j] == pres[j] + "@" + ns[j]
    {
      TagShape(kvs[ps[j]].0 + "=", ns[j]);
    }
    PrefixesAreNames();
    forall j | 0 <= j < |cs|
      ensures '@' !in pres[j] && IsName(ns[j])
    {
      assert kvs[ps[j]] in kvs;
      ArgNameIsName("kcArg", ps[j]);
    }
    ScanTaggedList([], cs, pres, ns, " AND ", ";");
    assert [] + ns == ns;
    ClosedIsExtractTerminated(KeyWhere(kvs, keys), ";");
  }

  // ---------------------------------------------------------------------
  // Binding: the i-th placeholder takes the i-th argument

  /** Insert(): the i-th column's value is bound to insArg(i+1). */
  lemma InsertBinds(table: string, kvs: Entries)
    requires '@' !in table && NoTagColumns(kvs)
    ensures var st := InsertStatement(table, kvs);
            var r := CommandFor(st.text, st.args);
            && r.Ok? && |r.value.parameters| == |kvs|
            && forall i :: 0 <= i < |kvs| ==> r.value.parameters[i] == (ArgName("insArg", i + 1), kvs[i].1)
  {
    ExtractInsert(table, kvs);
    InsertNamesDistinct(|kvs|);
    DedupOfDistinct(InsertNames(|kvs|));
  }

  /** Insert(params values): the i-th value is bound to insArg(i+1). */
  lemma InsertValuesBinds(table: string, vs: seq<Value>)
    requires '@' !in table
    ensures var st := InsertValuesStatement(table, vs);
            var r := CommandFor(st.text, st.args);
            && r.Ok? && |r.value.parameters| == |vs|
            && forall i :: 0 <= i < |vs| ==> r.value.parameters[i] == (ArgName("insArg", i + 1), vs[i])
  {
    ExtractInsertValues(table, vs);
    InsertNamesDistinct(|vs|);
    DedupOfDistinct(InsertNames(|vs|));
  }

  /** Update(): the K-th non-key value is bound to upArgK; the WHERE names
      (none of which is an upArg name) are bound to the WHERE arguments as
      they would be on their own. */
  lemma UpdateBinds(table: string, kvs: Entries, keys: seq<string>, w: string, wargs: seq<Value>)
    requires '@' !in table && NoTagColumns(kvs)
    requires forall x :: x in Closed(w) ==> x !in UpdateNames(|NonKeyEntries(kvs, keys)|)
    ensures var st := UpdateStatement(table, kvs, keys, w, wargs);
            var e := NonKeyEntries(kvs, keys);
            CommandFor(st.text, st.args)
            == match Bind(Closed(w), if w == "" then [] else wargs)
               case Ok(ps) => Ok(Command(st.text, Zip(UpdateNames(|e|), ValuesOf(e)) + ps))
               case Err(err) => Err(err)
  {
    var e := NonKeyEntries(kvs, keys);
    var u := UpdateNames(|e|);
    var c := Closed(w);
    var a := if w == "" then [] else wargs;
    ExtractUpdate(table, kvs, keys, w, wargs);
    UpdateNamesDistinct(|e|);
    DedupAppendDisjoint(u, c);
    if |Dedup(c)| <= |a| {
      ZipAppend(u, Dedup(c), ValuesOf(e), a);
    }
  }

  /** The WHERE fragment of the counterexample below names upArg1. */
  lemma UpArgOneClosed()
    ensures Closed("x=@upArg1") == [ArgName("upArg", 1)]
  {
    var st := ScanState(true, "", []);
    assert "x=@upArg1" == "x=" + "@upArg1" && "upArg1" == "upArg" + "1";
    ScanSkip(Start, "x=", "@upArg1");
    assert Scan(Start, "@upArg1") == Scan(st, "upArg1");
    PrefixesAreNames();
    ScanAppend(st, "upArg", "1");
    ScanNameChars("", [], "upArg");
    assert Scan(ScanState(true, "upArg", []), "1") == ScanState(true, "upArg1", []);
    assert Scan(Start, "x=@upArg1") == ScanState(true, "upArg1", []);
    assert DigitChar(1) == '1';
    assert ArgName("upArg", 1) == "upArg1";
  }

  /** Without the requirement above, a WHERE that names a generated name is
      bound to that name's SET value: with `w` as `x=@upArg1` (see
      UpArgOneClosed), x is compared with the value of the first SET column,
      and the WHERE's own arguments are never bound. */
  lemma UpdateWhereCapturesSetName(table: string, col: string, v: Value, w: string, wargs: seq<Value>)
    requires '@' !in table && '@' !in col
    requires Closed(w) == [ArgName("upArg", 1)]
    ensures var st := UpdateStatement(table, [(col, v)], [], w, wargs);
            CommandFor(st.text, st.args) == Ok(Command(st.text, [(ArgName("upArg", 1), v)]))
  {
    var kvs: Entries := [(col, v)];
    var n := ArgName("upArg", 1);
    assert NoTagColumns(kvs);
    ExtractUpdate(table, kvs, [], w, wargs);
    assert NonKeyEntries(kvs, []) == kvs;
    assert UpdateNames(1) == [n];
    DedupSnoc([n], n);
    var st := UpdateStatement(table, kvs, [], w, wargs);
    assert Extract(st.text) == [n] + [n];
    assert Dedup([n] + [n]) == [n];
    assert st.args[0] == v;
    assert Bind(Extract(st.text), st.args) == Ok(Zip([n], st.args));
    assert Zip([n], st.args) == [(n, v)];
  }

  /** Delete(): the WHERE names are bound to the WHERE arguments. */
  lemma DeleteBinds(table: string, w: string, wargs: seq<Value>)
    requires '@' !in table
    ensures var st := DeleteStatement(table, w, wargs);
            CommandFor(st.text, st.args)
            == match Bind(Closed(w), wargs)
               case Ok(ps) => Ok(Command(st.text, ps))
               case Err(err) => Err(err)
  {
    ExtractDelete(table, w, wargs);
  }

  /** Select(columns): the WHERE names are bound to the WHERE arguments. */
  lemma SelectBinds(isDistinct: bool, columns: seq<string>, table: string, w: string, wargs: seq<Value>,
                    groupBy: string, orderBy: string, limit: int, offset: int)
    requires '@' !in table && '@' !in groupBy && '@' !in orderBy
    requires forall i :: 0 <= i < |columns| ==> '@' !in columns[i]
    ensures var st := SelectStatement(isDistinct, columns, table, w, wargs, groupBy, orderBy, limit, offset);
            CommandFor(st.text, st.args)
            == match Bind(Closed(w), wargs)
               case Ok(ps) => Ok(Command(st.text, ps))
               case Err(err) => Err(err)
  {
    ExtractSelect(isDistinct, false, columns, table, w, groupBy, orderBy, limit, offset);
  }

  /** The derived WHERE: kcArgP is bound to the value of the key column at
      position P, for every key column. */
  lemma KeyWhereBinds(kvs: Entries, keys: seq<string>)
    requires NoTagColumns(kvs)
    ensures var r := Bind(Closed(KeyWhere(kvs, keys)), KeyArgs(kvs, keys));
            var ps := KeyPositions(kvs, keys);
            && r.Ok? && |r.value| == |ps|
            && forall j :: 0 <= j < |ps| ==> r.value[j] == (ArgName("kcArg", ps[j]), kvs[ps[j]].1)
  {
    var ns, vs := KeyNames(kvs, keys), KeyArgs(kvs, keys);
    KeyWhereNames(kvs, keys);
    KeyNamesDistinct(kvs, keys);
    DedupOfDistinct(ns);
    assert Bind(Closed(KeyWhere(kvs, keys)), vs) == Ok(Zip(ns, vs));
  }

  /** No kcArg name is an upArg name. */
  lemma KeyNamesAreNotUpdateNames(kvs: Entries, keys: seq<string>, m: nat)
    ensures forall x :: x in KeyNames(kvs, keys) ==> x !in UpdateNames(m)
  {
    var ks := KeyNames(kvs, keys);
    var us := UpdateNames(m);
    forall j, i | 0 <= j < |ks| && 0 <= i < m
      ensures ks[j] != us[i]
    {
      assert ks[j][0] == 'k' && us[i][0] == 'u';
    }
  }

  /** The update InsertOrUpdate falls back to, on the key-derived WHERE,
      binds. */
  lemma KeyUpdateBinds(table: string, kvs: Entries, keys: seq<string>)
    requires '@' !in table && NoTagColumns(kvs)
    ensures var st := UpdateStatement(table, kvs, keys, KeyWhere(kvs, keys), KeyArgs(kvs, keys));
            CommandFor(st.text, st.args).Ok?
  {
    var w, a := KeyWhere(kvs, keys), KeyArgs(kvs, keys);
    KeyWhereNames(kvs, keys);
    KeyNamesAreNotUpdateNames(kvs, keys, |NonKeyEntries(kvs, keys)|);
    UpdateBinds(table, kvs, keys, w, a);
    KeyWhereBinds(kvs, keys);
  }

  /** InsertOrUpdate on the key-derived WHERE never runs out of arguments:
      the insert binds every value and the update binds every non-key value
      and every key value. When some value's column is a key, the only
      possible failure is the driver's (a failed open or a SqliteException);
      when none is, the WHERE stays empty and the call fails with "need
      WHERE". */
  lemma UpsertOnKeysBinds(driver: Driver, table: string, kvs: Entries, keys: seq<string>,
                          wargs: seq<Value>)
    requires '@' !in table && NoTagColumns(kvs) && |keys| > 0
    ensures Upsert(driver, table, kvs, keys, "", wargs).result != Err(IndexOutOfRange)
    ensures var r := Upsert(driver, table, kvs, keys, "", wargs).result;
            (exists i :: 0 <= i < |kvs| && kvs[i].0 in keys) ==> (r.Err? ==> r.error == DriverFailure)
    ensures var r := Upsert(driver, table, kvs, keys, "", wargs).result;
            (forall i :: 0 <= i < |kvs| ==> kvs[i].0 !in keys) ==> r == Err(NeedWhere)
  {
    KeyWhereEmpty(kvs, keys);
    InsertBinds(table, kvs);
    BoundExecutes(driver, InsertStatement(table, kvs));
    KeyUpdateBinds(table, kvs, keys);
    BoundExecutes(driver, UpdateStatement(table, kvs, keys, KeyWhere(kvs, keys), KeyArgs(kvs, keys)));
  }

  // ---------------------------------------------------------------------
  // Count executes without the WHERE arguments

  /** Count as written fails as soon as its WHERE text names a placeholder:
      the WHERE is rendered but no argument is passed. */
  lemma CountShortOfArguments(isDistinct: bool, columns: seq<string>, table: string, w: string,
                              groupBy: string, orderBy: string, limit: int, offset: int)
    requires '@' !in table && '@' !in groupBy && '@' !in orderBy
    requires forall i :: 0 <= i < |columns| ==> '@' !in columns[i]
    requires Closed(w) != []
    ensures var st := CountStatement(isDistinct, columns, table, w, groupBy, orderBy, limit, offset);
            CommandFor(st.text, st.args) == Err(IndexOutOfRange)
  {
    ExtractSelect(isDistinct, true, columns, table, w, groupBy, orderBy, limit, offset);
    DedupMembers(Closed(w));
    assert Closed(w)[0] in Dedup(Closed(w));
  }

  /** A WHERE that names one placeholder. */
  lemma ClosedOfOneTag(w: string)
    requires w == "id=@id"
    ensures Closed(w) == ["id"]
  {
    assert w == "id=" + ("@" + "id");
    ScanAppend(Start, "id=", "@" + "id");
    ScanPlain(Start, "id=");
    assert Scan(Start, "@" + "id") == Scan(ScanState(true, "", []), "id");
    ScanNameChars("", [], "id");
    assert "" + "id" == "id";
  }

  /** The counterexample: Count on WHERE id=@id with argument 1 fails,
      while Select on the same state binds id to 1. */
  lemma CountWithWhereExample(w: string, wargs: seq<Value>)
    requires w == "id=@id" && wargs == [Integer(1)]
    ensures var st := CountStatement(false, [], "t", w, "", "", 0, 0);
            CommandFor(st.text, st.args) == Err(IndexOutOfRange)
    ensures var st := SelectStatement(false, [], "t", w, wargs, "", "", 0, 0);
            CommandFor(st.text, st.args) == Ok(Command(st.text, [("id", Integer(1))]))
  {
    ClosedOfOneTag(w);
    CountShortOfArguments(false, [], "t", w, "", "", 0, 0);
    SelectBinds(false, [], "t", w, wargs, "", "", 0, 0);
    assert Dedup(["id"]) == ["id"] by {
      assert ["id"][..0] == [];
    }
    assert Zip(["id"], wargs) == [("id", Integer(1))];
  }

  /** The count query with the WHERE arguments passed, as Select passes
      them. */
  function CountStatementWithArgs(isDistinct: bool, columns: seq<string>, table: string, w: string, wargs: seq<Value>,
                                  groupBy: string, orderBy: string, limit: int, offset: int): Statement
  {
    Statement(SelectSql(isDistinct, true, columns, table, w, groupBy, orderBy, limit, offset), wargs)
  }

  /** With the arguments passed, the count query binds exactly as the
      select query on the same state does. */
  lemma CountBindsLikeSelect(isDistinct: bool, columns: seq<string>, table: string, w: string, wargs: seq<Value>,
                             groupBy: string, orderBy: string, limit: int, offset: int)
    requires '@' !in table && '@' !in groupBy && '@' !in orderBy
    requires forall i :: 0 <= i < |columns| ==> '@' !in columns[i]
    ensures var c := CountStatementWithArgs(isDistinct, columns, table, w, wargs, groupBy, orderBy, limit, offset);
            var s := SelectStatement(isDistinct, columns, table, w, wargs, groupBy, orderBy, limit, offset);
            Bind(Extract(c.text), c.args) == Bind(Extract(s.text), s.args)
  {
    ExtractSelect(isDistinct, true, columns, table, w, groupBy, orderBy, limit, offset);
    ExtractSelect(isDistinct, false, columns, table, w, groupBy, orderBy, limit, offset);
  }
}
