/** The SQL text TableQuery renders from its state, as pure functions of that
    state, with the properties of the pieces. */
module Render {
  import opened Text
  import opened Types

  /** A placeholder in the text: '@' and the name. */
  function Tag(name: string): string
  {
    "@" + name
  }

  /** A generated placeholder name: a prefix and a number (insArg1, kcArg0). */
  function ArgName(prefix: string, n: nat): string
  {
    prefix + NatToString(n)
  }

  // ---------------------------------------------------------------------
  // INSERT

  /** @insArg1, ..., @insArgN: one placeholder per value, numbered from 1. */
  function InsertPlaceholders(n: nat): (ps: seq<string>)
    ensures |ps| == n
    ensures forall i :: 0 <= i < n ==> ps[i] == Tag(ArgName("insArg", i + 1))
  {
    seq(n, i requires 0 <= i < n => Tag(ArgName("insArg", i + 1)))
  }

  /** Insert(params values): no column list. */
  function InsertValuesStatement(table: string, vs: seq<Value>): Statement
  {
    Statement("INSERT INTO " + table + " VALUES(" + Join(InsertPlaceholders(|vs|), ", ") + ");", vs)
  }

  /** Insert(): the column list and the placeholder list both follow the
      order of the values, and so do the arguments. */
  function InsertStatement(table: string, kvs: Entries): Statement
  {
    Statement("INSERT INTO " + table + "(" + Join(Columns(kvs), ", ") + ") VALUES("
              + Join(InsertPlaceholders(|kvs|), ", ") + ");",
              ValuesOf(kvs))
  }

  // ---------------------------------------------------------------------
  // UPDATE and DELETE

  /** The entries whose column is not a key, in order. */
  function NonKeyEntries(kvs: Entries, keys: seq<string>): Entries
  {
    if kvs == [] then []
    else
      var last := kvs[|kvs| - 1];
      NonKeyEntries(kvs[..|kvs| - 1], keys) + (if last.0 in keys then [] else [last])
  }

  /** The SET list: col=@upArgK, K counting the non-key columns from 1. */
  function SetItems(entries: Entries): (items: seq<string>)
    ensures |items| == |entries|
  {
    seq(|entries|, i requires 0 <= i < |entries| => entries[i].0 + "=" + Tag(ArgName("upArg", i + 1)))
  }

  /** " WHERE w" when there is a WHERE text, nothing otherwise. */
  function WhereClause(w: string): string
  {
    if w == "" then "" else " WHERE " + w
  }

  /** Update(): the non-key columns are set; the arguments are their values
      followed by the WHERE arguments, which are passed only when there is a
      WHERE text. */
  function UpdateStatement(table: string, kvs: Entries, keys: seq<string>, w: string, wargs: seq<Value>): Statement
  {
    var entries := NonKeyEntries(kvs, keys);
    Statement("UPDATE " + table + " SET " + Join(SetItems(entries), ", ") + WhereClause(w) + ";",
              ValuesOf(entries) + (if w == "" then [] else wargs))
  }

  /** Delete(): the WHERE arguments are always passed. */
  function DeleteStatement(table: string, w: string, wargs: seq<Value>): Statement
  {
    Statement("DELETE FROM " + table + WhereClause(w) + ";", wargs)
  }

  // ---------------------------------------------------------------------
  // The WHERE derived from the key columns

  /** The positions in `kvs` of the entries whose column is a key. */
  function KeyPositions(kvs: Entries, keys: seq<string>): (ps: seq<nat>)
    ensures forall j :: 0 <= j < |ps| ==> ps[j] < |kvs|
  {
    if kvs == [] then []
    else
      var n := |kvs| - 1;
      KeyPositions(kvs[..n], keys) + (if kvs[n].0 in keys then [n] else [])
  }

  /** k=@kcArgI for each key column k, I its position among all values. */
  function KeyConditions(kvs: Entries, keys: seq<string>): (cs: seq<string>)
    ensures |cs| == |KeyPositions(kvs, keys)|
  {
    var ps := KeyPositions(kvs, keys);
    seq(|ps|, j requires 0 <= j < |ps| => kvs[ps[j]].0 + "=" + Tag(ArgName("kcArg", ps[j])))
  }

  /** The values of the key columns, in order. */
  function KeyArgs(kvs: Entries, keys: seq<string>): (vs: seq<Value>)
    ensures |vs| == |KeyPositions(kvs, keys)|
  {
    var ps := KeyPositions(kvs, keys);
    seq(|ps|, j requires 0 <= j < |ps| => kvs[ps[j]].1)
  }

  /** The derived WHERE text: the key conditions joined with " AND ". */
  function KeyWhere(kvs: Entries, keys: seq<string>): string
  {
    Join(KeyConditions(kvs, keys), " AND ")
  }

  /** The key columns of a prefix: those of the shorter prefix and, when the
      next column is a key, that one. */
  lemma KeyPositionsSnoc(kvs: Entries, keys: seq<string>, i: nat)
    requires i < |kvs|
    ensures KeyPositions(kvs[..i + 1], keys)
         == KeyPositions(kvs[..i], keys) + (if kvs[i].0 in keys then [i] else [])
  {
    assert kvs[..i + 1][..i] == kvs[..i];
  }

  lemma KeyConditionsSnoc(kvs: Entries, keys: seq<string>, i: nat)
    requires i < |kvs|
    ensures KeyConditions(kvs[..i + 1], keys)
         == KeyConditions(kvs[..i], keys) + (if kvs[i].0 in keys then [kvs[i].0 + "=" + Tag(ArgName("kcArg", i))] else [])
    ensures KeyArgs(kvs[..i + 1], keys)
         == KeyArgs(kvs[..i], keys) + (if kvs[i].0 in keys then [kvs[i].1] else [])
  {
    KeyPositionsSnoc(kvs, keys, i);
  }

  lemma NonKeyEntriesSnoc(kvs: Entries, keys: seq<string>, i: nat)
    requires i < |kvs|
    ensures NonKeyEntries(kvs[..i + 1], keys)
         == NonKeyEntries(kvs[..i], keys) + (if kvs[i].0 in keys then [] else [kvs[i]])
  {
    assert kvs[..i + 1][..i] == kvs[..i];
  }

  /** The non-key entries are entries of the map whose column is not a key,
      and every such entry is among them. */
  lemma {:induction false} NonKeyEntriesMembers(kvs: Entries, keys: seq<string>)
    ensures forall j :: 0 <= j < |NonKeyEntries(kvs, keys)| ==>
              NonKeyEntries(kvs, keys)[j] in kvs && NonKeyEntries(kvs, keys)[j].0 !in keys
    ensures forall i :: 0 <= i < |kvs| && kvs[i].0 !in keys ==> kvs[i] in NonKeyEntries(kvs, keys)
  {
    if kvs != [] {
      var n := |kvs| - 1;
      NonKeyEntriesMembers(kvs[..n], keys);
      assert kvs == kvs[..n] + [kvs[n]];
    }
  }

  /** The key positions are exactly the positions of the key columns, in
      increasing order. */
  lemma {:induction false} KeyPositionsExact(kvs: Entries, keys: seq<string>)
    ensures forall j :: 0 <= j < |KeyPositions(kvs, keys)| ==> kvs[KeyPositions(kvs, keys)[j]].0 in keys
    ensures forall j, k :: 0 <= j < k < |KeyPositions(kvs, keys)| ==> KeyPositions(kvs, keys)[j] < KeyPositions(kvs, keys)[k]
    ensures forall i :: 0 <= i < |kvs| && kvs[i].0 in keys ==> i in KeyPositions(kvs, keys)
  {
    if kvs != [] {
      var n := |kvs| - 1;
      KeyPositionsExact(kvs[..n], keys);
      var front := KeyPositions(kvs[..n], keys);
      var ps := KeyPositions(kvs, keys);
      assert ps == front + (if kvs[n].0 in keys then [n] else []);
      forall j | 0 <= j < |ps|
        ensures kvs[ps[j]].0 in keys
      {
        if j < |front| {
          assert ps[j] == front[j];
          assert kvs[..n][front[j]].0 in keys;
          assert kvs[..n][front[j]] == kvs[front[j]];
        }
      }
      forall i | 0 <= i < |kvs| && kvs[i].0 in keys
        ensures i in ps
      {
        if i < n {
          assert kvs[..n][i] == kvs[i];
        }
      }
    }
  }

  // ---------------------------------------------------------------------
  // SELECT and COUNT

  /** The projection: the columns joined with ", ", or '*' when there are
      none, wrapped in count(...) for Count. */
  function Projection(isCount: bool, columns: seq<string>): string
  {
    (if isCount then "count(" else "")
    + (if |columns| < 1 then "*" else Join(columns, ", "))
    + (if isCount then ")" else "")
  }

  /** " LIMIT [offset,]count" when the count is positive; the offset only
      when it is positive. */
  function LimitClause(limit: int, offset: int): string
  {
    if limit > 0 then " LIMIT " + (if offset > 0 then NatToString(offset) + "," else "") + NatToString(limit)
    else ""
  }

  /** CreateSelectQuery: the clauses in their fixed order. */
  function SelectSql(isDistinct: bool, isCount: bool, columns: seq<string>, table: string,
                     w: string, groupBy: string, orderBy: string, limit: int, offset: int): string
  {
    "SELECT " + (if isDistinct then "DISTINCT " else "") + Projection(isCount, columns)
    + " FROM " + table + WhereClause(w)
    + (if groupBy == "" then "" else " GROUP BY " + groupBy)
    + (if orderBy == "" then "" else " ORDER BY " + orderBy)
    + LimitClause(limit, offset) + ";"
  }

  /** Select(columns): the query goes to the driver with the WHERE
      arguments. */
  function SelectStatement(isDistinct: bool, columns: seq<string>, table: string, w: string, wargs: seq<Value>,
                           groupBy: string, orderBy: string, limit: int, offset: int): Statement
  {
    Statement(SelectSql(isDistinct, false, columns, table, w, groupBy, orderBy, limit, offset), wargs)
  }

  /** Count(columns): the count query renders the WHERE text but goes to
      the driver with no arguments. */
  function CountStatement(isDistinct: bool, columns: seq<string>, table: string, w: string,
                          groupBy: string, orderBy: string, limit: int, offset: int): Statement
  {
    Statement(SelectSql(isDistinct, true, columns, table, w, groupBy, orderBy, limit, offset), [])
  }

  /** Reading the text after " LIMIT " back: an optional offset before a
      comma, then the count. */
  function ReadLimit(s: string): (int, int)
  {
    if ',' in s then
      var k := IndexOf(s, ',');
      (ReadNumber(s[..k]), ReadNumber(s[k + 1..]))
    else (0, ReadNumber(s))
  }

  function IndexOf(s: string, c: char): (k: nat)
    requires c in s
    ensures k < |s| && s[k] == c
    ensures forall j :: 0 <= j < k ==> s[j] != c
  {
    if s[0] == c then 0
    else
      assert c in s[1..] by { assert s == [s[0]] + s[1..]; }
      1 + IndexOf(s[1..], c)
  }

  /** A run of digits as a number; anything else reads as -1. */
  function ReadNumber(s: string): int
  {
    if forall i :: 0 <= i < |s| ==> IsDigit(s[i]) then ParseNat(s) else -1
  }

  predicate AllDigits(s: string)
  {
    forall i :: 0 <= i < |s| ==> IsDigit(s[i])
  }

  lemma DigitsHaveNoComma(s: string)
    requires AllDigits(s)
    ensures ',' !in s
  {
    forall i | 0 <= i < |s| ensures s[i] != ',' {
      assert IsDigit(s[i]);
    }
  }

  /** The first occurrence is the one before which `c` does not occur. */
  lemma {:induction false} IndexOfFirst(s: string, c: char, k: nat)
    requires k < |s| && s[k] == c
    requires forall j :: 0 <= j < k ==> s[j] != c
    ensures c in s && IndexOf(s, c) == k
  {
    if k > 0 {
      assert s[1..][k - 1] == c;
      IndexOfFirst(s[1..], c, k - 1);
    }
  }

  /** A concatenation splits back into its parts. */
  lemma SplitAt(p: string, q: string)
    ensures (p + q)[..|p|] == p && (p + q)[|p|..] == q
  {
  }

  /** An offset, a comma and a count read back as the two numbers. */
  lemma ReadLimitPair(o: string, l: string)
    requires AllDigits(o) && AllDigits(l)
    ensures ReadLimit(o + "," + l) == (ParseNat(o), ParseNat(l))
  {
    var rest := o + ("," + l);
    assert o + "," + l == rest;
    DigitsHaveNoComma(o);
    SplitAt(o, "," + l);
    forall j | 0 <= j < |o| ensures rest[j] != ',' {
      assert rest[j] == o[j];
    }
    IndexOfFirst(rest, ',', |o|);
    assert rest[|o| + 1..] == l;
  }

  /** A count alone reads back with offset 0. */
  lemma ReadLimitSingle(l: string)
    requires AllDigits(l)
    ensures ReadLimit(l) == (0, ParseNat(l))
  {
    DigitsHaveNoComma(l);
  }

  /** The numbers after " LIMIT ": "offset,count", or the count alone. */
  function LimitNumbers(limit: nat, offset: int): string
  {
    if offset > 0 then NatToString(offset) + "," + NatToString(limit) else NatToString(limit)
  }

  lemma LimitClauseShape(limit: int, offset: int)
    requires limit > 0
    ensures LimitClause(limit, offset) == " LIMIT " + LimitNumbers(limit, offset)
  {
  }

  lemma LimitNumbersReadBack(limit: nat, offset: int)
    ensures ReadLimit(LimitNumbers(limit, offset)) == (if offset > 0 then offset else 0, limit)
  {
    ParseNatToString(limit);
    if offset > 0 {
      ParseNatToString(offset);
      ReadLimitPair(NatToString(offset), NatToString(limit));
    } else {
      ReadLimitSingle(NatToString(limit));
    }
  }

  /** The LIMIT clause carries back what Limit(count, offset) stored: the
      count when positive, and the offset when positive and 0 otherwise. */
  lemma LimitClauseReadsBack(limit: int, offset: int)
    requires limit > 0
    ensures |LimitClause(limit, offset)| > 7
    ensures LimitClause(limit, offset)[..7] == " LIMIT "
    ensures ReadLimit(LimitClause(limit, offset)[7..]) == (if offset > 0 then offset else 0, limit)
  {
    var rest := LimitNumbers(limit, offset);
    LimitClauseShape(limit, offset);
    SplitAt(" LIMIT ", rest);
    LimitNumbersReadBack(limit, offset);
  }

  /** Limit(10, 20) renders as LIMIT 20,10, offset first. */
  lemma LimitOffsetFirst(limit: int, offset: int)
    requires limit == 10 && offset == 20
    ensures LimitClause(limit, offset) == " LIMIT 20,10"
  {
    assert NatToString(20) == "20" by {
      assert NatToString(2) == "2";
      assert NatToString(20) == NatToString(2) + [DigitChar(0)];
    }
    assert NatToString(10) == "10" by {
      assert NatToString(1) == "1";
      assert NatToString(10) == NatToString(1) + [DigitChar(0)];
    }
  }

  // ---------------------------------------------------------------------
  // ORDER BY and WhereAnd

  /** One ORDER BY term: the field and its direction. */
  function OrderByTerm(field: string, asc: bool): string
  {
    field + (if asc then " ASC" else " DESC")
  }

  /** OrderBy(field, asc) appends a term, with ", " when the clause is not
      empty. */
  function OrderByAppended(orderBy: string, field: string, asc: bool): string
  {
    (if orderBy == "" then "" else orderBy + ", ") + OrderByTerm(field, asc)
  }

  /** The ORDER BY clause of a list of (field, ascending) terms. */
  function OrderByList(terms: seq<(string, bool)>): string
  {
    Join(seq(|terms|, i requires 0 <= i < |terms| => OrderByTerm(terms[i].0, terms[i].1)), ", ")
  }

  /** OrderBy calls started from an empty clause build the comma-joined
      list of their terms, in call order. */
  lemma OrderByAccumulates(terms: seq<(string, bool)>, field: string, asc: bool)
    ensures OrderByAppended(OrderByList(terms), field, asc) == OrderByList(terms + [(field, asc)])
  {
    var parts := seq(|terms|, i requires 0 <= i < |terms| => OrderByTerm(terms[i].0, terms[i].1));
    var t := terms + [(field, asc)];
    var parts' := seq(|t|, i requires 0 <= i < |t| => OrderByTerm(t[i].0, t[i].1));
    assert parts' == parts + [OrderByTerm(field, asc)];
    JoinSnoc(parts, ", ", OrderByTerm(field, asc));
    if terms != [] {
      assert |OrderByList(terms)| > 0 by {
        JoinNonEmpty(parts, ", ");
      }
    }
  }

  lemma {:induction false} JoinNonEmpty(parts: seq<string>, sep: string)
    requires |parts| > 0 && |parts[|parts| - 1]| > 0
    ensures |Join(parts, sep)| > 0
  {
  }

  /** WhereAnd(c, cargs): on an empty WHERE text it is Where("(" + c + ")",
      cargs); otherwise " AND (c)" is appended and cargs follow the
      existing arguments. */
  function WhereAnded(w: string, wargs: seq<Value>, c: string, cargs: seq<Value>): (string, seq<Value>)
  {
    if w == "" then ("(" + c + ")", cargs) else (w + " AND (" + c + ")", wargs + cargs)
  }

  /** Conditions and their arguments, ANDed in order by WhereAnd starting
      from an empty WHERE. */
  function WhereAndAll(conds: seq<(string, seq<Value>)>): (string, seq<Value>)
  {
    if conds == [] then ("", [])
    else
      var prev := WhereAndAll(conds[..|conds| - 1]);
      var last := conds[|conds| - 1];
      WhereAnded(prev.0, prev.1, last.0, last.1)
  }

  function Parenthesised(conds: seq<(string, seq<Value>)>): seq<string>
  {
    seq(|conds|, i requires 0 <= i < |conds| => "(" + conds[i].0 + ")")
  }

  function AllArgs(conds: seq<(string, seq<Value>)>): seq<Value>
  {
    if conds == [] then [] else AllArgs(conds[..|conds| - 1]) + conds[|conds| - 1].1
  }

  /** A chain of WhereAnd calls on an empty WHERE gives (c1) AND (c2) AND ...
      with the arguments of each call after those of the calls before it. */
  lemma {:induction false} WhereAndChain(conds: seq<(string, seq<Value>)>)
    ensures WhereAndAll(conds) == (Join(Parenthesised(conds), " AND "), AllArgs(conds))
  {
    if conds != [] {
      var front, last := conds[..|conds| - 1], conds[|conds| - 1];
      WhereAndChain(front);
      var p := "(" + last.0 + ")";
      assert Parenthesised(conds) == Parenthesised(front) + [p];
      JoinSnoc(Parenthesised(front), " AND ", p);
      if front != [] {
        JoinNonEmpty(Parenthesised(front), " AND ");
        var w := Join(Parenthesised(front), " AND ");
        assert w + " AND (" + last.0 + ")" == w + " AND " + p;
      } else {
        assert AllArgs(front) == [];
        assert AllArgs(conds) == last.1;
        assert Join(Parenthesised(conds), " AND ") == p;
      }
    }
  }
}
