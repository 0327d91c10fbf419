/** Positional binding of arguments to the @name placeholders of a raw
    query (the loop of SQuery.CreateCommand), and the abstract executor
    behind SQuery.ExecuteNonQuery. */
module Binding {
  import opened Types
  import opened Placeholders

  predicate Distinct(s: seq<string>)
  {
    forall i, j :: 0 <= i < j < |s| ==> s[i] != s[j]
  }

  /** The distinct names of `names`, in order of first occurrence. */
  function Dedup(names: seq<string>): seq<string>
  {
    if names == [] then []
    else
      var d := Dedup(names[..|names| - 1]);
      var x := names[|names| - 1];
      if x in d then d else d + [x]
  }

  lemma DedupSnoc(names: seq<string>, x: string)
    ensures Dedup(names + [x]) == var d := Dedup(names); if x in d then d else d + [x]
  {
    assert (names + [x])[..|names|] == names;
  }

  /** Deduplication keeps exactly the names that occur. */
  lemma {:induction false} DedupMembers(names: seq<string>)
    ensures forall x :: x in Dedup(names) <==> x in names
  {
    if names != [] {
      var front := names[..|names| - 1];
      DedupMembers(front);
      assert names == front + [names[|names| - 1]];
    }
  }

  /** Deduplication leaves no name twice. */
  lemma {:induction false} DedupDistinct(names: seq<string>)
    ensures Distinct(Dedup(names))
  {
    if names != [] {
      DedupDistinct(names[..|names| - 1]);
    }
  }

  /** The distinct names of a prefix are a prefix of the distinct names. */
  lemma {:induction false} DedupPrefix(names: seq<string>, i: nat)
    requires i <= |names|
    ensures Dedup(names[..i]) <= Dedup(names)
    decreases |names| - i
  {
    if i < |names| {
      DedupPrefix(names, i + 1);
      assert names[..i + 1] == names[..i] + [names[i]];
      DedupSnoc(names[..i], names[i]);
    } else {
      assert names[..i] == names;
    }
  }

  /** A name list that repeats nothing is its own deduplication. */
  lemma {:induction false} DedupOfDistinct(names: seq<string>)
    requires Distinct(names)
    ensures Dedup(names) == names
  {
    if names != [] {
      var front := names[..|names| - 1];
      DedupOfDistinct(front);
      assert names[|names| - 1] !in front;
      assert names == front + [names[|names| - 1]];
    }
  }

  /** Distinct names followed by names none of which occurs among them:
      the first part is kept whole, the second deduplicated on its own. */
  lemma {:induction false} DedupAppendDisjoint(p: seq<string>, w: seq<string>)
    requires Distinct(p)
    requires forall x :: x in w ==> x !in p
    ensures Dedup(p + w) == p + Dedup(w)
  {
    if w == [] {
      assert p + w == p;
      DedupOfDistinct(p);
    } else {
      var front, x := w[..|w| - 1], w[|w| - 1];
      DedupAppendDisjoint(p, front);
      assert p + w == (p + front) + [x];
      DedupSnoc(p + front, x);
      DedupMembers(front);
      assert x in p + Dedup(front) <==> x in Dedup(front);
    }
  }

  /** Names paired with the leading arguments, position by position. */
  function Zip(ns: seq<string>, vs: seq<Value>): (ps: Entries)
    requires |ns| <= |vs|
    ensures |ps| == |ns|
    ensures forall i :: 0 <= i < |ns| ==> ps[i] == (ns[i], vs[i])
  {
    seq(|ns|, i requires 0 <= i < |ns| => (ns[i], vs[i]))
  }

  lemma ZipAppend(a: seq<string>, b: seq<string>, u: seq<Value>, v: seq<Value>)
    requires |a| == |u| && |b| <= |v|
    ensures Zip(a + b, u + v) == Zip(a, u) + Zip(b, v)
  {
  }

  lemma ZipColumns(ns: seq<string>, vs: seq<Value>)
    requires |ns| <= |vs|
    ensures Columns(Zip(ns, vs)) == ns
  {
  }

  lemma ZipSnoc(ns: seq<string>, x: string, vs: seq<Value>)
    requires |ns| < |vs|
    ensures Zip(ns + [x], vs) == Zip(ns, vs) + [(x, vs[|ns|])]
  {
  }

  /** The parameters CreateCommand attaches to a command whose extracted
      names are `names`: the i-th distinct name (in order of first
      occurrence) takes args[i]; a repeated name takes nothing; more distinct
      names than arguments is the IndexOutOfRange failure. Surplus arguments
      are ignored. */
  function Bind(names: seq<string>, args: seq<Value>): Result<Entries>
  {
    var d := Dedup(names);
    if |d| <= |args| then Ok(Zip(d, args)) else Err(IndexOutOfRange)
  }

  /** A name met again consumes no argument and changes nothing. */
  lemma BindRepeated(names: seq<string>, x: string, args: seq<Value>)
    requires x in names
    ensures Bind(names + [x], args) == Bind(names, args)
  {
    DedupSnoc(names, x);
    DedupMembers(names);
  }

  /** A name met for the first time consumes the next unused argument, and
      fails when none is left. */
  lemma BindFresh(names: seq<string>, x: string, args: seq<Value>)
    requires x !in names
    ensures Bind(names + [x], args)
         == match Bind(names, args)
            case Ok(ps) => if |ps| < |args| then Ok(ps + [(x, args[|ps|])]) else Err(IndexOutOfRange)
            case Err(e) => Err(e)
  {
    DedupSnoc(names, x);
    DedupMembers(names);
    var d := Dedup(names);
    if |d| < |args| {
      assert Zip(d + [x], args) == Zip(d, args) + [(x, args[|d|])];
    }
  }

  /** The binding loop of CreateCommand: for each extracted name not yet in
      the command's parameters, take args[idx++]. */
  method BindParameters(names: seq<string>, args: seq<Value>) returns (r: Result<Entries>)
    ensures r == Bind(names, args)
  {
    var parameters: Entries := [];
    var idx := 0;
    var i := 0;
    while i < |names|
      invariant 0 <= i <= |names|
      invariant idx == |Dedup(names[..i])| <= |args|
      invariant parameters == Zip(Dedup(names[..i]), args)
    {
      var p := names[i];
      ghost var d := Dedup(names[..i]);
      assert names[..i + 1] == names[..i] + [p];
      DedupSnoc(names[..i], p);
      ZipColumns(d, args);
      if p !in Columns(parameters) {
        if idx >= |args| {
          DedupPrefix(names, i + 1);
          return Err(IndexOutOfRange);
        }
        ZipSnoc(d, p, args);
        parameters := parameters + [(p, args[idx])];
        idx := idx + 1;
      }
      i := i + 1;
    }
    assert names[..i] == names;
    r := Ok(parameters);
  }

  /** The command CreateCommand prepares for `rawQuery` and `args`. */
  function CommandFor(rawQuery: string, args: seq<Value>): Result<Command>
  {
    match Bind(Extract(rawQuery), args)
    case Ok(ps) => Ok(Command(rawQuery, ps))
    case Err(e) => Err(e)
  }

  /** CreateCommand: extract the names, then bind them. */
  method CreateCommand(rawQuery: string, args: seq<Value>) returns (r: Result<Command>)
    ensures r == CommandFor(rawQuery, args)
  {
    var paramNames := ExtractParameters(rawQuery);
    var bound := BindParameters(paramNames, args);
    match bound
    case Ok(ps) => r := Ok(Command(rawQuery, ps));
    case Err(e) => r := Err(e);
  }

  /** A prepared command names each placeholder of its text exactly once. */
  lemma CommandParameters(rawQuery: string, args: seq<Value>)
    requires CommandFor(rawQuery, args).Ok?
    ensures var ps := CommandFor(rawQuery, args).value.parameters;
            Distinct(Columns(ps)) && forall x :: x in Columns(ps) <==> x in Extract(rawQuery)
  {
    var names := Extract(rawQuery);
    DedupMembers(names);
    DedupDistinct(names);
    assert Columns(CommandFor(rawQuery, args).value.parameters) == Dedup(names);
  }

  /** ExecuteNonQuery on an abstract driver: the connection is opened first
      (a failed open is a SqliteException whatever the statement), then the
      command is prepared (binding can fail with IndexOutOfRange before
      anything is executed), then the driver answers with a row count or a
      SqliteException. */
  function ExecuteNonQuery(driver: Driver, st: Statement): (r: Result<int>)
    ensures !driver.opens ==> r == Err(DriverFailure)
    ensures r == Err(IndexOutOfRange) <==> driver.opens && |Dedup(Extract(st.text))| > |st.args|
    ensures r.Ok? ==> var c := CommandFor(st.text, st.args);
                      c.Ok? && driver.answer(c.value) == Affected(r.value)
  {
    if !driver.opens then Err(DriverFailure)
    else
      match CommandFor(st.text, st.args)
      case Err(e) => Err(e)
      case Ok(cmd) =>
        match driver.answer(cmd)
        case Affected(n) => Ok(n)
        case Failed => Err(DriverFailure)
  }

  /** A statement whose command binds is failed only by the driver. */
  lemma BoundExecutes(driver: Driver, st: Statement)
    requires CommandFor(st.text, st.args).Ok?
    ensures ExecuteNonQuery(driver, st) != Err(IndexOutOfRange)
    ensures ExecuteNonQuery(driver, st).Err? ==> ExecuteNonQuery(driver, st).error == DriverFailure
  {
  }
}
