/** The values that travel between the builder and the database driver. */
module Types {

  /** A driver argument: the dynamically typed `object` the builder passes
      positionally, as a tagged union of the kinds a row holds. */
  datatype Value =
    | Null
    | Integer(i: int)
    | Text(s: string)
    | Boolean(b: bool)
    | Blob(bytes: seq<bv8>)

  /** One row's exported columns in dictionary enumeration order
      (Dictionary<string, object>), or the builder's `values`. */
  type Entries = seq<(string, Value)>

  /** The keys of `kvs` in order. */
  function Columns(kvs: Entries): (cols: seq<string>)
    ensures |cols| == |kvs|
    ensures forall i :: 0 <= i < |kvs| ==> cols[i] == kvs[i].0
  {
    seq(|kvs|, i requires 0 <= i < |kvs| => kvs[i].0)
  }

  /** The values of `kvs` in order (Dictionary.Values). */
  function ValuesOf(kvs: Entries): (vs: seq<Value>)
    ensures |vs| == |kvs|
    ensures forall i :: 0 <= i < |kvs| ==> vs[i] == kvs[i].1
  {
    seq(|kvs|, i requires 0 <= i < |kvs| => kvs[i].1)
  }

  /** A rendered statement: SQL text plus the positional argument list it
      is executed with. */
  datatype Statement = Statement(text: string, args: seq<Value>)

  /** A prepared driver command: the SQL text and its named parameters in
      the order they were added (@name without the '@'). */
  datatype Command = Command(text: string, parameters: Entries)

  /** The failures of the core:
      IndexOutOfRange — fewer arguments than distinct placeholders;
      DriverFailure   — the driver's SqliteException (open, prepare, execute);
      NeedWhere       — InsertOrUpdate without values or without a WHERE. */
  datatype Error = IndexOutOfRange | DriverFailure | NeedWhere

  datatype Result<T> = Ok(value: T) | Err(error: Error)

  /** What the driver answers to one executed command: the affected row
      count, or a SqliteException. */
  datatype Outcome = Affected(rows: int) | Failed

  /** The database as the core sees it: whether Open() succeeds (a failed
      open is a SqliteException), and what the driver answers to each
      prepared command it executes. */
  datatype Driver = Driver(opens: bool, answer: Command -> Outcome)
}
