/** How the SQLite driver binds a JavaScript value as a statement parameter,
    how an INTEGER key column compares with it, and the outcome of a
    statement. */
module Sql {
  import opened Js

  /** The failure of a database call, with the driver's message. */
  datatype DbError = DbError(message: string)

  datatype Result<T> = Success(value: T) | Failure(error: DbError)

  /** The SQL value a parameter binds as: `undefined` and `NaN` become
      NULL, a boolean becomes 1 or 0, numbers and strings are kept. */
  function Bind(v: JsVal): (r: JsVal)
    ensures r != Undefined && !r.NaN? && !r.Bool?
    ensures v.Num? || v.Str? || v.Obj? ==> r == v
  {
    match v
    case Undefined => Null
    case NaN => Null
    case Bool(b) => Num(if b then 1 else 0)
    case _ => v
  }

  /** The canonical decimal spelling of an integer, if `s` is one. */
  function CanonicalInt(s: string): (r: Option<int>)
    ensures r.Some? ==> s == DecimalString(r.value)
  {
    var p := ParseIntString(s);
    if p.Num? && DecimalString(p.n) == s then Some(p.n) else None
  }

  /** The row id that `WHERE id = ?` matches for a bound parameter: a
      number, a boolean as 1/0, or a string spelling an integer (the
      column's INTEGER affinity converts it); every other value matches no
      row. */
  function RowKey(v: JsVal): (r: Option<int>)
    ensures v.Num? ==> r == Some(v.n)
    ensures v.Undefined? || v.Null? || v.NaN? || v.Obj? ==> r.None?
    ensures r.Some? && v.Str? ==> v.s == DecimalString(r.value)
  {
    match Bind(v)
    case Num(n) => Some(n)
    case Str(s) => CanonicalInt(s)
    case _ => None
  }

  /** An integer id sent as its decimal string finds the same row as the
      number: `String(id)` and `id` are the same key. */
  lemma RowKeyDecimal(n: int)
    ensures RowKey(Str(DecimalString(n))) == Some(n)
  {
    ParseIntDecimal(n);
  }

  /** The value an INTEGER column stores for a bound parameter. */
  function IntegerAffinity(v: JsVal): (r: JsVal)
    ensures RowKey(v).Some? ==> r == Num(RowKey(v).value)
    ensures RowKey(v).None? ==> r == Bind(v)
  {
    match RowKey(v)
    case Some(n) => Num(n)
    case None => Bind(v)
  }

  /** Reading a stored INTEGER value back as a key gives the key it was
      stored under. */
  lemma {:induction false} IntegerAffinityKey(v: JsVal)
    ensures RowKey(IntegerAffinity(v)) == RowKey(v)
  {
    if RowKey(v).None? {
      match Bind(v)
      case Str(s) => {
        assert RowKey(Bind(v)) == CanonicalInt(s);
        assert Bind(Bind(v)) == Bind(v);
      }
      case _ => {}
    }
  }
}
