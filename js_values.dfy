/**
 * The JavaScript values that flow through result rows: what SQLite returns
 * for a column and what `JSON.parse` yields for expected output.
 */
module JsValues {
  import opened JsStrings
  import opened Wrappers

  /**
   * One JavaScript value. JavaScript has a single number type, so every
   * number is `Num` over the reals. Objects, arrays and buffers are `Ref`:
   * `===` compares them by identity, which `id` stands for.
   */
  datatype Value = Null | Undefined | Num(n: real) | Str(s: string) | Bool(b: bool) | Ref(id: nat)

  /** A row object: column name to value. */
  type Row = map<string, Value>

  /** `row[key]`: `undefined` when the row has no such key. */
  function Lookup(row: Row, key: string): (v: Value)
    ensures key !in row ==> v == Undefined
    ensures key in row ==> v == row[key]
  {
    if key in row then row[key] else Undefined
  }

  /** `ToNumber` on the values that have a number: numbers, and booleans as 0 or 1. */
  function Numeric(v: Value): Option<real> {
    match v
    case Num(n) => Some(n)
    case Bool(b) => Some(if b then 1.0 else 0.0)
    case _ => None
  }

  /**
   * `x < y` for the values it is defined on here: two strings compare by
   * code point (see StrLt), numbers and booleans numerically. Everything else (undefined,
   * references) converts to NaN or is not modelled and is not less.
   */
  predicate JsLess(x: Value, y: Value) {
    if x.Str? && y.Str? then StrLt(x.s, y.s)
    else if Numeric(x).Some? && Numeric(y).Some? then Numeric(x).value < Numeric(y).value
    else false
  }

  /** Two values of one kind that `<` orders totally, or a null on one side. */
  predicate Comparable(x: Value, y: Value) {
    || x == y || x.Null? || y.Null?
    || (x.Num? && y.Num?) || (x.Str? && y.Str?) || (x.Bool? && y.Bool?)
  }

  lemma JsLessIrreflexive(x: Value)
    ensures !JsLess(x, x)
  {
    if x.Str? {
      StrLtTrichotomy(x.s, x.s);
    }
  }

  lemma JsLessAsymmetric(x: Value, y: Value)
    ensures JsLess(x, y) ==> !JsLess(y, x)
  {
    if x.Str? && y.Str? {
      StrLtTrichotomy(x.s, y.s);
    }
  }

  lemma JsLessTransitive(x: Value, y: Value, z: Value)
    requires JsLess(x, y) && JsLess(y, z)
    ensures JsLess(x, z)
  {
    if x.Str? && y.Str? && z.Str? {
      StrLtTransitive(x.s, y.s, z.s);
    }
  }

  /** On comparable, distinct, non-null values one of the two is less. */
  lemma JsLessTotal(x: Value, y: Value)
    requires Comparable(x, y) && x != y && !x.Null? && !y.Null?
    ensures JsLess(x, y) || JsLess(y, x)
  {
    if x.Str? && y.Str? {
      StrLtTrichotomy(x.s, y.s);
    }
  }
}
