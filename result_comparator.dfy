/**
 * `compareResults` of services/resultComparator.js: both sides normalized,
 * then a row count check, then a row-by-row `deepEqual` in order.
 */
module ResultComparator {
  import opened Wrappers
  import opened JsValues
  import opened ResultNormalizer

  /**
   * What a client may send as expected output: a falsy value, a string of
   * JSON text, or any other (truthy, non-string) value, array or not.
   */
  datatype Expected = Falsy | Text(s: string) | Value(v: Input)

  /** `JSON.parse` stands outside the model: `None` where it throws, else the parsed value. */
  type JsonParser = string -> Option<Input>

  const InvalidJsonMessage: string := "Expected output must be valid JSON"
  const NotArrayMessage: string := "Expected output must be an array"
  const RowCountMismatch: string := "Row count mismatch"
  const RowDataMismatch: string := "Row data mismatch"

  /** The result object: `{passed: true}`, or a failure with a reason and both normalized sides. */
  datatype Verdict = Passed | Failed(reason: string, expected: seq<Row>, actual: seq<Row>)

  // ---------------------------------------------------------------------
  // normalizeExpected

  /** After the optional parse: only an array is accepted, and it is normalized. */
  function ExpectArray(v: Input): (r: Result<seq<Row>>)
    ensures v.NotArray? <==> r == Err(NotArrayMessage)
    ensures v.Array? ==> r == Ok(Normalized(v))
  {
    if v.NotArray? then Err(NotArrayMessage) else Ok(Normalized(v))
  }

  /** `normalizeExpected`: falsy gives no rows; text is parsed first; a non-array throws. */
  function NormalizeExpected(expected: Expected, parse: JsonParser): Result<seq<Row>> {
    match expected
    case Falsy => Ok([])
    case Text(s) =>
      if s == [] then Ok([])
      else
        (match parse(s)
         case None => Err(InvalidJsonMessage)
         case Some(v) => ExpectArray(v))
    case Value(v) => ExpectArray(v)
  }

  /** The falsy values, the empty string among them, give an empty result set. */
  lemma FalsyExpectedEmpty(parse: JsonParser)
    ensures NormalizeExpected(Falsy, parse) == Ok([])
    ensures NormalizeExpected(Text(""), parse) == Ok([])
  {
  }

  /** Expected text that does not parse, or parses to a non-array, is an error and not a verdict. */
  lemma ExpectedTextErrors(s: string, parse: JsonParser)
    requires s != []
    ensures parse(s).None? ==> NormalizeExpected(Text(s), parse) == Err(InvalidJsonMessage)
    ensures parse(s) == Some(NotArray) ==> NormalizeExpected(Text(s), parse) == Err(NotArrayMessage)
    ensures parse(s).Some? && parse(s).value.Array? ==>
              NormalizeExpected(Text(s), parse) == Ok(Normalized(parse(s).value))
  {
  }

  /** `normalizeExpected` fails exactly with one of its two messages, and otherwise gives normalized rows. */
  lemma NormalizeExpectedOutcomes(expected: Expected, parse: JsonParser)
    ensures NormalizeExpected(expected, parse).Err? ==>
              NormalizeExpected(expected, parse).message in {InvalidJsonMessage, NotArrayMessage}
    ensures NormalizeExpected(expected, parse).Err? <==>
              match expected
              case Falsy => false
              case Text(s) => s != [] && (parse(s).None? || parse(s).value.NotArray?)
              case Value(v) => v.NotArray?
  {
  }

  // ---------------------------------------------------------------------
  // valueEqual and deepEqual

  /** The absolute tolerance on numbers, `1e-6`. */
  const Tolerance: real := 0.000001

  function Abs(x: real): real {
    if x < 0.0 then -x else x
  }

  /** `valueEqual`: strict equality, except that two numbers closer than the tolerance are equal. */
  function ValueEqual(a: Value, b: Value): bool {
    if a == b then true
    else if a.Null? || b.Null? then a == b
    else if a.Num? && b.Num? then Abs(a.n - b.n) < Tolerance
    else a == b
  }

  /** Null equals only null; numbers are equal within the tolerance; everything else needs `===`. */
  lemma ValueEqualMeaning(a: Value, b: Value)
    ensures a.Null? ==> (ValueEqual(a, b) <==> b.Null?)
    ensures a.Num? && b.Num? ==> (ValueEqual(a, b) <==> -Tolerance < a.n - b.n < Tolerance)
    ensures !(a.Num? && b.Num?) ==> (ValueEqual(a, b) <==> a == b)
  {
  }

  lemma ValueEqualSymmetric(a: Value, b: Value)
    ensures ValueEqual(a, b) == ValueEqual(b, a)
  {
  }

  /**
   * `deepEqual`: as many keys on both sides, each key of `a` present in `b`,
   * and the two values at it `valueEqual`.
   */
  predicate DeepEqual(a: Row, b: Row) {
    && |a.Keys| == |b.Keys|
    && forall key | key in a.Keys :: key in b && ValueEqual(a[key], b[key])
  }

  lemma SubsetSameSize<T>(s: set<T>, t: set<T>)
    requires s <= t && |s| == |t|
    ensures s == t
  {
    var rest := t - s;
    assert t == s + rest;
    assert s * rest == {};
  }

  /** Rows that are `deepEqual` have the same key set and `valueEqual` values at every key. */
  lemma DeepEqualMeaning(a: Row, b: Row)
    ensures DeepEqual(a, b) <==> a.Keys == b.Keys && forall key | key in a :: ValueEqual(a[key], b[key])
  {
    if DeepEqual(a, b) {
      assert a.Keys <= b.Keys;
      SubsetSameSize(a.Keys, b.Keys);
    }
  }

  lemma DeepEqualSymmetric(a: Row, b: Row)
    ensures DeepEqual(a, b) == DeepEqual(b, a)
  {
    DeepEqualMeaning(a, b);
    DeepEqualMeaning(b, a);
    forall key | key in a && key in b
      ensures ValueEqual(a[key], b[key]) == ValueEqual(b[key], a[key])
    {
      ValueEqualSymmetric(a[key], b[key]);
    }
  }

  lemma DeepEqualReflexive(a: Row)
    ensures DeepEqual(a, a)
  {
  }

  // ---------------------------------------------------------------------
  // compareResults

  /** The row-by-row loop from index `i` on: true when no row from there on differs. */
  function RowsEqualFrom(expected: seq<Row>, actual: seq<Row>, i: nat): bool
    requires |expected| == |actual|
    decreases |expected| - i
  {
    if i >= |expected| then true
    else if !DeepEqual(expected[i], actual[i]) then false
    else RowsEqualFrom(expected, actual, i + 1)
  }

  /** The loop returns true exactly when every position from `i` on is `deepEqual`. */
  lemma {:induction false} RowsEqualFromMeaning(expected: seq<Row>, actual: seq<Row>, i: nat)
    requires |expected| == |actual|
    ensures RowsEqualFrom(expected, actual, i) <==>
              forall j | i <= j < |expected| :: DeepEqual(expected[j], actual[j])
    decreases |expected| - i
  {
    if i < |expected| {
      RowsEqualFromMeaning(expected, actual, i + 1);
    }
  }

  /** The two normalized sides compared: count first, then the rows in order. */
  function Judge(expected: seq<Row>, actual: seq<Row>): Verdict {
    if |actual| != |expected| then Failed(RowCountMismatch, expected, actual)
    else if !RowsEqualFrom(expected, actual, 0) then Failed(RowDataMismatch, expected, actual)
    else Passed
  }

  /** `compareResults`: normalize the actual rows, then the expected ones (which may throw), then compare. */
  function CompareResults(expected: Expected, actual: Input, parse: JsonParser): Result<Verdict> {
    var normalizedActual := Normalized(actual);
    match NormalizeExpected(expected, parse)
    case Err(message) => Err(message)
    case Ok(normalizedExpected) => Ok(Judge(normalizedExpected, normalizedActual))
  }

  /** Different row counts fail with "Row count mismatch", carrying both normalized sides. */
  lemma CountMismatchFails(expected: Expected, actual: Input, parse: JsonParser)
    requires NormalizeExpected(expected, parse).Ok?
    requires |NormalizeExpected(expected, parse).value| != |Normalized(actual)|
    ensures CompareResults(expected, actual, parse) ==
              Ok(Failed(RowCountMismatch, NormalizeExpected(expected, parse).value, Normalized(actual)))
  {
  }

  /** Equal counts with some position not `deepEqual` fail with "Row data mismatch". */
  lemma DataMismatchFails(expected: Expected, actual: Input, parse: JsonParser, i: int)
    requires NormalizeExpected(expected, parse).Ok?
    requires |NormalizeExpected(expected, parse).value| == |Normalized(actual)|
    requires 0 <= i < |Normalized(actual)|
    requires !DeepEqual(NormalizeExpected(expected, parse).value[i], Normalized(actual)[i])
    ensures CompareResults(expected, actual, parse) ==
              Ok(Failed(RowDataMismatch, NormalizeExpected(expected, parse).value, Normalized(actual)))
  {
    RowsEqualFromMeaning(NormalizeExpected(expected, parse).value, Normalized(actual), 0);
  }

  /** The comparison passes exactly when the counts agree and every position is `deepEqual`. */
  lemma PassedMeaning(expected: Expected, actual: Input, parse: JsonParser)
    ensures CompareResults(expected, actual, parse) == Ok(Passed) <==>
              && NormalizeExpected(expected, parse).Ok?
              && var e := NormalizeExpected(expected, parse).value;
                 var a := Normalized(actual);
                 |e| == |a| && forall i | 0 <= i < |a| :: DeepEqual(e[i], a[i])
  {
    if NormalizeExpected(expected, parse).Ok? {
      var e := NormalizeExpected(expected, parse).value;
      if |e| == |Normalized(actual)| {
        RowsEqualFromMeaning(e, Normalized(actual), 0);
      }
    }
  }

  /** A failed run's `null` output or any other non-array counts as no rows. */
  lemma NonArrayActualEmpty(expected: Expected, parse: JsonParser)
    requires NormalizeExpected(expected, parse).Ok?
    ensures CompareResults(expected, NotArray, parse) ==
              if NormalizeExpected(expected, parse).value == [] then Ok(Passed)
              else Ok(Failed(RowCountMismatch, NormalizeExpected(expected, parse).value, []))
  {
  }

  /** A falsy expected output matches exactly the actual outputs with no rows. */
  lemma FalsyExpectedMatchesEmpty(actual: Input, parse: JsonParser)
    ensures CompareResults(Falsy, actual, parse) == Ok(Passed) <==> Normalized(actual) == []
  {
  }

  /** Any array of rows compared with itself passes, given directly or as JSON text that parses to it. */
  lemma SelfComparePasses(rows: seq<Row>, s: string, parse: JsonParser)
    ensures CompareResults(Value(Array(rows)), Array(rows), parse) == Ok(Passed)
    ensures s != [] && parse(s) == Some(Array(rows)) ==>
              CompareResults(Text(s), Array(rows), parse) == Ok(Passed)
  {
    var n := Normalized(Array(rows));
    forall i | 0 <= i < |n| ensures DeepEqual(n[i], n[i]) {
      DeepEqualReflexive(n[i]);
    }
    RowsEqualFromMeaning(n, n, 0);
  }
}
