/**
 * `normalizeResult` of services/resultNormalizer.js: canonical column
 * names, canonical values, and rows sorted by `rowComparator`, so that two
 * result sets can be compared position by position.
 */
module ResultNormalizer {
  import opened JsStrings
  import opened JsValues
  import opened Sorting

  /** What `normalizeResult` receives: an array of row objects, or any other value. */
  datatype Input = Array(rows: seq<Row>) | NotArray

  // ---------------------------------------------------------------------
  // normalizeColumnName

  /** `s.replace(/[^\w]/g, "")`: the word characters of `s`, in order. */
  function KeepWordChars(s: string): (r: string)
    ensures |r| <= |s|
    ensures forall i | 0 <= i < |r| :: IsWordChar(r[i]) && r[i] in s
    ensures (forall i | 0 <= i < |s| :: IsWordChar(s[i])) ==> r == s
    decreases |s|
  {
    if s == [] then []
    else if IsWordChar(s[0]) then
      var rest := KeepWordChars(s[1..]);
      assert forall i | 1 <= i < 1 + |rest| :: ([s[0]] + rest)[i] == rest[i - 1];
      [s[0]] + rest
    else KeepWordChars(s[1..])
  }

  /** One character is kept exactly when it is a word character. */
  lemma KeepWordCharsChar(ch: char)
    ensures KeepWordChars([ch]) == if IsWordChar(ch) then [ch] else []
  {
    assert [ch][1..] == [];
  }

  /** The filter works character by character: it distributes over concatenation. */
  lemma {:induction false} KeepWordCharsAppend(s: string, t: string)
    ensures KeepWordChars(s + t) == KeepWordChars(s) + KeepWordChars(t)
    decreases |s|
  {
    if s != [] {
      var head := if IsWordChar(s[0]) then [s[0]] else [];
      KeepWordCharsStep(s, t);
      KeepWordCharsAppend(s[1..], t);
      PrependAssoc(head, KeepWordChars(s[1..]), KeepWordChars(t), KeepWordChars(s));
    } else {
      assert s + t == t && KeepWordChars(s) == [];
    }
  }

  /** The first character of `s` is kept or dropped alike in `s` and in `s + t`. */
  lemma KeepWordCharsStep(s: string, t: string)
    requires s != []
    ensures KeepWordChars(s) == (if IsWordChar(s[0]) then [s[0]] else []) + KeepWordChars(s[1..])
    ensures KeepWordChars(s + t) == (if IsWordChar(s[0]) then [s[0]] else []) + KeepWordChars(s[1..] + t)
  {
    assert (s + t)[0] == s[0] && (s + t)[1..] == s[1..] + t;
  }

  /** The characters a normalized column name is made of: `[a-z0-9_]`. */
  predicate IsNameChar(c: char) {
    ('a' <= c <= 'z') || ('0' <= c <= '9') || c == '_'
  }

  predicate IsName(s: string) {
    forall i | 0 <= i < |s| :: IsNameChar(s[i])
  }

  /** `normalizeColumnName`: trim, lower-case, each whitespace run to `_`, drop the rest of `[^\w]`. */
  function NormalizeColumnName(name: string): (r: string)
    ensures IsName(r)
  {
    NormalizeColumnNameChars(name);
    KeepWordChars(ReplaceSpaceRuns(Lower(Trim(name)), '_'))
  }

  lemma {:induction false} NormalizeColumnNameChars(name: string)
    ensures IsName(KeepWordChars(ReplaceSpaceRuns(Lower(Trim(name)), '_')))
  {
    var lowered := Lower(Trim(name));
    var underscored := ReplaceSpaceRuns(lowered, '_');
    var r := KeepWordChars(underscored);
    ReplaceSpaceRunsChars(lowered, '_');
    forall i | 0 <= i < |r| ensures IsNameChar(r[i]) {
      assert r[i] in underscored;
      var j :| 0 <= j < |underscored| && underscored[j] == r[i];
      if underscored[j] != '_' {
        var m :| 0 <= m < |lowered| && lowered[m] == underscored[j];
        LowerCharKeepsClasses(Trim(name)[m]);
      }
    }
  }

  /** A name is its own normal form exactly when it is made of `[a-z0-9_]`. */
  lemma {:induction false} NormalizeColumnNameFixpoints(name: string)
    ensures NormalizeColumnName(name) == name <==> IsName(name)
  {
    if IsName(name) {
      NameUnchanged(name);
    }
  }

  /** Each step of NormalizeColumnName leaves a name of `[a-z0-9_]` as it is. */
  lemma NameUnchanged(name: string)
    requires IsName(name)
    ensures NormalizeColumnName(name) == name
  {
    forall i | 0 <= i < |name| ensures !IsSpace(name[i]) && LowerChar(name[i]) == name[i] {
      SpaceNotWord(name[i]);
    }
    TrimUnspaced(name);
    assert Lower(name) == name;
    ReplaceSpaceRunsUnspaced(name, '_');
    assert forall i | 0 <= i < |name| :: IsWordChar(name[i]);
  }

  /** Normalizing a normalized name changes nothing. */
  lemma {:induction false} NormalizeColumnNameIdempotent(name: string)
    ensures NormalizeColumnName(NormalizeColumnName(name)) == NormalizeColumnName(name)
  {
    NormalizeColumnNameFixpoints(NormalizeColumnName(name));
  }

  // ---------------------------------------------------------------------
  // normalizeValue

  /** `Number.isInteger`. */
  predicate IsInteger(x: real) {
    x.Floor as real == x
  }

  const Scale: real := 1000000.0

  /** Beyond this magnitude `toFixed` gives the number's own string back. */
  const FixedLimit: real := 1000000000000000000000.0

  /** The integer nearest to `y`, halves away from zero, as `toFixed` picks its digits. */
  function RoundHalfAway(y: real): (n: int)
    ensures -0.5 <= n as real - y <= 0.5
  {
    if y >= 0.0 then (y + 0.5).Floor else -((-y + 0.5).Floor)
  }

  /** `Number(x.toFixed(6))`, on exact reals. */
  function Round6(x: real): (r: real)
    ensures -0.0000005 <= r - x <= 0.0000005
  {
    if x >= FixedLimit || x <= -FixedLimit then x
    else RoundHalfAway(x * Scale) as real / Scale
  }

  lemma {:induction false} RoundHalfAwayOfInteger(n: int)
    ensures RoundHalfAway(n as real) == n
  {
  }

  /** Rounding a rounded number changes nothing. */
  lemma {:induction false} Round6Idempotent(x: real)
    ensures Round6(Round6(x)) == Round6(x)
  {
    if -FixedLimit < x < FixedLimit {
      var n := RoundHalfAway(x * Scale);
      assert Round6(x) * Scale == n as real;
      RoundHalfAwayOfInteger(n);
    }
  }

  /** A value as `normalizeValue` leaves it. */
  predicate NormalValue(v: Value) {
    match v
    case Undefined => false
    case Num(x) => IsInteger(x) || Round6(x) == x
    case Str(s) => Trim(s) == s
    case _ => true
  }

  /**
   * `normalizeValue`: null and undefined become null, integers stay,
   * other numbers are rounded to six decimals, strings are trimmed, and
   * anything else passes through.
   */
  function NormalizeValue(v: Value): (r: Value)
    ensures r.Null? <==> v.Null? || v.Undefined?
    ensures v.Num? ==> r.Num? && -0.0000005 <= r.n - v.n <= 0.0000005
    ensures v.Num? && IsInteger(v.n) ==> r == v
    ensures v.Str? ==> r.Str? && r.s == Trim(v.s)
    ensures v.Bool? || v.Ref? ==> r == v
  {
    match v
    case Null => Null
    case Undefined => Null
    case Num(x) => if IsInteger(x) then v else Num(Round6(x))
    case Str(s) => Str(Trim(s))
    case _ => v
  }

  /** The values `normalizeValue` leaves alone are exactly the normal ones. */
  lemma {:induction false} NormalizeValueFixpoints(v: Value)
    ensures NormalizeValue(v) == v <==> NormalValue(v)
  {
  }

  /** `normalizeValue` always yields a normal value, so applying it twice is applying it once. */
  lemma {:induction false} NormalizeValueIdempotent(v: Value)
    ensures NormalValue(NormalizeValue(v))
    ensures NormalizeValue(NormalizeValue(v)) == NormalizeValue(v)
  {
    match v
    case Num(x) =>
      if !IsInteger(x) {
        Round6Idempotent(x);
      }
    case Str(s) =>
      TrimIdempotent(s);
    case _ =>
  }

  // ---------------------------------------------------------------------
  // One row: the loop over the sorted keys

  /** The object built by assigning `pairs` in order: a later name overwrites an earlier one. */
  function Assign(pairs: seq<(string, Value)>): Row
    decreases |pairs|
  {
    if pairs == [] then map[]
    else
      var last := pairs[|pairs| - 1];
      Assign(pairs[..|pairs| - 1])[last.0 := last.1]
  }

  /** `pairs[j]` carries the name `n`, and no pair after it does. */
  ghost predicate LastWithName(pairs: seq<(string, Value)>, n: string, j: int) {
    && 0 <= j < |pairs|
    && pairs[j].0 == n
    && forall i | j < i < |pairs| :: pairs[i].0 != n
  }

  /** A name of the built object is a name of some pair, and its value comes from the last pair with that name. */
  lemma {:induction false} AssignSource(pairs: seq<(string, Value)>, n: string)
    ensures n in Assign(pairs) <==> exists j :: 0 <= j < |pairs| && pairs[j].0 == n
    ensures n in Assign(pairs) ==> exists j :: LastWithName(pairs, n, j) && Assign(pairs)[n] == pairs[j].1
    decreases |pairs|
  {
    if pairs != [] {
      var last := |pairs| - 1;
      var prefix := pairs[..last];
      AssignSource(prefix, n);
      if pairs[last].0 == n {
        assert LastWithName(pairs, n, last);
      } else if n in Assign(pairs) {
        var j :| LastWithName(prefix, n, j) && Assign(prefix)[n] == prefix[j].1;
        assert LastWithName(pairs, n, j);
      }
      if exists j :: 0 <= j < |pairs| && pairs[j].0 == n {
        var j :| 0 <= j < |pairs| && pairs[j].0 == n;
        if j < last {
          assert prefix[j].0 == n;
        }
      }
    }
  }

  /** Each key of the row, in order, with its normalized name and value. */
  function Entries(row: Row, keys: seq<string>): (pairs: seq<(string, Value)>)
    requires forall i | 0 <= i < |keys| :: keys[i] in row
    ensures |pairs| == |keys|
  {
    seq(|keys|, i requires 0 <= i < |keys| => (NormalizeColumnName(keys[i]), NormalizeValue(row[keys[i]])))
  }

  /** The row `normalizeResult` builds from `row`, visiting its keys in sorted order. */
  function NormalizedRow(row: Row): Row {
    var keys := SortedKeys(row.Keys);
    Assign(Entries(row, keys))
  }

  /** The key loop of `normalizeResult`, for one row. */
  method NormalizeRow(row: Row) returns (r: Row)
    ensures r == NormalizedRow(row)
  {
    var keys := SortedKeys(row.Keys);
    ghost var pairs := Entries(row, keys);
    r := map[];
    for i := 0 to |keys|
      invariant r == Assign(pairs[..i])
    {
      var name, value := NormalizeColumnName(keys[i]), NormalizeValue(row[keys[i]]);
      assert pairs[i] == (name, value);
      AssignStep(pairs, i);
      r := r[name := value];
    }
    assert pairs[..|keys|] == pairs;
  }

  lemma AssignStep(pairs: seq<(string, Value)>, i: int)
    requires 0 <= i < |pairs|
    ensures Assign(pairs[..i + 1]) == Assign(pairs[..i])[pairs[i].0 := pairs[i].1]
  {
    assert pairs[..i + 1][..i] == pairs[..i];
  }

  /** The names of a normalized row are the normalized names of the row's keys. */
  lemma {:induction false} NormalizedRowNames(row: Row, n: string)
    ensures n in NormalizedRow(row) <==> exists k :: k in row && NormalizeColumnName(k) == n
  {
    var keys := SortedKeys(row.Keys);
    var pairs := Entries(row, keys);
    AssignNames(pairs, n);
    if exists k :: k in row && NormalizeColumnName(k) == n {
      var k :| k in row && NormalizeColumnName(k) == n;
      var j := IndexOf(keys, k);
      assert pairs[j].0 == n;
    }
    if n in NormalizedRow(row) {
      var j :| 0 <= j < |pairs| && pairs[j].0 == n;
      assert keys[j] in row && NormalizeColumnName(keys[j]) == n;
    }
  }

  lemma AssignNames(pairs: seq<(string, Value)>, n: string)
    ensures n in Assign(pairs) <==> exists j :: 0 <= j < |pairs| && pairs[j].0 == n
  {
    AssignSource(pairs, n);
  }


  /**
   * When several keys of a row normalize to one name, the value kept is
   * that of the key that sorts last.
   */
  lemma {:induction false} LaterKeyWins(row: Row, n: string)
    requires n in NormalizedRow(row)
    ensures exists k :: KeptKey(row, n, k)
  {
    var keys := SortedKeys(row.Keys);
    var j := LastEntry(row, n);
    OthersEarlier(row, n, j);
    assert keys[j] in keys;
    assert KeptKey(row, n, keys[j]);
  }

  /** The index, among the sorted keys, of the last key named `n`, and the value it gives. */
  lemma {:induction false} LastEntry(row: Row, n: string) returns (j: int)
    requires n in NormalizedRow(row)
    ensures LastWithName(Entries(row, SortedKeys(row.Keys)), n, j)
    ensures NormalizeColumnName(SortedKeys(row.Keys)[j]) == n
    ensures NormalizedRow(row)[n] == NormalizeValue(row[SortedKeys(row.Keys)[j]])
  {
    var keys := SortedKeys(row.Keys);
    var pairs := Entries(row, keys);
    AssignSource(pairs, n);
    j :| LastWithName(pairs, n, j) && Assign(pairs)[n] == pairs[j].1;
  }

  lemma {:induction false} OthersEarlier(row: Row, n: string, j: int)
    requires LastWithName(Entries(row, SortedKeys(row.Keys)), n, j)
    ensures forall k' | k' in row && k' != SortedKeys(row.Keys)[j] && NormalizeColumnName(k') == n :: StrLt(k', SortedKeys(row.Keys)[j])
  {
    var keys := SortedKeys(row.Keys);
    var pairs := Entries(row, keys);
    forall k' | k' in row && k' != keys[j] && NormalizeColumnName(k') == n ensures StrLt(k', keys[j]) {
      var i := IndexOf(keys, k');
      assert pairs[i].0 == n;
      EarlierPairKey(keys, pairs, n, j, i);
    }
  }

  /** With sorted keys, any other pair carrying the last pair's name belongs to a smaller key. */
  lemma {:induction false} EarlierPairKey(keys: seq<string>, pairs: seq<(string, Value)>, n: string, j: int, i: int)
    requires |pairs| == |keys| && LastWithName(pairs, n, j)
    requires 0 <= i < |keys| && pairs[i].0 == n && keys[i] != keys[j]
    requires forall a, b | 0 <= a < b < |keys| :: StrLt(keys[a], keys[b])
    ensures StrLt(keys[i], keys[j])
  {
    assert i <= j;
  }

  /** Where `k` sits in `keys`. */
  function IndexOf(keys: seq<string>, k: string): (i: nat)
    requires k in keys
    ensures i < |keys| && keys[i] == k
  {
    if keys[0] == k then 0 else 1 + IndexOf(keys[1..], k)
  }

  /** `k` is the key whose value the normalized row keeps under the name `n`: the last in sorted order. */
  ghost predicate KeptKey(row: Row, n: string, k: string)
    requires n in NormalizedRow(row)
  {
    && k in row && NormalizeColumnName(k) == n
    && NormalizedRow(row)[n] == NormalizeValue(row[k])
    && forall k' | k' in row && k' != k && NormalizeColumnName(k') == n :: StrLt(k', k)
  }

  /** A row whose names and values are all in normal form. */
  predicate NormalRow(row: Row) {
    forall k | k in row :: IsName(k) && NormalValue(row[k])
  }

  lemma {:induction false} NormalizedRowIsNormal(row: Row)
    ensures NormalRow(NormalizedRow(row))
  {
    var r := NormalizedRow(row);
    forall n | n in r ensures IsName(n) && NormalValue(r[n]) {
      LaterKeyWins(row, n);
      var k :| KeptKey(row, n, k);
      NormalizeValueIdempotent(row[k]);
    }
  }

  /** Assigning each key its own value rebuilds the row on those keys. */
  lemma {:induction false} AssignOwnValues(row: Row, keys: seq<string>, pairs: seq<(string, Value)>)
    requires |pairs| == |keys|
    requires forall i | 0 <= i < |keys| :: keys[i] in row && pairs[i] == (keys[i], row[keys[i]])
    ensures Assign(pairs) == map k | k in row && k in keys :: row[k]
    decreases |keys|
  {
    if keys != [] {
      var last := |keys| - 1;
      AssignOwnValues(row, keys[..last], pairs[..last]);
      assert forall k' :: k' in keys <==> k' in keys[..last] || k' == keys[last];
    }
  }

  lemma {:induction false} NormalEntry(row: Row, k: string)
    requires NormalRow(row) && k in row
    ensures (NormalizeColumnName(k), NormalizeValue(row[k])) == (k, row[k])
  {
    NormalizeColumnNameFixpoints(k);
    NormalizeValueFixpoints(row[k]);
  }

  lemma {:induction false} NormalEntries(row: Row, keys: seq<string>)
    requires NormalRow(row)
    requires forall i | 0 <= i < |keys| :: keys[i] in row
    ensures forall i | 0 <= i < |keys| :: Entries(row, keys)[i] == (keys[i], row[keys[i]])
  {
    forall i | 0 <= i < |keys| ensures Entries(row, keys)[i] == (keys[i], row[keys[i]]) {
      NormalEntry(row, keys[i]);
    }
  }

  lemma RestrictToAll(row: Row, keys: seq<string>)
    requires forall k | k in row :: k in keys
    ensures (map k | k in row && k in keys :: row[k]) == row
  {
  }

  /** On a normal row, each key keeps its name and value: the row is rebuilt as it was. */
  lemma {:induction false} AssignNormal(row: Row)
    requires NormalRow(row)
    ensures NormalizedRow(row) == row
  {
    var keys := SortedKeys(row.Keys);
    NormalEntries(row, keys);
    AssignOwnValues(row, keys, Entries(row, keys));
    RestrictToAll(row, keys);
  }

  /** A row `normalizeResult` would leave unchanged is exactly a normal row. */
  lemma {:induction false} NormalizedRowFixpoints(row: Row)
    ensures NormalizedRow(row) == row <==> NormalRow(row)
  {
    if NormalRow(row) {
      AssignNormal(row);
    } else {
      NormalizedRowIsNormal(row);
    }
  }

  lemma {:induction false} NormalizedRowIdempotent(row: Row)
    ensures NormalizedRow(NormalizedRow(row)) == NormalizedRow(row)
  {
    NormalizedRowIsNormal(row);
    NormalizedRowFixpoints(NormalizedRow(row));
  }

  // ---------------------------------------------------------------------
  // rowComparator

  /** The loop of `rowComparator` over `keys`: the first column whose values differ decides. */
  function CompareFrom(a: Row, b: Row, keys: seq<string>): (c: int)
    ensures c == -1 || c == 0 || c == 1
    decreases |keys|
  {
    if keys == [] then 0
    else
      var x, y := Lookup(a, keys[0]), Lookup(b, keys[0]);
      if x == y then CompareFrom(a, b, keys[1..])
      else if x == Null then -1
      else if y == Null then 1
      else if JsLess(x, y) then -1
      else 1
  }

  /** `rowComparator`: the columns of both rows, in sorted order. */
  function RowCompare(a: Row, b: Row): (c: int)
    ensures c == -1 || c == 0 || c == 1
  {
    CompareFrom(a, b, SortedKeys(a.Keys + b.Keys))
  }

  lemma {:induction false} CompareFromZero(a: Row, b: Row, keys: seq<string>)
    ensures CompareFrom(a, b, keys) == 0 <==> forall i | 0 <= i < |keys| :: Lookup(a, keys[i]) == Lookup(b, keys[i])
    decreases |keys|
  {
    if keys != [] {
      CompareFromZero(a, b, keys[1..]);
      assert forall i | 1 <= i < |keys| :: keys[i] == keys[1..][i - 1];
    }
  }

  /** Two rows compare as equal exactly when they agree on every column. */
  lemma {:induction false} RowCompareZero(a: Row, b: Row)
    ensures RowCompare(a, b) == 0 <==> forall k :: Lookup(a, k) == Lookup(b, k)
  {
    var keys := SortedKeys(a.Keys + b.Keys);
    CompareFromZero(a, b, keys);
    if RowCompare(a, b) == 0 {
      forall k ensures Lookup(a, k) == Lookup(b, k) {
        if k in a || k in b {
          var i := IndexOf(keys, k);
        }
      }
    }
  }

  /** The row holds no `undefined`. */
  predicate Defined(row: Row) {
    forall k | k in row :: row[k] != Undefined
  }

  /** Rows that hold no `undefined` compare as equal exactly when they are equal. */
  lemma {:induction false} RowCompareZeroDefined(a: Row, b: Row)
    requires Defined(a) && Defined(b)
    ensures RowCompare(a, b) == 0 <==> a == b
  {
    RowCompareZero(a, b);
    if RowCompare(a, b) == 0 {
      forall k | k in a ensures k in b && a[k] == b[k] {
        assert Lookup(a, k) == Lookup(b, k);
      }
      forall k | k in b ensures k in a {
        assert Lookup(a, k) == Lookup(b, k);
      }
    }
  }

  lemma {:induction false} CompareFromFirst(a: Row, b: Row, keys: seq<string>, j: int)
    requires 0 <= j < |keys|
    requires forall i | 0 <= i < j :: Lookup(a, keys[i]) == Lookup(b, keys[i])
    requires Lookup(a, keys[j]) != Lookup(b, keys[j])
    ensures var x, y := Lookup(a, keys[j]), Lookup(b, keys[j]);
      CompareFrom(a, b, keys) == if x == Null then -1 else if y == Null then 1 else if JsLess(x, y) then -1 else 1
    decreases j
  {
    if 0 < j {
      assert Lookup(a, keys[0]) == Lookup(b, keys[0]);
      assert forall i | 0 <= i < j - 1 :: keys[1..][i] == keys[i + 1];
      CompareFromFirst(a, b, keys[1..], j - 1);
    }
  }

  /**
   * The first column, in sorted order, where the rows differ decides: a
   * null there sorts first, and otherwise `<` on the two values does.
   */
  lemma {:induction false} FirstDifferingColumn(a: Row, b: Row, k: string)
    requires Lookup(a, k) != Lookup(b, k)
    requires forall k' | StrLt(k', k) :: Lookup(a, k') == Lookup(b, k')
    ensures Lookup(a, k) == Null ==> RowCompare(a, b) == -1
    ensures Lookup(a, k) != Null && Lookup(b, k) == Null ==> RowCompare(a, b) == 1
    ensures Lookup(a, k) != Null && Lookup(b, k) != Null ==> (RowCompare(a, b) == -1 <==> JsLess(Lookup(a, k), Lookup(b, k)))
  {
    var keys := SortedKeys(a.Keys + b.Keys);
    assert k in a || k in b;
    var j := IndexOf(keys, k);
    forall i | 0 <= i < j ensures Lookup(a, keys[i]) == Lookup(b, keys[i]) {
      assert StrLt(keys[i], keys[j]);
    }
    CompareFromFirst(a, b, keys, j);
  }

  /** Every column of the two rows holds values `<` can order. */
  predicate RowsComparable(a: Row, b: Row) {
    forall k | k in a.Keys + b.Keys :: Comparable(Lookup(a, k), Lookup(b, k))
  }

  lemma {:induction false} CompareFromAntisymmetric(a: Row, b: Row, keys: seq<string>)
    requires forall i | 0 <= i < |keys| :: Comparable(Lookup(a, keys[i]), Lookup(b, keys[i]))
    ensures CompareFrom(b, a, keys) == -CompareFrom(a, b, keys)
    decreases |keys|
  {
    if keys != [] {
      var x, y := Lookup(a, keys[0]), Lookup(b, keys[0]);
      if x == y {
        CompareFromAntisymmetric(a, b, keys[1..]);
      } else if !x.Null? && !y.Null? {
        JsLessTotal(x, y);
        JsLessAsymmetric(x, y);
      }
    }
  }

  /** On comparable rows, swapping the arguments negates the result. */
  lemma {:induction false} RowCompareAntisymmetric(a: Row, b: Row)
    requires RowsComparable(a, b)
    ensures RowCompare(b, a) == -RowCompare(a, b)
  {
    var keys := SortedKeys(a.Keys + b.Keys);
    assert b.Keys + a.Keys == a.Keys + b.Keys;
    forall i | 0 <= i < |keys| ensures Comparable(Lookup(a, keys[i]), Lookup(b, keys[i])) {
      assert keys[i] in keys;
    }
    CompareFromAntisymmetric(a, b, keys);
  }

  /** At the column that decides, `x` puts its row first: a null first, otherwise `<`. */
  predicate ValueBefore(x: Value, y: Value) {
    x != y && (x == Null || (y != Null && JsLess(x, y)))
  }

  lemma ValueBeforeTransitive(x: Value, y: Value, z: Value)
    requires ValueBefore(x, y) && ValueBefore(y, z)
    ensures ValueBefore(x, z)
  {
    if x != Null {
      JsLessTransitive(x, y, z);
      JsLessIrreflexive(x);
    }
  }

  lemma {:induction false} CompareFromDiffers(a: Row, b: Row, keys: seq<string>) returns (j: int)
    requires CompareFrom(a, b, keys) != 0
    ensures 0 <= j < |keys| && Lookup(a, keys[j]) != Lookup(b, keys[j])
    ensures forall i | 0 <= i < j :: Lookup(a, keys[i]) == Lookup(b, keys[i])
    decreases |keys|
  {
    if Lookup(a, keys[0]) != Lookup(b, keys[0]) {
      j := 0;
    } else {
      var j' := CompareFromDiffers(a, b, keys[1..]);
      j := j' + 1;
      assert forall i | 1 <= i < j :: keys[i] == keys[1..][i - 1];
    }
  }

  /** Rows that compare as unequal have a first column, in sorted order, where they differ. */
  lemma {:induction false} FirstDifference(a: Row, b: Row) returns (k: string)
    requires RowCompare(a, b) != 0
    ensures Lookup(a, k) != Lookup(b, k)
    ensures forall k' | StrLt(k', k) :: Lookup(a, k') == Lookup(b, k')
  {
    var keys := SortedKeys(a.Keys + b.Keys);
    var j := CompareFromDiffers(a, b, keys);
    k := keys[j];
    forall k' | StrLt(k', k) ensures Lookup(a, k') == Lookup(b, k') {
      if k' in a || k' in b {
        var i := IndexOf(keys, k');
        StrLtTrichotomy(k', k);
      }
    }
  }

  /** At the first differing column, `rowComparator` says "before" exactly when the value there does. */
  lemma {:induction false} RowCompareBefore(a: Row, b: Row, k: string)
    requires Lookup(a, k) != Lookup(b, k)
    requires forall k' | StrLt(k', k) :: Lookup(a, k') == Lookup(b, k')
    ensures RowCompare(a, b) == -1 <==> ValueBefore(Lookup(a, k), Lookup(b, k))
  {
    FirstDifferingColumn(a, b, k);
  }

  /**
   * `rowComparator` is transitive on any rows, under the modelled `<`.
   * JavaScript's `<` between a string and a number is not modelled, and it
   * makes the comparator cyclic on mixed columns.
   */
  lemma {:induction false} RowCompareTransitive(a: Row, b: Row, c: Row)
    requires RowCompare(a, b) == -1 && RowCompare(b, c) == -1
    ensures RowCompare(a, c) == -1
  {
    var k1 := FirstDifference(a, b);
    var k2 := FirstDifference(b, c);
    RowCompareBefore(a, b, k1);
    RowCompareBefore(b, c, k2);
    StrLtTrichotomy(k1, k2);
    var k := if StrLt(k2, k1) then k2 else k1;
    forall k' | StrLt(k', k) ensures Lookup(a, k') == Lookup(c, k') {
      if StrLt(k2, k1) {
        StrLtTransitive(k', k2, k1);
      } else if k1 != k2 {
        StrLtTransitive(k', k1, k2);
      }
    }
    if k1 == k2 {
      ValueBeforeTransitive(Lookup(a, k), Lookup(b, k), Lookup(c, k));
    }
    assert ValueBefore(Lookup(a, k), Lookup(c, k));
    RowCompareBefore(a, c, k);
  }

  /** `rowComparator` never puts each of two rows before the other. */
  lemma {:induction false} RowCompareAsymmetric(a: Row, b: Row)
    ensures !(RowCompare(a, b) == -1 && RowCompare(b, a) == -1)
  {
    if RowCompare(a, b) == -1 && RowCompare(b, a) == -1 {
      RowCompareTransitive(a, b, a);
      RowCompareZero(a, a);
    }
  }

  /**
   * On normal rows (normalized names, normal values, so no `undefined`),
   * `rowComparator(x, y) <= 0` is a partial order: rows each at most the
   * other are equal, and it is transitive.
   */
  lemma RowComparePartialOrder(s: seq<Row>)
    requires forall x | x in s :: NormalRow(x)
    ensures PartialOrderOn(s, RowCompare)
  {
    forall x, y | x in s && y in s && RowCompare(x, y) <= 0 && RowCompare(y, x) <= 0 ensures x == y {
      NormalDefined(x);
      NormalDefined(y);
      RowCompareBothWays(x, y);
    }
    forall x, y, z | x in s && y in s && z in s && RowCompare(x, y) <= 0 && RowCompare(y, z) <= 0
      ensures RowCompare(x, z) <= 0
    {
      NormalDefined(x);
      NormalDefined(y);
      NormalDefined(z);
      RowCompareChain(x, y, z);
    }
  }

  lemma RowCompareBothWays(x: Row, y: Row)
    requires Defined(x) && Defined(y)
    requires RowCompare(x, y) <= 0 && RowCompare(y, x) <= 0
    ensures x == y
  {
    RowCompareAsymmetric(x, y);
    if RowCompare(x, y) == 0 {
      RowCompareZeroDefined(x, y);
    } else {
      RowCompareZeroDefined(y, x);
    }
  }

  lemma RowCompareChain(x: Row, y: Row, z: Row)
    requires Defined(x) && Defined(y) && Defined(z)
    requires RowCompare(x, y) <= 0 && RowCompare(y, z) <= 0
    ensures RowCompare(x, z) <= 0
  {
    if RowCompare(x, y) == 0 {
      RowCompareZeroDefined(x, y);
    } else if RowCompare(y, z) == 0 {
      RowCompareZeroDefined(y, z);
    } else {
      RowCompareTransitive(x, y, z);
    }
  }

  lemma NormalDefined(row: Row)
    requires NormalRow(row)
    ensures Defined(row)
  {
    forall k | k in row ensures row[k] != Undefined {
      assert NormalValue(row[k]);
    }
  }

  // ---------------------------------------------------------------------
  // normalizedRows.sort(rowComparator)

  /** Every two rows of `s` are comparable. */
  predicate AllComparable(s: seq<Row>) {
    forall x, y | x in s && y in s :: RowsComparable(x, y)
  }

  /** On pairwise comparable rows `rowComparator` is antisymmetric, which the sort needs. */
  lemma AllComparableAntisymmetric(s: seq<Row>)
    requires AllComparable(s)
    ensures Antisymmetric(s, RowCompare)
  {
    forall x, y | x in s && y in s ensures RowCompare(y, x) == -RowCompare(x, y) {
      RowCompareAntisymmetric(x, y);
    }
  }

  // ---------------------------------------------------------------------
  // normalizeResult

  /** Each row normalized on its own, in the input order: the `rows.map` step. */
  function NormalizedRows(rows: seq<Row>): (r: seq<Row>)
    ensures |r| == |rows|
    decreases |rows|
  {
    if rows == [] then []
    else NormalizedRows(rows[..|rows| - 1]) + [NormalizedRow(rows[|rows| - 1])]
  }

  lemma Pointwise<T>(a: seq<T>, b: seq<T>)
    requires |a| == |b|
    requires forall k | 0 <= k < |a| :: a[k] == b[k]
    ensures a == b
  {
  }

  /** What `normalizeResult` returns. */
  function Normalized(input: Input): seq<Row> {
    match input
    case NotArray => []
    case Array(rows) => SortBy(NormalizedRows(rows), RowCompare)
  }

  /** `normalizeResult`: normalize each row into a new array, then sort that array in place. */
  method NormalizeResult(input: Input) returns (result: seq<Row>)
    ensures result == Normalized(input)
  {
    if input.NotArray? {
      return [];
    }
    var rows := input.rows;
    if |rows| == 0 {
      return [];
    }
    var normalizedRows := MapRows(rows);
    SortInPlace(normalizedRows, RowCompare);
    result := normalizedRows[..];
  }

  /** The `rows.map` step: a fresh array holding each row normalized. */
  method MapRows(rows: seq<Row>) returns (normalizedRows: array<Row>)
    ensures fresh(normalizedRows)
    ensures normalizedRows[..] == NormalizedRows(rows)
  {
    var mapped: seq<Row> := [];
    for i := 0 to |rows|
      invariant mapped == NormalizedRows(rows[..i])
    {
      var row := NormalizeRow(rows[i]);
      assert rows[..i + 1][..i] == rows[..i];
      mapped := mapped + [row];
    }
    assert rows[..|rows|] == rows;
    normalizedRows := new Row[|mapped|](k requires 0 <= k < |mapped| => mapped[k]);
    Pointwise(normalizedRows[..], mapped);
  }

  /**
   * A non-array gives no rows; an array gives as many rows as it has, and
   * they are its rows normalized one by one, reordered.
   */
  lemma {:induction false} NormalizedShape(input: Input)
    ensures input.NotArray? ==> Normalized(input) == []
    ensures input.Array? ==>
              |Normalized(input)| == |input.rows| &&
              multiset(Normalized(input)) == multiset(NormalizedRows(input.rows))
  {
    if input.Array? {
      SortByPermutes(NormalizedRows(input.rows), RowCompare);
    }
  }

  /** When the normalized rows are pairwise comparable, the output is in `rowComparator` order. */
  lemma {:induction false} NormalizedSorted(rows: seq<Row>)
    requires AllComparable(NormalizedRows(rows))
    ensures Sorted(Normalized(Array(rows)), RowCompare)
  {
    AllComparableAntisymmetric(NormalizedRows(rows));
    SortBySorted(NormalizedRows(rows), RowCompare);
  }

  lemma {:induction false} NormalizedRowsAt(rows: seq<Row>, i: int)
    requires 0 <= i < |rows|
    ensures NormalizedRows(rows)[i] == NormalizedRow(rows[i])
    decreases |rows|
  {
    if i < |rows| - 1 {
      NormalizedRowsAt(rows[..|rows| - 1], i);
    }
  }

  /** Every row of the `rows.map` step is already in normal form. */
  lemma {:induction false} NormalizedRowsNormal(rows: seq<Row>)
    ensures forall x | x in NormalizedRows(rows) :: NormalizedRow(x) == x
    decreases |rows|
  {
    if rows != [] {
      var n := |rows| - 1;
      NormalizedRowsNormal(rows[..n]);
      NormalizedRowIdempotent(rows[n]);
    }
  }

  /** Mapping rows already in normal form changes nothing. */
  lemma {:induction false} NormalizedRowsOfNormal(s: seq<Row>)
    requires forall x | x in s :: NormalizedRow(x) == x
    ensures NormalizedRows(s) == s
    decreases |s|
  {
    if s != [] {
      var n := |s| - 1;
      assert s == s[..n] + [s[n]];
      assert s[n] in s;
      assert forall x | x in s[..n] :: x in s;
      NormalizedRowsOfNormal(s[..n]);
    }
  }

  /** Normalizing a normalized result gives it back, when its rows are pairwise comparable. */
  lemma {:induction false} NormalizeResultIdempotent(rows: seq<Row>)
    requires AllComparable(NormalizedRows(rows))
    ensures Normalized(Array(Normalized(Array(rows)))) == Normalized(Array(rows))
  {
    var nr := NormalizedRows(rows);
    var out := SortBy(nr, RowCompare);
    SortByPermutes(nr, RowCompare);
    assert forall y | y in out :: y in nr by {
      assert forall y | y in out :: y in multiset(nr);
    }
    NormalizedRowsNormal(rows);
    NormalizedRowsOfNormal(out);
    AllComparableAntisymmetric(nr);
    SortBySorted(nr, RowCompare);
    assert AllComparable(out);
    AllComparableAntisymmetric(out);
    SortByOfSorted(out, RowCompare);
  }

  /**
   * The output depends only on which normalized rows there are, not on their
   * order: two inputs whose rows normalize to the same multiset normalize to
   * the same sequence, when those rows are pairwise comparable.
   */
  lemma {:induction false} NormalizedCanonical(rows1: seq<Row>, rows2: seq<Row>)
    requires AllComparable(NormalizedRows(rows1))
    requires multiset(NormalizedRows(rows1)) == multiset(NormalizedRows(rows2))
    ensures Normalized(Array(rows1)) == Normalized(Array(rows2))
  {
    var nr1, nr2 := NormalizedRows(rows1), NormalizedRows(rows2);
    assert forall y | y in nr2 :: y in nr1 by {
      assert forall y | y in nr2 :: y in multiset(nr1);
    }
    assert AllComparable(nr2);
    NormalizedSorted(rows1);
    NormalizedSorted(rows2);
    SortByPermutes(nr1, RowCompare);
    SortByPermutes(nr2, RowCompare);
    NormalizedOutputNormal(rows1);
    SortedUnique(Normalized(Array(rows1)), Normalized(Array(rows2)), RowCompare);
  }

  /** The output rows are normal, so `rowComparator(x, y) <= 0` is a partial order on them. */
  lemma {:induction false} NormalizedOutputNormal(rows: seq<Row>)
    ensures PartialOrderOn(Normalized(Array(rows)), RowCompare)
  {
    var nr := NormalizedRows(rows);
    var out := SortBy(nr, RowCompare);
    SortByPermutes(nr, RowCompare);
    NormalizedRowsNormal(rows);
    forall x | x in out ensures NormalRow(x) {
      assert x in multiset(nr);
      NormalizedRowIsNormal(x);
    }
    RowComparePartialOrder(out);
  }
}
