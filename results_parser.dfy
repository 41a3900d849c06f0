/**
 * The tabular result normalizer: the query service answers with rows of
 * positional values plus a metadata map from column name to its position
 * ("placeInOrder") and declared type; the normalizer orders the columns,
 * names every cell, optionally coerces it by type, and copies a few
 * top-level keys through.
 */
module ResultsParser {
  import opened Common
  import opened Text
  import Timestamps

  datatype Column = Column(name: string, order: int, colType: string)

  /** A metadata entry's value: "placeInOrder" and "type", each absent or
      holding any JSON value. */
  datatype ColumnInfo = ColumnInfo(placeInOrder: Option<Value>, colType: Option<Value>)

  /** Python's `int(v)` (None when it raises) and `str(v)` for a value that is
      neither null nor a string. */
  datatype Casts = Casts(toInt: Value -> Option<int>, toStr: Value -> string)

  /** The metadata dict, in its insertion order. */
  type Metadata = seq<(string, ColumnInfo)>

  /** The decoded payload. `top` holds every top-level key of the object with
      its value, "data" and "metadata" included, and is what the pass-through
      reads; `data` and `metadata` are those two entries decoded, `[]` when
      missing or empty. */
  datatype Payload = Payload(data: seq<seq<Value>>, metadata: Metadata, top: map<string, Value>)

  /** A value of the result dict: the column list, the named rows, or a copied key. */
  datatype Field = ColumnsField(names: seq<string>) | RowsField(rows: seq<Row>) | Copied(value: Value)

  /** The keys `parse_tabular_payload` copies through unless told otherwise. */
  const DefaultPassthrough: seq<string> := ["done", "startTime", "endTime", "rowCount", "queryId"]

  /** Dict keys are unique. */
  predicate DistinctKeys(md: Metadata) {
    forall i, j :: 0 <= i < j < |md| ==> md[i].0 != md[j].0
  }

  predicate DistinctNames(cols: seq<Column>) {
    forall i, j :: 0 <= i < j < |cols| ==> cols[i].name != cols[j].name
  }

  /** `int(info.get("placeInOrder", 0))`: 0 when absent; `int(None)` raises. */
  function OrderOf(v: Option<Value>, casts: Casts): Option<int> {
    match v
    case None => Some(0)
    case Some(Null) => None
    case Some(x) => casts.toInt(x)
  }

  /** `str(info.get("type", "VARCHAR"))`: `str(None)` is "None". */
  function TypeOf(v: Option<Value>, casts: Casts): string {
    match v
    case None => "VARCHAR"
    case Some(Null) => "None"
    case Some(Str(t)) => t
    case Some(x) => casts.toStr(x)
  }

  /** One entry as a column, or None when its order does not convert. */
  function ColumnOf(entry: (string, ColumnInfo), casts: Casts): Option<Column> {
    match OrderOf(entry.1.placeInOrder, casts)
    case None => None
    case Some(o) => Some(Column(entry.0, o, TypeOf(entry.1.colType, casts)))
  }

  /** What one entry becomes: the defaults fill absent fields, a null order
      raises, a null type reads "None", and a string type is kept. */
  lemma ColumnConversion(name: string, info: ColumnInfo, casts: Casts)
    ensures info.placeInOrder.None? ==> ColumnOf((name, info), casts).Some? && ColumnOf((name, info), casts).value.order == 0
    ensures info.placeInOrder == Some(Null) ==> ColumnOf((name, info), casts).None?
    ensures ColumnOf((name, info), casts).Some? ==> ColumnOf((name, info), casts).value.name == name
    ensures ColumnOf((name, info), casts).Some? ==>
              var t := ColumnOf((name, info), casts).value.colType;
              && (info.colType.None? ==> t == "VARCHAR")
              && (info.colType == Some(Null) ==> t == "None")
              && (info.colType.Some? && info.colType.value.Str? ==> t == info.colType.value.s)
  {
  }

  /** No entry's order raises on conversion. */
  predicate Convertible(md: Metadata, casts: Casts) {
    forall i :: 0 <= i < |md| ==> ColumnOf(md[i], casts).Some?
  }

  function Unsorted(md: Metadata, casts: Casts): (cols: seq<Column>)
    requires Convertible(md, casts)
    ensures |cols| == |md|
  {
    seq(|md|, i requires 0 <= i < |md| => ColumnOf(md[i], casts).value)
  }

  function Names(cols: seq<Column>): (names: seq<string>)
    ensures |names| == |cols|
  {
    seq(|cols|, j requires 0 <= j < |cols| => cols[j].name)
  }

  // ------------------------------------------------------------ stable sort

  predicate SortedByOrder(cols: seq<Column>) {
    forall i, j :: 0 <= i < j < |cols| ==> cols[i].order <= cols[j].order
  }

  /** The columns with a given order, in sequence order. */
  function WithOrder(cols: seq<Column>, k: int): seq<Column> {
    if cols == [] then []
    else (if cols[0].order == k then [cols[0]] else []) + WithOrder(cols[1..], k)
  }

  /** How many leading columns come strictly before `c`. */
  function InsertPos(c: Column, cols: seq<Column>): (p: nat)
    ensures p <= |cols|
    ensures forall i :: 0 <= i < p ==> cols[i].order < c.order
    ensures p < |cols| ==> cols[p].order >= c.order
  {
    if cols == [] || cols[0].order >= c.order then 0 else 1 + InsertPos(c, cols[1..])
  }

  function Insert(c: Column, cols: seq<Column>): seq<Column> {
    var p := InsertPos(c, cols);
    cols[..p] + [c] + cols[p..]
  }

  /** `cols.sort(key=lambda c: c.order)`: Python's sort is stable. */
  function SortByOrder(cols: seq<Column>): (r: seq<Column>)
    ensures |r| == |cols|
    ensures multiset(r) == multiset(cols)
    ensures SortedByOrder(r)
  {
    if cols == [] then []
    else
      var rest := SortByOrder(cols[1..]);
      InsertSorted(cols[0], rest);
      assert cols == [cols[0]] + cols[1..];
      Insert(cols[0], rest)
  }

  lemma InsertSorted(c: Column, cols: seq<Column>)
    requires SortedByOrder(cols)
    ensures SortedByOrder(Insert(c, cols))
    ensures multiset(Insert(c, cols)) == multiset(cols) + multiset{c}
  {
    var p := InsertPos(c, cols);
    var r := Insert(c, cols);
    forall i, j | 0 <= i < j < |r| ensures r[i].order <= r[j].order {
      InsertAt(c, cols, i);
      InsertAt(c, cols, j);
      if i < p && j > p {
        assert cols[p].order <= cols[j - 1].order || j - 1 == p;
      } else if i == p && j > p {
        assert cols[p].order <= cols[j - 1].order || j - 1 == p;
      }
    }
    assert cols == cols[..p] + cols[p..];
  }

  /** What sits at each position after an insertion. */
  lemma InsertAt(c: Column, cols: seq<Column>, k: nat)
    requires k <= |cols|
    ensures |Insert(c, cols)| == |cols| + 1
    ensures var p := InsertPos(c, cols);
      Insert(c, cols)[k] == (if k < p then cols[k] else if k == p then c else cols[k - 1])
  {
  }

  lemma {:induction false} WithOrderAppend(a: seq<Column>, b: seq<Column>, k: int)
    ensures WithOrder(a + b, k) == WithOrder(a, k) + WithOrder(b, k)
  {
    if a != [] {
      assert (a + b)[1..] == a[1..] + b;
      WithOrderAppend(a[1..], b, k);
    } else {
      assert a + b == b;
    }
  }

  lemma {:induction false} WithOrderNone(a: seq<Column>, k: int)
    requires forall i :: 0 <= i < |a| ==> a[i].order != k
    ensures WithOrder(a, k) == []
  {
    if a != [] {
      WithOrderNone(a[1..], k);
    }
  }

  /** Insertion seen from the front, following `InsertPos`. */
  lemma InsertCons(c: Column, cols: seq<Column>)
    ensures cols == [] || cols[0].order >= c.order ==> Insert(c, cols) == [c] + cols
    ensures cols != [] && cols[0].order < c.order ==> Insert(c, cols) == [cols[0]] + Insert(c, cols[1..])
  {
    if cols == [] || cols[0].order >= c.order {
      assert InsertPos(c, cols) == 0;
      assert cols[..0] == [] && cols[0..] == cols;
    } else {
      InsertConsStep(c, cols);
    }
  }

  lemma InsertConsStep(c: Column, cols: seq<Column>)
    requires cols != [] && cols[0].order < c.order
    ensures Insert(c, cols) == [cols[0]] + Insert(c, cols[1..])
  {
    var t := cols[1..];
    var p := InsertPos(c, t);
    assert InsertPos(c, cols) == p + 1;
    assert cols[..p + 1] == [cols[0]] + t[..p];
    assert cols[p + 1..] == t[p..];
    calc {
      Insert(c, cols);
      cols[..p + 1] + [c] + cols[p + 1..];
      ([cols[0]] + t[..p]) + [c] + t[p..];
      [cols[0]] + (t[..p] + [c] + t[p..]);
      [cols[0]] + Insert(c, t);
    }
  }

  lemma {:induction false} InsertStable(c: Column, cols: seq<Column>, k: int)
    ensures WithOrder(Insert(c, cols), k) == (if c.order == k then [c] else []) + WithOrder(cols, k)
    decreases |cols|
  {
    InsertCons(c, cols);
    if cols == [] || cols[0].order >= c.order {
      WithOrderCons(c, cols, k);
    } else {
      var h, t := cols[0], cols[1..];
      InsertStable(c, t, k);
      WithOrderCons(h, Insert(c, t), k);
      WithOrderCons(h, t, k);
      assert cols == [h] + t;
      if c.order == k {
        assert h.order != k;
      }
    }
  }

  lemma WithOrderCons(h: Column, t: seq<Column>, k: int)
    ensures WithOrder([h] + t, k) == (if h.order == k then [h] else []) + WithOrder(t, k)
  {
    assert ([h] + t)[0] == h && ([h] + t)[1..] == t;
  }

  /** Ties keep their input order: for every order value, the columns carrying
      it appear in the sorted list in the same sequence as in the input. */
  lemma {:induction false} SortStable(cols: seq<Column>, k: int)
    ensures WithOrder(SortByOrder(cols), k) == WithOrder(cols, k)
  {
    if cols != [] {
      SortStable(cols[1..], k);
      InsertStable(cols[0], SortByOrder(cols[1..]), k);
    }
  }

  lemma InsertKeepsNamesDistinct(c: Column, cols: seq<Column>)
    requires DistinctNames(cols)
    requires forall i :: 0 <= i < |cols| ==> cols[i].name != c.name
    ensures DistinctNames(Insert(c, cols))
  {
    var p := InsertPos(c, cols);
    var r := Insert(c, cols);
    assert forall i :: 0 <= i < |r| ==> r[i] == (if i < p then cols[i] else if i == p then c else cols[i - 1]);
  }

  lemma {:induction false} SortKeepsNamesDistinct(cols: seq<Column>)
    requires DistinctNames(cols)
    ensures DistinctNames(SortByOrder(cols))
  {
    if cols != [] {
      var c, rest := cols[0], SortByOrder(cols[1..]);
      SortKeepsNamesDistinct(cols[1..]);
      forall i | 0 <= i < |rest| ensures rest[i].name != c.name {
        assert rest[i] in multiset(cols[1..]);
        var m :| 0 <= m < |cols[1..]| && cols[1..][m] == rest[i];
        assert cols[m + 1] == rest[i];
      }
      InsertKeepsNamesDistinct(c, rest);
    }
  }

  // ------------------------------------------------------------ columns

  /** `_columns_from_metadata`: None when some entry's order raises; otherwise
      one column per entry, sorted by order, ties in entry order, defaults
      filled in. */
  method ColumnsFromMetadata(md: Metadata, casts: Casts) returns (cols: Option<seq<Column>>)
    ensures cols.Some? <==> Convertible(md, casts)
    ensures cols.Some? ==>
              && cols.value == SortByOrder(Unsorted(md, casts))
              && |cols.value| == |md| && SortedByOrder(cols.value)
              && multiset(cols.value) == multiset(Unsorted(md, casts))
              && forall k :: WithOrder(cols.value, k) == WithOrder(Unsorted(md, casts), k)
  {
    var acc := [];
    for i := 0 to |md|
      invariant |acc| == i
      invariant forall j :: 0 <= j < i ==> ColumnOf(md[j], casts).Some? && acc[j] == ColumnOf(md[j], casts).value
    {
      var c := ColumnOf(md[i], casts);
      if c.None? {
        return None;
      }
      acc := acc + [c.value];
    }
    assert acc == Unsorted(md, casts);
    var sorted := SortByOrder(acc);
    forall k ensures WithOrder(sorted, k) == WithOrder(Unsorted(md, casts), k) {
      SortStable(Unsorted(md, casts), k);
    }
    cols := Some(sorted);
  }

  lemma ColumnNamesDistinct(md: Metadata, casts: Casts)
    requires DistinctKeys(md) && Convertible(md, casts)
    ensures DistinctNames(SortByOrder(Unsorted(md, casts)))
  {
    SortKeepsNamesDistinct(Unsorted(md, casts));
  }

  // ------------------------------------------------------------ coercion

  predicate IsNumericType(t: string) {
    Contains(t, "DECIMAL") || Contains(t, "NUMERIC") || Contains(t, "DOUBLE") || Contains(t, "FLOAT") || Contains(t, "REAL")
  }

  /** `_coerce_value`. `toFloat` stands for Python's `float(value)`: None when
      it raises, in which case the value is kept. */
  function CoerceValue(value: Value, colType: string, toFloat: Value -> Option<Value>): (r: Value)
    ensures value == Null ==> r == Null
    ensures Contains(Upper(colType), "TIMESTAMP") && value.Str? ==>
              r == value || exists dt :: Timestamps.Valid(dt) && r == Str(Timestamps.Format(dt))
    ensures Contains(Upper(colType), "TIMESTAMP") && !value.Str? ==> r == value
    ensures !Contains(Upper(colType), "TIMESTAMP") && !IsNumericType(Upper(colType)) ==> r == value
  {
    if value == Null then Null
    else
      var t := Upper(colType);
      if Contains(t, "TIMESTAMP") then
        match value
        case Str(s) =>
          (match Timestamps.CoerceTimestamp(s)
           case Some(iso) => Str(iso)
           case None => value)
        case _ => value
      else if IsNumericType(t) then
        match toFloat(value)
        case Some(f) => f
        case None => value
      else value
  }

  /** Unparseable timestamps are kept as they are: no exception escapes. */
  lemma TimestampFallback(s: string, colType: string, toFloat: Value -> Option<Value>)
    requires Contains(Upper(colType), "TIMESTAMP")
    ensures CoerceValue(Str(s), colType, toFloat)
            == (if Timestamps.CoerceTimestamp(s).Some? then Str(Timestamps.CoerceTimestamp(s).value) else Str(s))
  {
  }

  /** `sub in s` needs `sub`'s first character at a position where `sub` still fits. */
  lemma {:induction false} NoFirstChar(s: string, sub: string)
    requires sub != []
    requires forall k :: 0 <= k <= |s| - |sub| ==> s[k] != sub[0]
    ensures !Contains(s, sub)
    decreases |s|
  {
    if |s| >= |sub| {
      assert s[0] != sub[0];
      assert !StartsWith(s, sub);
    }
    if s != [] {
      forall k | 0 <= k <= |s[1..]| - |sub| ensures s[1..][k] != sub[0] {
        assert s[1..][k] == s[k + 1];
      }
      NoFirstChar(s[1..], sub);
    }
  }

  lemma IntegerIsPlain()
    ensures !Contains(Upper("INTEGER"), "TIMESTAMP") && !IsNumericType(Upper("INTEGER"))
  {
    IntegerUpper();
    IntegerNamesNoOtherType();
  }

  lemma IntegerUpper()
    ensures Upper("INTEGER") == "INTEGER"
  {
    var t := "INTEGER";
    assert forall i :: 0 <= i < |t| ==> 'A' <= t[i] <= 'Z';
  }

  lemma IntegerNamesNoOtherType()
    ensures !Contains("INTEGER", "TIMESTAMP") && !IsNumericType("INTEGER")
  {
    NoFirstChar("INTEGER", "TIMESTAMP");
    IntegerNotDecimal();
    IntegerNotFloating();
  }

  lemma IntegerNotDecimal()
    ensures !Contains("INTEGER", "DECIMAL") && !Contains("INTEGER", "NUMERIC")
  {
    NoFirstChar("INTEGER", "DECIMAL");
    NoFirstChar("INTEGER", "NUMERIC");
  }

  lemma IntegerNotFloating()
    ensures !Contains("INTEGER", "DOUBLE") && !Contains("INTEGER", "FLOAT") && !Contains("INTEGER", "REAL")
  {
    NoFirstChar("INTEGER", "DOUBLE");
    NoFirstChar("INTEGER", "FLOAT");
    NoFirstChar("INTEGER", "REAL");
  }

  /** INTEGER is neither a timestamp nor one of the floating-point types, so
      "42" stays the string "42". */
  lemma IntegerPassesThrough(toFloat: Value -> Option<Value>)
    ensures CoerceValue(Str("42"), "INTEGER", toFloat) == Str("42")
  {
    IntegerIsPlain();
  }

  // ------------------------------------------------------------ payload

  /** The value at a position, or null past the end of a short row. */
  function Cell(row: seq<Value>, idx: nat): Value {
    if idx < |row| then row[idx] else Null
  }

  function Converted(row: seq<Value>, idx: nat, c: Column, coerce: bool, toFloat: Value -> Option<Value>): Value {
    if coerce then CoerceValue(Cell(row, idx), c.colType, toFloat) else Cell(row, idx)
  }

  /** `m` is the named version of the positional `row`: exactly one key per
      column, holding the (possibly coerced) value at that column's position. */
  ghost predicate NamedRow(m: Row, row: seq<Value>, cols: seq<Column>, coerce: bool, toFloat: Value -> Option<Value>) {
    NamedPrefix(m, row, cols, |cols|, coerce, toFloat)
  }

  /** `m` names the first `n` columns of `row`. */
  ghost predicate NamedPrefix(m: Row, row: seq<Value>, cols: seq<Column>, n: nat, coerce: bool, toFloat: Value -> Option<Value>)
    requires n <= |cols|
  {
    && m.Keys == (set j | 0 <= j < n :: cols[j].name)
    && forall j :: 0 <= j < n ==> m[cols[j].name] == Converted(row, j, cols[j], coerce, toFloat)
  }

  /** The keys of the input that the result copies. */
  function Present(keys: seq<string>, top: map<string, Value>): set<string> {
    set k | k in keys && k in top
  }

  /** One pass of the row loop of `parse_tabular_payload`: name each cell of a
      positional row after its column. */
  method NameRow(row: seq<Value>, cols: seq<Column>, coerce: bool, toFloat: Value -> Option<Value>)
    returns (mapped: Row)
    requires DistinctNames(cols)
    ensures NamedRow(mapped, row, cols, coerce, toFloat)
  {
    mapped := map[];
    for idx := 0 to |cols|
      invariant NamedPrefix(mapped, row, cols, idx, coerce, toFloat)
    {
      var raw := if idx < |row| then row[idx] else Null;
      var v := if coerce then CoerceValue(raw, cols[idx].colType, toFloat) else raw;
      NamedStep(mapped, row, cols, idx, coerce, toFloat, v);
      mapped := mapped[cols[idx].name := v];
    }
  }

  lemma NamedStep(m: Row, row: seq<Value>, cols: seq<Column>, idx: nat, coerce: bool, toFloat: Value -> Option<Value>, v: Value)
    requires idx < |cols| && DistinctNames(cols)
    requires NamedPrefix(m, row, cols, idx, coerce, toFloat)
    requires v == (if coerce then CoerceValue(Cell(row, idx), cols[idx].colType, toFloat) else Cell(row, idx))
    ensures NamedPrefix(m[cols[idx].name := v], row, cols, idx + 1, coerce, toFloat)
  {
    assert (set j | 0 <= j < idx + 1 :: cols[j].name) == (set j | 0 <= j < idx :: cols[j].name) + {cols[idx].name};
    assert forall j :: 0 <= j < idx ==> cols[j].name != cols[idx].name;
  }

  /** The pass-through loop: copy each listed key the payload has. */
  method CopyPresent(result0: map<string, Field>, keys: seq<string>, top: map<string, Value>)
    returns (result: map<string, Field>)
    ensures result.Keys == result0.Keys + Present(keys, top)
    ensures forall k :: k in Present(keys, top) ==> result[k] == Copied(top[k])
    ensures forall k :: k in result0 && k !in Present(keys, top) ==> result[k] == result0[k]
  {
    result := result0;
    for n := 0 to |keys|
      invariant result.Keys == result0.Keys + Present(keys[..n], top)
      invariant forall k :: k in Present(keys[..n], top) ==> result[k] == Copied(top[k])
      invariant forall k :: k in result0 && k !in Present(keys[..n], top) ==> result[k] == result0[k]
    {
      assert keys[..n + 1] == keys[..n] + [keys[n]];
      if keys[n] in top {
        result := result[keys[n] := Copied(top[keys[n]])];
      }
    }
    assert keys[..|keys|] == keys;
  }

  /** The row loop of `parse_tabular_payload`. */
  method NameRows(data: seq<seq<Value>>, cols: seq<Column>, coerce: bool, toFloat: Value -> Option<Value>)
    returns (rowsOut: seq<Row>)
    requires DistinctNames(cols)
    ensures |rowsOut| == |data|
    ensures forall i :: 0 <= i < |data| ==> NamedRow(rowsOut[i], data[i], cols, coerce, toFloat)
  {
    rowsOut := [];
    for i := 0 to |data|
      invariant |rowsOut| == i
      invariant forall r :: 0 <= r < i ==> NamedRow(rowsOut[r], data[r], cols, coerce, toFloat)
    {
      var mapped := NameRow(data[i], cols, coerce, toFloat);
      rowsOut := rowsOut + [mapped];
    }
  }

  /** `parse_tabular_payload` on an already decoded payload: None when the
      metadata raises on conversion, which happens before any row is read. */
  method ParseTabularPayload(p: Payload, coerce: bool, keys: seq<string>, casts: Casts, toFloat: Value -> Option<Value>)
    returns (result: Option<map<string, Field>>)
    requires DistinctKeys(p.metadata)
    ensures result.Some? <==> Convertible(p.metadata, casts)
    ensures result.Some? ==>
              && result.value.Keys == {"columns", "rows"} + Present(keys, p.top)
              && forall k :: k in Present(keys, p.top) ==> result.value[k] == Copied(p.top[k])
    ensures result.Some? && "columns" !in Present(keys, p.top) ==>
              result.value["columns"] == ColumnsField(Names(SortByOrder(Unsorted(p.metadata, casts))))
    ensures result.Some? && "rows" !in Present(keys, p.top) ==>
              && result.value["rows"].RowsField?
              && |result.value["rows"].rows| == |p.data|
              && forall i :: 0 <= i < |p.data| ==>
                   NamedRow(result.value["rows"].rows[i], p.data[i], SortByOrder(Unsorted(p.metadata, casts)), coerce, toFloat)
  {
    var cols := ColumnsFromMetadata(p.metadata, casts);
    if cols.None? {
      return None;
    }
    ColumnNamesDistinct(p.metadata, casts);
    var rowsOut := NameRows(p.data, cols.value, coerce, toFloat);
    var result0 := map["columns" := ColumnsField(Names(cols.value)), "rows" := RowsField(rowsOut)];
    assert "columns"[0] != "rows"[0];
    assert result0.Keys == {"columns", "rows"};
    assert result0["rows"] == RowsField(rowsOut);
    var copied := CopyPresent(result0, keys, p.top);
    result := Some(copied);
  }

  /** With coercion off every cell is the raw input value. */
  lemma RawCellsWithoutCoercion(m: Row, row: seq<Value>, cols: seq<Column>, toFloat: Value -> Option<Value>, j: nat)
    requires NamedRow(m, row, cols, false, toFloat)
    requires j < |cols|
    ensures m[cols[j].name] == (if j < |row| then row[j] else Null)
  {
  }
}
