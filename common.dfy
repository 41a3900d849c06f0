/**
 * Small shared vocabulary: optional values, results with an error, and the
 * cell values that flow from the query service into stored attribute rows.
 */
module Common {

  datatype Option<+T> = None | Some(value: T)

  datatype Result<+T, +E> = Ok(value: T) | Err(error: E)

  /** A cell of a tabular payload, as the JSON decoder hands it over.
      `Other` stands for every non-string JSON value (numbers, booleans,
      nested arrays and objects); `id` only tells such values apart. */
  datatype Value = Null | Str(s: string) | Other(id: int)

  /** A row of the attribute store keyed by column name, e.g. "attribute__c". */
  type Row = map<string, Value>

  /** Python's `dict.get`: a missing key and a stored null both read as None. */
  function Get(row: Row, key: string): Option<Value>
  {
    if key in row && row[key] != Null then Some(row[key]) else None
  }
}
