/**
 * The pure helpers of the user-attribute client: attribute-key
 * normalisation, value comparison, the row filter, the mapping of an
 * ingestion reply to (status, error), the fetch of a user's stored rows,
 * and the last-write-wins dedupe of the candidate list.
 */
module MemoryClient {
  import opened Common
  import opened Text
  import ResultsParser
  import MemoryExtractor

  // ------------------------------------------------------------ _norm

  function ReplaceSpaces(s: string): (r: string)
    ensures |r| == |s|
  {
    seq(|s|, i requires 0 <= i < |s| => if s[i] == ' ' then '_' else s[i])
  }

  /** `_norm`: strip, lower-case, then every space becomes `_`. */
  function Norm(attr: string): string {
    ReplaceSpaces(Lower(Strip(attr)))
  }

  /** A normalised key has no space and no upper-case letter, no blank at either
      end, and every other character of the stripped input is kept (lower-cased). */
  lemma NormShape(attr: string)
    ensures |Norm(attr)| == |Strip(attr)|
    ensures forall i :: 0 <= i < |Norm(attr)| ==> Norm(attr)[i] != ' ' && !('A' <= Norm(attr)[i] <= 'Z')
    ensures forall i :: 0 <= i < |Norm(attr)| && Strip(attr)[i] != ' ' ==> Norm(attr)[i] == LowerChar(Strip(attr)[i])
    ensures Trimmed(Norm(attr))
  {
    StripTrims(attr);
  }

  /** `_norm` is idempotent. */
  lemma NormIdempotent(attr: string)
    ensures Norm(Norm(attr)) == Norm(attr)
  {
    NormShape(attr);
    NormFixes(Norm(attr));
  }

  lemma NormExampleSpaces()
    ensures Norm("Preferred Airline") == "preferred_airline"
  {
    var s := "Preferred Airline";
    StripIdentity(s);
    assert Trimmed(s);
  }

  lemma NormExampleDash()
    ensures Norm("meal-preference") == "meal-preference"
  {
    var s := "meal-preference";
    assert Trimmed(s);
    assert forall i :: 0 <= i < |s| ==> !('A' <= s[i] <= 'Z') && s[i] != ' ';
    NormFixes(s);
  }

  /** A trimmed key with no upper-case letter and no space is already normal. */
  lemma NormFixes(s: string)
    requires Trimmed(s)
    requires forall i :: 0 <= i < |s| ==> !('A' <= s[i] <= 'Z') && s[i] != ' '
    ensures Norm(s) == s
  {
    StripIdentity(s);
    assert Lower(s) == s;
    assert ReplaceSpaces(s) == s;
  }

  // ------------------------------------------------------------ _equal

  /** `_equal`: trimmed comparison, lower-cased when `caseInsensitive`. */
  function Equal(a: string, b: string, caseInsensitive: bool): bool {
    if caseInsensitive then Lower(Strip(a)) == Lower(Strip(b)) else Strip(a) == Strip(b)
  }

  /** `_equal` is an equivalence for either setting. */
  lemma EqualIsEquivalence(a: string, b: string, c: string, ci: bool)
    ensures Equal(a, a, ci)
    ensures Equal(a, b, ci) == Equal(b, a, ci)
    ensures Equal(a, b, ci) && Equal(b, c, ci) ==> Equal(a, c, ci)
  {
  }

  /** Case-sensitive equality implies case-insensitive equality. */
  lemma SensitiveImpliesInsensitive(a: string, b: string)
    ensures Equal(a, b, false) ==> Equal(a, b, true)
  {
  }

  /** Surrounding whitespace never matters. */
  lemma EqualIgnoresSurroundingSpace(a: string, b: string, ci: bool)
    ensures Equal(a, b, ci) == Equal(Strip(a), b, ci)
  {
    StripIdempotent(a);
  }

  lemma EqualExample()
    ensures Equal("  Delta  ", "DELTA", true)
    ensures !Equal("Delta", "DELTA", false)
  {
    var a, b, d := "  Delta  ", "DELTA", "Delta";
    StripIdentity(b);
    assert Trimmed(b);
    StripIdentity(d);
    assert Trimmed(d);
    assert Strip(a) == d by {
      assert StripLeft(a, PythonSpace) == StripLeft(a[1..], PythonSpace) == StripLeft(a[1..][1..], PythonSpace);
      assert a[1..][1..] == a[2..];
      var t := a[2..];
      assert StripLeft(a, PythonSpace) == t;
      assert t[..|t| - 1] == a[2..8];
      assert a[2..8][..5] == a[2..7];
      assert StripRight(t, PythonSpace) == StripRight(a[2..8], PythonSpace) == StripRight(a[2..7], PythonSpace) == a[2..7];
      assert a[2..7] == d;
    }
    assert Lower(d) == Lower(b);
    assert d[1] != b[1];
  }

  // ------------------------------------------------------------ _filter_eq

  /** `norm` inside `_filter_eq`: strings are case-folded unless the
      comparison is case-sensitive; other values are compared as they are. */
  function Fold(v: Value, caseSensitive: bool): Value {
    if !caseSensitive && v.Str? then Str(Lower(v.s)) else v
  }

  /** A missing field reads as None. */
  function FieldOf(row: Row, field: string): Value {
    if field in row then row[field] else Null
  }

  predicate Matches(row: Row, field: string, value: Value, caseSensitive: bool) {
    Fold(FieldOf(row, field), caseSensitive) == Fold(value, caseSensitive)
  }

  /** The rows `_filter_eq` keeps, in input order. */
  function Filtered(rows: seq<Row>, field: string, value: Value, caseSensitive: bool): seq<Row>
  {
    if rows == [] then []
    else
      var init := rows[..|rows| - 1];
      var last := rows[|rows| - 1];
      Filtered(init, field, value, caseSensitive) + (if Matches(last, field, value, caseSensitive) then [last] else [])
  }

  /** The filter keeps a sub-multiset of its input. */
  lemma {:induction false} FilteredSubset(rows: seq<Row>, field: string, value: Value, caseSensitive: bool)
    ensures |Filtered(rows, field, value, caseSensitive)| <= |rows|
    ensures multiset(Filtered(rows, field, value, caseSensitive)) <= multiset(rows)
  {
    if rows != [] {
      var init := rows[..|rows| - 1];
      FilteredSubset(init, field, value, caseSensitive);
      assert rows == init + [rows[|rows| - 1]];
    }
  }

  /** `_filter_eq`. */
  method FilterEq(rows: seq<Row>, field: string, value: Value, caseSensitive: bool) returns (out: seq<Row>)
    ensures out == Filtered(rows, field, value, caseSensitive)
  {
    out := [];
    for i := 0 to |rows|
      invariant out == Filtered(rows[..i], field, value, caseSensitive)
    {
      assert rows[..i + 1][..i] == rows[..i];
      var v := if field in rows[i] then rows[i][field] else Null;
      if Fold(v, caseSensitive) == Fold(value, caseSensitive) {
        out := out + [rows[i]];
      }
    }
    assert rows[..|rows|] == rows;
  }

  /** Exactly the matching rows are kept. */
  lemma {:induction false} FilteredMembers(rows: seq<Row>, field: string, value: Value, caseSensitive: bool, row: Row)
    ensures row in Filtered(rows, field, value, caseSensitive) <==> row in rows && Matches(row, field, value, caseSensitive)
  {
    if rows != [] {
      var init := rows[..|rows| - 1];
      FilteredMembers(init, field, value, caseSensitive, row);
      assert rows == init + [rows[|rows| - 1]];
    }
  }

  /** Filtering distributes over concatenation: input order is kept. */
  lemma {:induction false} FilteredAppend(a: seq<Row>, b: seq<Row>, field: string, value: Value, caseSensitive: bool)
    ensures Filtered(a + b, field, value, caseSensitive)
            == Filtered(a, field, value, caseSensitive) + Filtered(b, field, value, caseSensitive)
    decreases |b|
  {
    if b == [] {
      assert a + b == a;
    } else {
      var n := |b| - 1;
      assert (a + b)[..|a + b| - 1] == a + b[..n];
      FilteredAppend(a, b[..n], field, value, caseSensitive);
    }
  }

  /** A row without the field never matches a string target. */
  lemma MissingNeverMatches(row: Row, field: string, target: string, caseSensitive: bool)
    requires field !in row || row[field] == Null
    ensures !Matches(row, field, Str(target), caseSensitive)
  {
  }

  /** The case-insensitive match compares lower-cased strings. */
  lemma CaseFoldedMatch(row: Row, field: string, target: string)
    requires field in row && row[field].Str?
    ensures Matches(row, field, Str(target), false) <==> Lower(row[field].s) == Lower(target)
  {
  }

  /** Index of the first matching row: what `_filter_eq(...)[0]` reads. */
  function FirstMatch(rows: seq<Row>, field: string, value: Value, caseSensitive: bool): (r: Option<nat>)
    ensures r.Some? ==> r.value < |rows| && Matches(rows[r.value], field, value, caseSensitive)
    ensures r.Some? ==> forall j :: 0 <= j < r.value ==> !Matches(rows[j], field, value, caseSensitive)
    ensures r.None? ==> forall j :: 0 <= j < |rows| ==> !Matches(rows[j], field, value, caseSensitive)
  {
    if rows == [] then None
    else if Matches(rows[0], field, value, caseSensitive) then Some(0)
    else match FirstMatch(rows[1..], field, value, caseSensitive)
      case None => None
      case Some(i) => Some(i + 1)
  }

  /** Changing another field of one row does not move the first match. */
  lemma FirstMatchFrame(rows: seq<Row>, i: nat, f: string, v: Value, field: string, value: Value, caseSensitive: bool)
    requires i < |rows| && f != field
    ensures FirstMatch(rows[i := rows[i][f := v]], field, value, caseSensitive) == FirstMatch(rows, field, value, caseSensitive)
  {
    var rows' := rows[i := rows[i][f := v]];
    forall j | 0 <= j < |rows| ensures FieldOf(rows'[j], field) == FieldOf(rows[j], field) {
    }
    FirstMatchSameColumn(rows', rows, field, value, caseSensitive);
  }

  /** The first match depends on the searched column only. */
  lemma {:induction false} FirstMatchSameColumn(a: seq<Row>, b: seq<Row>, field: string, value: Value, caseSensitive: bool)
    requires |a| == |b|
    requires forall j :: 0 <= j < |a| ==> FieldOf(a[j], field) == FieldOf(b[j], field)
    ensures FirstMatch(a, field, value, caseSensitive) == FirstMatch(b, field, value, caseSensitive)
  {
    if a != [] {
      assert Matches(a[0], field, value, caseSensitive) == Matches(b[0], field, value, caseSensitive);
      forall j | 0 <= j < |a| - 1 ensures FieldOf(a[1..][j], field) == FieldOf(b[1..][j], field) {
        assert a[1..][j] == a[j + 1] && b[1..][j] == b[j + 1];
      }
      FirstMatchSameColumn(a[1..], b[1..], field, value, caseSensitive);
    }
  }

  /** The filter seen from the front. */
  lemma FilteredCons(rows: seq<Row>, field: string, value: Value, caseSensitive: bool)
    requires rows != []
    ensures Filtered(rows, field, value, caseSensitive)
            == (if Matches(rows[0], field, value, caseSensitive) then [rows[0]] else [])
               + Filtered(rows[1..], field, value, caseSensitive)
  {
    assert rows == [rows[0]] + rows[1..];
    FilteredAppend([rows[0]], rows[1..], field, value, caseSensitive);
    assert [rows[0]][..0] == [];
  }

  /** `_filter_eq(rows, ...)[0]` raises IndexError exactly when `FirstMatch`
      finds nothing, and is otherwise the row at `FirstMatch`. */
  lemma {:induction false} FirstMatchIsHead(rows: seq<Row>, field: string, value: Value, caseSensitive: bool)
    ensures FirstMatch(rows, field, value, caseSensitive).None? <==> Filtered(rows, field, value, caseSensitive) == []
    ensures FirstMatch(rows, field, value, caseSensitive).Some? ==>
              Filtered(rows, field, value, caseSensitive)[0] == rows[FirstMatch(rows, field, value, caseSensitive).value]
  {
    if rows != [] {
      FirstMatchIsHead(rows[1..], field, value, caseSensitive);
      FilteredCons(rows, field, value, caseSensitive);
      if Matches(rows[0], field, value, caseSensitive) {
        HeadMatches(rows, field, value, caseSensitive);
      } else {
        HeadSkipped(rows, field, value, caseSensitive);
      }
    }
  }

  lemma HeadMatches(rows: seq<Row>, field: string, value: Value, caseSensitive: bool)
    requires rows != [] && Matches(rows[0], field, value, caseSensitive)
    requires Filtered(rows, field, value, caseSensitive) == [rows[0]] + Filtered(rows[1..], field, value, caseSensitive)
    ensures FirstMatch(rows, field, value, caseSensitive) == Some(0)
    ensures Filtered(rows, field, value, caseSensitive) != []
    ensures Filtered(rows, field, value, caseSensitive)[0] == rows[0]
  {
  }

  lemma HeadSkipped(rows: seq<Row>, field: string, value: Value, caseSensitive: bool)
    requires rows != [] && !Matches(rows[0], field, value, caseSensitive)
    requires Filtered(rows, field, value, caseSensitive) == Filtered(rows[1..], field, value, caseSensitive)
    requires FirstMatch(rows[1..], field, value, caseSensitive).None? <==> Filtered(rows[1..], field, value, caseSensitive) == []
    requires FirstMatch(rows[1..], field, value, caseSensitive).Some? ==>
              Filtered(rows[1..], field, value, caseSensitive)[0] == rows[1..][FirstMatch(rows[1..], field, value, caseSensitive).value]
    ensures FirstMatch(rows, field, value, caseSensitive).None? <==> Filtered(rows, field, value, caseSensitive) == []
    ensures FirstMatch(rows, field, value, caseSensitive).Some? ==>
              Filtered(rows, field, value, caseSensitive)[0] == rows[FirstMatch(rows, field, value, caseSensitive).value]
  {
    var m1 := FirstMatch(rows[1..], field, value, caseSensitive);
    var m := FirstMatch(rows, field, value, caseSensitive);
    assert m == if m1.Some? then Some(m1.value + 1) else None;
    if m1.Some? {
      assert rows[1..][m1.value] == rows[m1.value + 1];
    }
  }

  // ------------------------------------------------------------ _status_err

  /** The decoded body of a reply: a JSON object (with its "error" entry
      rendered by `str`, or None when absent or null), any other JSON value
      (rendered by `str`), or a body that is not JSON (its raw text). */
  datatype Body = JsonDict(errorEntry: Option<string>) | JsonOther(rendered: string) | NotJson(text: string)

  /** What the ingestion service hands back for one request. */
  datatype Reply = NoResponse | Response(status: int, body: Body)

  /** `200 <= (status or 0) < 300` */
  predicate Succeeded(status: Option<int>) {
    var code := match status case Some(c) => c case None => 0;
    200 <= code < 300
  }

  const NoResponseText: string := "request failed (no response)"

  /** `_status_err`. */
  function StatusErr(reply: Reply): (r: (Option<int>, Option<string>))
    ensures reply.NoResponse? ==> r == (None, Some(NoResponseText))
    ensures reply.Response? ==> r.0 == Some(reply.status)
  {
    match reply
    case NoResponse => (None, Some(NoResponseText))
    case Response(code, body) =>
      if 200 <= code < 300 then (Some(code), None)
      else
        var err := match body
          case JsonDict(e) => (match e case Some(t) => t case None => "None")
          case JsonOther(t) => t
          case NotJson(t) => t;
        (Some(code), Some(err))
  }

  /** Success, a 2xx reply, and the absence of an error text coincide: a failed
      request always carries an error text. */
  lemma StatusErrConsistent(reply: Reply)
    ensures Succeeded(StatusErr(reply).0) <==> StatusErr(reply).1.None?
    ensures Succeeded(StatusErr(reply).0) <==> reply.Response? && 200 <= reply.status < 300
  {
  }

  /** On a failed reply the error text is the "error" entry of a JSON object
      (`str(None)` when the object has none), the rendering of any other JSON
      value, or the raw body when it is not JSON. */
  lemma StatusErrUsesErrorEntry(code: int, e: string, t: string)
    requires !(200 <= code < 300)
    ensures StatusErr(Response(code, JsonDict(Some(e)))) == (Some(code), Some(e))
    ensures StatusErr(Response(code, JsonDict(None))) == (Some(code), Some("None"))
    ensures StatusErr(Response(code, JsonOther(t))) == (Some(code), Some(t))
    ensures StatusErr(Response(code, NotJson(t))) == (Some(code), Some(t))
  {
  }

  // ------------------------------------------------------------ fetch

  /** What the query service hands back for the stored-attributes query. */
  datatype QueryReply = NoQueryResponse | Undecodable | Decoded(payload: ResultsParser.Payload)

  /** `fetch_user_attributes`: the "rows" of the normalised payload, or `[]`
      when there is no response or anything raises. */
  method FetchUserAttributes(reply: QueryReply, casts: ResultsParser.Casts, toFloat: Value -> Option<Value>)
    returns (rows: seq<Row>)
    requires reply.Decoded? ==> ResultsParser.DistinctKeys(reply.payload.metadata)
    ensures !(reply.Decoded? && ResultsParser.Convertible(reply.payload.metadata, casts)) ==> rows == []
    ensures reply.Decoded? && ResultsParser.Convertible(reply.payload.metadata, casts) ==>
              var cols := ResultsParser.SortByOrder(ResultsParser.Unsorted(reply.payload.metadata, casts));
              && |rows| == |reply.payload.data|
              && forall i :: 0 <= i < |rows| ==> ResultsParser.NamedRow(rows[i], reply.payload.data[i], cols, true, toFloat)
  {
    match reply
    case Decoded(p) =>
      var result := ResultsParser.ParseTabularPayload(p, true, ResultsParser.DefaultPassthrough, casts, toFloat);
      assert "rows" !in ResultsParser.Present(ResultsParser.DefaultPassthrough, p.top);
      if result.Some? {
        rows := result.value["rows"].rows;
      } else {
        rows := [];
      }
    case _ =>
      rows := [];
  }

  // ------------------------------------------------------------ dedupe

  type Candidate = MemoryExtractor.Candidate

  /** The key a candidate is filed under. */
  function AttrKey(attribute: string, normalize: bool): string {
    if normalize then Norm(attribute) else attribute
  }

  /** The distinct keys, in order of first appearance: the key order of the
      `combined` dict. */
  function KeysInOrder(cs: seq<Candidate>, normalize: bool): (ks: seq<string>)
    ensures forall i, j :: 0 <= i < j < |ks| ==> ks[i] != ks[j]
    ensures forall k :: k in ks <==> exists i :: 0 <= i < |cs| && AttrKey(cs[i].attribute, normalize) == k
  {
    if cs == [] then []
    else
      var init := cs[..|cs| - 1];
      var k := AttrKey(cs[|cs| - 1].attribute, normalize);
      var ks := KeysInOrder(init, normalize);
      assert forall i :: 0 <= i < |init| ==> init[i] == cs[i];
      if k in ks then ks else ks + [k]
  }

  /** Where the last candidate with a key sits among the first `n`. */
  function LastIndex(cs: seq<Candidate>, key: string, normalize: bool, n: nat): (r: Option<nat>)
    requires n <= |cs|
    ensures r.None? <==> forall i :: 0 <= i < n ==> AttrKey(cs[i].attribute, normalize) != key
    ensures r.Some? ==> r.value < n && AttrKey(cs[r.value].attribute, normalize) == key
    ensures r.Some? ==> forall j :: r.value < j < n ==> AttrKey(cs[j].attribute, normalize) != key
  {
    if n == 0 then None
    else if AttrKey(cs[n - 1].attribute, normalize) == key then Some(n - 1)
    else LastIndex(cs, key, normalize, n - 1)
  }

  /** The last candidate with a key: the value the dict ends up holding. */
  function LastWith(cs: seq<Candidate>, key: string, normalize: bool): (r: Option<Candidate>)
    ensures r.None? <==> forall i :: 0 <= i < |cs| ==> AttrKey(cs[i].attribute, normalize) != key
    ensures r.Some? ==> exists i :: 0 <= i < |cs| && cs[i] == r.value && AttrKey(cs[i].attribute, normalize) == key
                                    && forall j :: i < j < |cs| ==> AttrKey(cs[j].attribute, normalize) != key
  {
    match LastIndex(cs, key, normalize, |cs|)
    case None => None
    case Some(i) => Some(cs[i])
  }

  /** The work list with dedupe on: one candidate per key, keys in order of
      first appearance, each holding the last candidate filed under it. */
  function Deduped(cs: seq<Candidate>, normalize: bool): (work: seq<Candidate>)
    ensures |work| == |KeysInOrder(cs, normalize)|
  {
    var ks := KeysInOrder(cs, normalize);
    seq(|ks|, i requires 0 <= i < |ks| => assert ks[i] in ks; LastWith(cs, ks[i], normalize).value)
  }

  /** The work list: deduped, or the input unchanged. */
  function WorkList(cs: seq<Candidate>, normalize: bool, dedupe: bool): seq<Candidate> {
    if dedupe then Deduped(cs, normalize) else cs
  }

  /** The dedupe loop: `combined[key] = c` for each candidate, then the dict's values. */
  method DedupeLastWriteWins(cs: seq<Candidate>, normalize: bool) returns (work: seq<Candidate>)
    ensures work == Deduped(cs, normalize)
  {
    var combined: map<string, Candidate> := map[];
    var order: seq<string> := [];
    for i := 0 to |cs|
      invariant Combines(cs[..i], normalize, combined, order)
    {
      var key := AttrKey(cs[i].attribute, normalize);
      CombineStep(cs, i, normalize, combined, order);
      if key !in combined {
        order := order + [key];
      }
      combined := combined[key := cs[i]];
    }
    assert cs[..|cs|] == cs;
    work := seq(|order|, j requires 0 <= j < |order| => combined[order[j]]);
    CombinedValues(cs, normalize, combined, order);
  }

  /** `combined` and its key order after filing every candidate of `prefix`. */
  ghost predicate Combines(prefix: seq<Candidate>, normalize: bool, combined: map<string, Candidate>, order: seq<string>) {
    && order == KeysInOrder(prefix, normalize)
    && combined.Keys == (set k | k in order)
    && forall k :: k in combined ==> LastWith(prefix, k, normalize) == Some(combined[k])
  }

  lemma CombineStep(cs: seq<Candidate>, i: nat, normalize: bool, combined: map<string, Candidate>, order: seq<string>)
    requires i < |cs| && Combines(cs[..i], normalize, combined, order)
    ensures var key := AttrKey(cs[i].attribute, normalize);
      Combines(cs[..i + 1], normalize, combined[key := cs[i]], if key in combined then order else order + [key])
  {
    var key := AttrKey(cs[i].attribute, normalize);
    PrefixStep(cs, i, normalize);
    CombineKeys(combined, order, key, cs[i], if key in combined then order else order + [key]);
    CombineLast(cs, i, normalize, combined, combined[key := cs[i]]);
  }

  lemma CombineKeys(combined: map<string, Candidate>, order: seq<string>, key: string, c: Candidate, order': seq<string>)
    requires combined.Keys == (set k | k in order)
    requires order' == if key in combined then order else order + [key]
    ensures combined[key := c].Keys == (set k | k in order')
  {
    assert combined[key := c].Keys == combined.Keys + {key};
  }

  lemma CombineLast(cs: seq<Candidate>, i: nat, normalize: bool, combined: map<string, Candidate>, combined': map<string, Candidate>)
    requires i < |cs|
    requires forall k :: k in combined ==> LastWith(cs[..i], k, normalize) == Some(combined[k])
    requires combined' == combined[AttrKey(cs[i].attribute, normalize) := cs[i]]
    ensures forall k :: k in combined' ==> LastWith(cs[..i + 1], k, normalize) == Some(combined'[k])
  {
    PrefixStep(cs, i, normalize);
  }

  lemma CombinedValues(cs: seq<Candidate>, normalize: bool, combined: map<string, Candidate>, order: seq<string>)
    requires Combines(cs, normalize, combined, order)
    ensures seq(|order|, j requires 0 <= j < |order| => combined[order[j]]) == Deduped(cs, normalize)
  {
    var work := seq(|order|, j requires 0 <= j < |order| => combined[order[j]]);
    forall j | 0 <= j < |order| ensures work[j] == Deduped(cs, normalize)[j] {
      assert order[j] in combined;
    }
  }

  /** One more candidate: its key joins the order if new, and it becomes the
      last candidate for that key; other keys are unaffected. */
  lemma PrefixStep(cs: seq<Candidate>, i: nat, normalize: bool)
    requires i < |cs|
    ensures var key := AttrKey(cs[i].attribute, normalize);
      && KeysInOrder(cs[..i + 1], normalize)
         == (if key in KeysInOrder(cs[..i], normalize) then KeysInOrder(cs[..i], normalize)
             else KeysInOrder(cs[..i], normalize) + [key])
      && LastWith(cs[..i + 1], key, normalize) == Some(cs[i])
      && forall k :: k != key ==> LastWith(cs[..i + 1], k, normalize) == LastWith(cs[..i], k, normalize)
  {
    assert cs[..i + 1][..i] == cs[..i];
    forall k | k != AttrKey(cs[i].attribute, normalize)
      ensures LastWith(cs[..i + 1], k, normalize) == LastWith(cs[..i], k, normalize)
    {
      LastIndexAgree(cs[..i + 1], cs[..i], k, normalize, i);
    }
  }

  /** The search among the first `n` looks at those `n` only. */
  lemma {:induction false} LastIndexAgree(a: seq<Candidate>, b: seq<Candidate>, key: string, normalize: bool, n: nat)
    requires n <= |a| && n <= |b|
    requires forall j :: 0 <= j < n ==> a[j] == b[j]
    ensures LastIndex(a, key, normalize, n) == LastIndex(b, key, normalize, n)
  {
    if n > 0 {
      assert a[n - 1] == b[n - 1];
      if AttrKey(a[n - 1].attribute, normalize) != key {
        LastIndexAgree(a, b, key, normalize, n - 1);
      }
    }
  }

  /** Keys seen in a prefix keep their place: the key order is the order of
      first appearance. */
  lemma {:induction false} KeysPrefix(cs: seq<Candidate>, m: nat, normalize: bool)
    requires m <= |cs|
    ensures KeysInOrder(cs[..m], normalize) <= KeysInOrder(cs, normalize)
    decreases |cs| - m
  {
    if m < |cs| {
      KeysPrefix(cs, m + 1, normalize);
      assert cs[..m + 1][..m] == cs[..m];
    } else {
      assert cs[..m] == cs;
    }
  }

  /** With dedupe on, no two work items share a key, every input key is
      represented, and each item is the last input candidate with its key. */
  lemma DedupedShape(cs: seq<Candidate>, normalize: bool)
    ensures forall i, j :: 0 <= i < j < |Deduped(cs, normalize)| ==>
              AttrKey(Deduped(cs, normalize)[i].attribute, normalize) != AttrKey(Deduped(cs, normalize)[j].attribute, normalize)
    ensures forall i :: 0 <= i < |cs| ==>
              (exists j :: 0 <= j < |Deduped(cs, normalize)| &&
                 AttrKey(Deduped(cs, normalize)[j].attribute, normalize) == AttrKey(cs[i].attribute, normalize))
    ensures forall j :: 0 <= j < |Deduped(cs, normalize)| ==>
              Some(Deduped(cs, normalize)[j]) == LastWith(cs, AttrKey(Deduped(cs, normalize)[j].attribute, normalize), normalize)
    ensures |Deduped(cs, normalize)| <= |cs|
  {
    var ks := KeysInOrder(cs, normalize);
    var w := Deduped(cs, normalize);
    forall j | 0 <= j < |w|
      ensures AttrKey(w[j].attribute, normalize) == ks[j]
      ensures Some(w[j]) == LastWith(cs, ks[j], normalize)
    {
      assert ks[j] in ks;
      assert w[j] == LastWith(cs, ks[j], normalize).value;
    }
    forall i | 0 <= i < |cs| ensures exists j :: 0 <= j < |w| && AttrKey(w[j].attribute, normalize) == AttrKey(cs[i].attribute, normalize) {
      var k := AttrKey(cs[i].attribute, normalize);
      assert k in ks;
      var j :| 0 <= j < |ks| && ks[j] == k;
      assert AttrKey(w[j].attribute, normalize) == k;
    }
    KeyCountBound(cs, normalize);
  }

  lemma {:induction false} KeyCountBound(cs: seq<Candidate>, normalize: bool)
    ensures |KeysInOrder(cs, normalize)| <= |cs|
  {
    if cs != [] {
      KeyCountBound(cs[..|cs| - 1], normalize);
    }
  }

  /** Without dedupe the work list is the input unchanged. */
  lemma NoDedupeKeepsAll(cs: seq<Candidate>, normalize: bool)
    ensures WorkList(cs, normalize, false) == cs
  {
  }
}
