/**
 * The attribute reconciliation engine: `upsert_from_candidates` takes the
 * user's stored attribute rows and a list of memory candidates, dedupes
 * them by attribute key, and for each one skips it, issues a create, or
 * issues an update, recording every outcome in an `UpsertReport`.
 *
 * The specification is the pair `Step`/`Run` over values; the method of
 * `UserAttributeClient` is proved to compute exactly `Run`, and the lemmas
 * state what `Run` guarantees.
 */
module Upsert {
  import opened Common
  import opened Text
  import opened MemoryClient
  import MemoryExtractor

  datatype Action = Added | Updated | Skipped

  /** `UpsertItemResult` */
  datatype ItemResult = ItemResult(
    attribute: string,
    oldValue: Option<string>,
    newValue: string,
    action: Action,
    statusCode: Option<int>,
    error: Option<string>)

  /** The two requests the engine can send: there is no delete. */
  datatype Mutation =
    | Create(id: string, userId: string, tenantId: Option<string>, attribute: string, value: string,
             createdAt: string, updatedBy: string, source: string, lastModifiedAt: string)
    | Update(rowId: Value, value: string, lastModifiedAt: string)

  /** The exceptions that escape `upsert_from_candidates`. */
  datatype Failure =
    | IndexError       // no stored row carries the key, yet some rows were fetched
    | KeyError         // the matched row has no "id__c"
    | AttributeError   // a non-string stored value, or no reply to an update
    | JsonDecodeError  // the reply to an update is not JSON

  datatype Outcome = Completed | Raised(failure: Failure)

  // ------------------------------------------------------------ report

  /** Which counter a detail bumps. */
  datatype Tally = TAdded | TUpdated | TSkipped | TError

  function Category(d: ItemResult): Tally {
    if d.action == Skipped then TSkipped
    else if !Succeeded(d.statusCode) then TError
    else if d.action == Added then TAdded
    else TUpdated
  }

  function Count(details: seq<ItemResult>, t: Tally): nat {
    if details == [] then 0
    else Count(details[..|details| - 1], t) + (if Category(details[|details| - 1]) == t then 1 else 0)
  }

  lemma CountAppend(details: seq<ItemResult>, d: ItemResult)
    ensures forall t :: Count(details + [d], t) == Count(details, t) + (if Category(d) == t then 1 else 0)
  {
    assert (details + [d])[..|details|] == details;
  }

  /** The four counters always add up to the number of details. */
  lemma {:induction false} CountsSum(details: seq<ItemResult>)
    ensures Count(details, TAdded) + Count(details, TUpdated) + Count(details, TSkipped) + Count(details, TError) == |details|
  {
    if details != [] {
      CountsSum(details[..|details| - 1]);
    }
  }

  /** `UpsertReport` */
  class UpsertReport {
    const userId: string
    var added: nat
    var updated: nat
    var skipped: nat
    var errors: nat
    var details: seq<ItemResult>

    /** Each counter counts the details of its kind. */
    ghost predicate Valid()
      reads this
    {
      && added == Count(details, TAdded)
      && updated == Count(details, TUpdated)
      && skipped == Count(details, TSkipped)
      && errors == Count(details, TError)
    }

    constructor(userId: string)
      ensures this.userId == userId && details == []
      ensures added == 0 && updated == 0 && skipped == 0 && errors == 0
      ensures Valid()
    {
      this.userId := userId;
      added, updated, skipped, errors := 0, 0, 0, 0;
      details := [];
    }

    /** Append a detail and bump the counter of its kind. */
    method Record(d: ItemResult)
      requires Valid()
      modifies this
      ensures Valid() && details == old(details) + [d]
    {
      var before := details;
      CountAppend(before, d);
      match Category(d) {
        case TAdded => added := added + 1;
        case TUpdated => updated := updated + 1;
        case TSkipped => skipped := skipped + 1;
        case TError => errors := errors + 1;
      }
      details := before + [d];
    }
  }

  /** What a valid report promises: `added + updated + skipped + errors == len(details)`. */
  lemma ReportTotals(r: UpsertReport)
    requires r.Valid()
    ensures r.added + r.updated + r.skipped + r.errors == |r.details|
  {
    CountsSum(r.details);
  }

  // ------------------------------------------------------------ specification

  /** Everything the engine reads besides the candidates: the user, the
      tenant, the three flags, and the outside world as functions of the
      request number (the ingestion reply, the fresh row id, the clock). */
  datatype Env = Env(
    userId: string,
    tenantId: Option<string>,
    normalize: bool,
    caseInsensitive: bool,
    ingest: nat -> Reply,
    ids: nat -> string,
    clock: nat -> string)

  /** The stored rows (as updated in place), the requests sent, the details. */
  datatype State = State(rows: seq<Row>, sent: seq<Mutation>, details: seq<ItemResult>)

  /** Where processing stopped, and the exception if one escaped. */
  datatype Trace = Trace(st: State, failure: Option<Failure>)

  const AttributeField: string := "attribute__c"
  const ValueField: string := "value__c"
  const IdField: string := "id__c"

  /** The create branch. `idx` is the matched stored row, if rows were fetched:
      on success the new value is written into it under the attribute key. */
  function AddStep(env: Env, st: State, key: string, newValue: string, idx: Option<nat>): Trace
    requires idx.Some? ==> idx.value < |st.rows|
  {
    var n := |st.sent|;
    var m := Create(env.ids(n), env.userId, env.tenantId, key, newValue, env.clock(n), "system", "experimentation", env.clock(n));
    var (status, err) := StatusErr(env.ingest(n));
    var d := ItemResult(key, None, newValue, Added, status, err);
    var rows :=
      if Succeeded(status) && idx.Some? then st.rows[idx.value := st.rows[idx.value][key := Str(newValue)]]
      else st.rows;
    Trace(State(rows, st.sent + [m], st.details + [d]), None)
  }

  /** The update branch: the new value is written into the stored row first,
      then the row's id is read and the request sent. */
  function UpdateStep(env: Env, st: State, key: string, oldValue: string, newValue: string, idx: nat): Trace
    requires idx < |st.rows|
  {
    var row := st.rows[idx][ValueField := Str(newValue)];
    var rows := st.rows[idx := row];
    if IdField !in row then Trace(State(rows, st.sent, st.details), Some(KeyError))
    else
      var n := |st.sent|;
      var sent := st.sent + [Update(row[IdField], newValue, env.clock(n))];
      var reply := env.ingest(n);
      if reply.NoResponse? then Trace(State(rows, sent, st.details), Some(AttributeError))
      else if reply.body.NotJson? then Trace(State(rows, sent, st.details), Some(JsonDecodeError))
      else
        var (status, err) := StatusErr(reply);
        Trace(State(rows, sent, st.details + [ItemResult(key, Some(oldValue), newValue, Updated, status, err)]), None)
  }

  /** One pass of the work loop. */
  function Step(env: Env, st: State, c: MemoryExtractor.Candidate): Trace {
    var key := AttrKey(c.attribute, env.normalize);
    var newValue := Strip(c.value);
    if st.rows == [] then AddStep(env, st, key, newValue, None)
    else match FirstMatch(st.rows, AttributeField, Str(key), false)
      case None => Trace(st, Some(IndexError))
      case Some(idx) =>
        match Get(st.rows[idx], ValueField)
        case None => AddStep(env, st, key, newValue, Some(idx))
        case Some(Str(prev)) =>
          if Equal(prev, newValue, env.caseInsensitive) then
            Trace(st.(details := st.details + [ItemResult(key, Some(prev), newValue, Skipped, None, None)]), None)
          else UpdateStep(env, st, key, prev, newValue, idx)
        case Some(_) => Trace(st, Some(AttributeError))
  }

  /** The work loop, stopping at the first exception. */
  function Run(env: Env, work: seq<MemoryExtractor.Candidate>, st: State): Trace
    decreases |work|
  {
    if work == [] then Trace(st, None)
    else
      var t := Step(env, st, work[0]);
      if t.failure.Some? then t else Run(env, work[1..], t.st)
  }

  /** `Run` from position `i` after a step that completed. */
  lemma RunAdvance(env: Env, work: seq<MemoryExtractor.Candidate>, i: nat, st: State, t: Trace)
    requires i < |work| && Step(env, st, work[i]) == t && t.failure.None?
    ensures Run(env, work[i..], st) == Run(env, work[i + 1..], t.st)
  {
    assert work[i..][0] == work[i] && work[i..][1..] == work[i + 1..];
  }

  /** `Run` from position `i` after a step that raised. */
  lemma RunStop(env: Env, work: seq<MemoryExtractor.Candidate>, i: nat, st: State, t: Trace)
    requires i < |work| && Step(env, st, work[i]) == t && t.failure.Some?
    ensures Run(env, work[i..], st) == t
  {
    assert work[i..][0] == work[i];
  }

  // ------------------------------------------------------------ properties

  /** A completed step appends exactly one detail, naming the item's key
      and trimmed value. */
  lemma StepAppends(env: Env, st: State, c: MemoryExtractor.Candidate)
    requires Step(env, st, c).failure.None?
    ensures var t := Step(env, st, c).st;
      && |t.details| == |st.details| + 1
      && t.details == st.details + [t.details[|st.details|]]
      && t.details[|st.details|].attribute == AttrKey(c.attribute, env.normalize)
      && t.details[|st.details|].newValue == Strip(c.value)
  {
  }

  /** The request a completed step sends: a skip sends nothing and changes
      no row; an add sends exactly one create carrying the user, the key and
      the trimmed value; an update sends exactly one update carrying the new
      value. The reply's status and error are recorded, and a failed request
      always carries an error text; `StepFailsExactly` says which replies
      raise instead. */
  lemma StepEffects(env: Env, st: State, c: MemoryExtractor.Candidate)
    requires Step(env, st, c).failure.None?
    ensures var t := Step(env, st, c).st;
      && |t.details| == |st.details| + 1
      && var d := t.details[|st.details|];
      && (d.action == Skipped ==>
            && t.sent == st.sent && t.rows == st.rows
            && d.oldValue.Some? && Equal(d.oldValue.value, d.newValue, env.caseInsensitive)
            && d.statusCode.None? && d.error.None?)
      && (d.action == Added ==>
            && d.oldValue.None?
            && t.sent == st.sent + [Create(env.ids(|st.sent|), env.userId, env.tenantId, d.attribute, d.newValue,
                                           env.clock(|st.sent|), "system", "experimentation", env.clock(|st.sent|))])
      && (d.action == Updated ==>
            && d.oldValue.Some? && !Equal(d.oldValue.value, d.newValue, env.caseInsensitive)
            && t.sent == st.sent + [t.sent[|st.sent|]]
            && t.sent[|st.sent|].Update? && t.sent[|st.sent|].value == d.newValue)
      && (d.action != Skipped ==>
            && (d.statusCode, d.error) == StatusErr(env.ingest(|st.sent|))
            && (Succeeded(d.statusCode) <==> d.error.None?))
  {
    StatusErrConsistent(env.ingest(|st.sent|));
    var key := AttrKey(c.attribute, env.normalize);
    if st.rows != [] {
      var idx := FirstMatch(st.rows, AttributeField, Str(key), false).value;
      var stored := Get(st.rows[idx], ValueField);
      if stored.Some? && stored.value.Str? && !Equal(stored.value.s, Strip(c.value), env.caseInsensitive) {
        assert Step(env, st, c) == UpdateStep(env, st, key, stored.value.s, Strip(c.value), idx);
      }
    }
  }

  /** Which branch a step takes when rows were fetched and the key was found:
      no stored value means create, an equal one means skip, a different one
      means update, keyed by the stored row's "id__c". */
  lemma StepDecision(env: Env, st: State, c: MemoryExtractor.Candidate, idx: nat)
    requires st.rows != []
    requires FirstMatch(st.rows, AttributeField, Str(AttrKey(c.attribute, env.normalize)), false) == Some(idx)
    requires Step(env, st, c).failure.None?
    ensures var t := Step(env, st, c).st;
      var d := t.details[|st.details|];
      var stored := Get(st.rows[idx], ValueField);
      && |t.details| == |st.details| + 1
      && (d.action == Added <==> stored.None?)
      && (d.action == Skipped <==> stored.Some? && stored.value.Str? && Equal(stored.value.s, Strip(c.value), env.caseInsensitive))
      && (d.action == Updated <==> stored.Some? && stored.value.Str? && !Equal(stored.value.s, Strip(c.value), env.caseInsensitive))
      && (d.action == Updated ==> t.sent[|st.sent|] == Update(st.rows[idx][IdField], Strip(c.value), env.clock(|st.sent|)))
  {
  }

  /** With no rows fetched every candidate is created. */
  lemma StepEmptyStore(env: Env, st: State, c: MemoryExtractor.Candidate)
    requires st.rows == []
    ensures Step(env, st, c).failure.None?
    ensures Step(env, st, c).st.rows == []
    ensures Step(env, st, c).st.details[|st.details|].action == Added
  {
  }

  /** When rows were fetched but none carries the key, `[0]` of the empty
      filter result raises IndexError before anything is sent. */
  lemma StepNoMatchRaises(env: Env, st: State, c: MemoryExtractor.Candidate)
    requires st.rows != []
    requires forall r :: r in st.rows ==> !Matches(r, AttributeField, Str(AttrKey(c.attribute, env.normalize)), false)
    ensures Step(env, st, c) == Trace(st, Some(IndexError))
  {
  }

  /** When a step raises, and what. Rows fetched but no row carrying the key
      raise IndexError; a stored value that is not a string raises
      AttributeError; an update raises KeyError on a row without "id__c",
      AttributeError on no reply and JSONDecodeError on a body that is not
      JSON. Everything else completes: a create completes whatever the reply,
      and an update completes for every status of a JSON reply. */
  lemma StepFailsExactly(env: Env, st: State, c: MemoryExtractor.Candidate)
    ensures var m := FirstMatch(st.rows, AttributeField, Str(AttrKey(c.attribute, env.normalize)), false);
      var reply := env.ingest(|st.sent|);
      var f := Step(env, st, c).failure;
      && (st.rows == [] ==> f.None?)
      && (st.rows != [] && m.None? ==> f == Some(IndexError))
      && (st.rows != [] && m.Some? ==>
            var row := st.rows[m.value];
            var stored := Get(row, ValueField);
            && (stored.None? ==> f.None?)
            && (stored.Some? && !stored.value.Str? ==> f == Some(AttributeError))
            && (stored.Some? && stored.value.Str? && Equal(stored.value.s, Strip(c.value), env.caseInsensitive) ==> f.None?)
            && (stored.Some? && stored.value.Str? && !Equal(stored.value.s, Strip(c.value), env.caseInsensitive) ==>
                  f == (if IdField !in row then Some(KeyError)
                        else if reply.NoResponse? then Some(AttributeError)
                        else if reply.body.NotJson? then Some(JsonDecodeError)
                        else None)))
    ensures var m := FirstMatch(st.rows, AttributeField, Str(AttrKey(c.attribute, env.normalize)), false);
      var reply := env.ingest(|st.sent|);
      Step(env, st, c).failure.Some?
      <==> st.rows != [] &&
           (m.None? ||
            var stored := Get(st.rows[m.value], ValueField);
            stored.Some? &&
            (!stored.value.Str? ||
             (!Equal(stored.value.s, Strip(c.value), env.caseInsensitive) &&
              (IdField !in st.rows[m.value] || reply.NoResponse? || reply.body.NotJson?))))
  {
  }

  /** How many items of the work list complete before the first one raises. */
  function Completed(env: Env, work: seq<MemoryExtractor.Candidate>, st: State): (k: nat)
    ensures k <= |work|
    decreases |work|
  {
    if work == [] then 0
    else
      var t := Step(env, st, work[0]);
      if t.failure.Some? then 0 else 1 + Completed(env, work[1..], t.st)
  }

  /** The run fails exactly at the first item whose step raises: the items
      before it complete, and that step's trace, exception included, is the
      run's result. When no step raises the run completes. */
  lemma {:induction false} RunFailsAtFirst(env: Env, work: seq<MemoryExtractor.Candidate>, st: State)
    ensures var k := Completed(env, work, st);
      && Run(env, work[..k], st).failure.None?
      && (k < |work| ==>
            var t := Step(env, Run(env, work[..k], st).st, work[k]);
            t.failure.Some? && Run(env, work, st) == t)
      && (k == |work| ==> Run(env, work, st).failure.None?)
    decreases |work|
  {
    if work == [] {
      assert work[..0] == [];
    } else {
      var t := Step(env, st, work[0]);
      assert work[..0] == [];
      if t.failure.None? {
        var k := Completed(env, work[1..], t.st);
        RunFailsAtFirst(env, work[1..], t.st);
        var pre := work[..k + 1];
        assert pre[0] == work[0] && pre[1..] == work[1..][..k];
        assert Run(env, pre, st) == Run(env, work[1..][..k], t.st);
        if k < |work[1..]| {
          assert work[k + 1] == work[1..][k];
        }
      }
    }
  }

  /** Each detail names its work item's key and trimmed value. */
  ghost predicate Describes(details: seq<ItemResult>, work: seq<MemoryExtractor.Candidate>, normalize: bool) {
    && |details| == |work|
    && forall i :: 0 <= i < |work| ==>
         details[i].attribute == AttrKey(work[i].attribute, normalize) && details[i].newValue == Strip(work[i].value)
  }

  /** A completed run appends one detail per work item, in work-list order,
      each naming the item's key and trimmed value. */
  lemma {:induction false} RunDetails(env: Env, work: seq<MemoryExtractor.Candidate>, st: State)
    requires Run(env, work, st).failure.None?
    ensures var t := Run(env, work, st).st;
      && |t.details| == |st.details| + |work|
      && t.details == st.details + t.details[|st.details|..]
      && Describes(t.details[|st.details|..], work, env.normalize)
    decreases |work|
  {
    if work != [] {
      var s1 := Step(env, st, work[0]).st;
      StepAppends(env, st, work[0]);
      RunDetails(env, work[1..], s1);
      var t := Run(env, work[1..], s1).st;
      var d := s1.details[|st.details|];
      var rest := t.details[|s1.details|..];
      assert t.details == st.details + ([d] + rest);
      assert t.details[|st.details|..] == [d] + rest;
      assert work == [work[0]] + work[1..];
      DescribesCons(d, rest, work[0], work[1..], env.normalize);
    }
  }

  lemma DescribesCons(d: ItemResult, ds: seq<ItemResult>, c: MemoryExtractor.Candidate, cs: seq<MemoryExtractor.Candidate>, normalize: bool)
    requires d.attribute == AttrKey(c.attribute, normalize) && d.newValue == Strip(c.value)
    requires Describes(ds, cs, normalize)
    ensures Describes([d] + ds, [c] + cs, normalize)
  {
    forall i | 0 < i < |cs| + 1 ensures ([d] + ds)[i] == ds[i - 1] && ([c] + cs)[i] == cs[i - 1] {
    }
  }

  /** Every item that is not skipped sends exactly one request. */
  lemma {:induction false} RunRequests(env: Env, work: seq<MemoryExtractor.Candidate>, st: State)
    requires Run(env, work, st).failure.None?
    ensures var t := Run(env, work, st).st;
      |t.sent| + Count(t.details, TSkipped) == |st.sent| + Count(st.details, TSkipped) + |work|
    decreases |work|
  {
    if work != [] {
      var s1 := Step(env, st, work[0]).st;
      StepAppends(env, st, work[0]);
      StepEffects(env, st, work[0]);
      var d := s1.details[|st.details|];
      CountAppend(st.details, d);
      RunRequests(env, work[1..], s1);
    }
  }

  /** With no rows fetched the run completes, every item is created, and one
      request is sent per item. */
  lemma {:induction false} RunEmptyStore(env: Env, work: seq<MemoryExtractor.Candidate>, st: State)
    requires st.rows == []
    ensures var t := Run(env, work, st);
      && t.failure.None?
      && t.st.rows == []
      && |t.st.sent| == |st.sent| + |work|
      && |t.st.details| == |st.details| + |work|
      && forall i :: |st.details| <= i < |t.st.details| ==> t.st.details[i].action == Added
    decreases |work|
  {
    if work != [] {
      var s1 := Step(env, st, work[0]).st;
      StepEmptyStore(env, st, work[0]);
      StepEffects(env, st, work[0]);
      RunEmptyStore(env, work[1..], s1);
      var t := Run(env, work[1..], s1).st;
      RunDetails(env, work[1..], s1);
      forall i | |st.details| <= i < |t.details| ensures t.details[i].action == Added {
        if i == |st.details| {
          assert t.details[i] == s1.details[i];
        }
      }
    }
  }

  /** The stored value for an item equals its trimmed value. */
  predicate Current(rows: seq<Row>, c: MemoryExtractor.Candidate, normalize: bool, caseInsensitive: bool) {
    match FirstMatch(rows, AttributeField, Str(AttrKey(c.attribute, normalize)), false)
    case None => false
    case Some(idx) =>
      var stored := Get(rows[idx], ValueField);
      stored.Some? && stored.value.Str? && Equal(stored.value.s, Strip(c.value), caseInsensitive)
  }

  /** When the store already holds every value, everything is skipped and no
      request is sent. */
  lemma {:induction false} RunAllCurrent(env: Env, work: seq<MemoryExtractor.Candidate>, st: State)
    requires st.rows != []
    requires forall i :: 0 <= i < |work| ==> Current(st.rows, work[i], env.normalize, env.caseInsensitive)
    ensures var t := Run(env, work, st);
      && t.failure.None?
      && t.st.sent == st.sent && t.st.rows == st.rows
      && |t.st.details| == |st.details| + |work|
      && forall i :: |st.details| <= i < |t.st.details| ==> t.st.details[i].action == Skipped
    decreases |work|
  {
    if work != [] {
      var s1 := Step(env, st, work[0]).st;
      StepSkipsCurrent(env, st, work[0]);
      StepAppends(env, st, work[0]);
      forall i | 0 <= i < |work[1..]| ensures Current(s1.rows, work[1..][i], env.normalize, env.caseInsensitive) {
        assert work[1..][i] == work[i + 1];
      }
      RunAllCurrent(env, work[1..], s1);
      var t := Run(env, work[1..], s1).st;
      RunDetails(env, work[1..], s1);
      forall i | |st.details| <= i < |t.details| ensures t.details[i].action == Skipped {
        if i == |st.details| {
          assert t.details[i] == s1.details[i];
        }
      }
    }
  }

  /** The action recorded by a step, if it completed. */
  function ActionTaken(env: Env, st: State, c: MemoryExtractor.Candidate): Option<Action> {
    var t := Step(env, st, c);
    if t.failure.None? && |t.st.details| > |st.details| then Some(t.st.details[|st.details|].action) else None
  }

  /** An item whose value is already stored is skipped: nothing is sent and
      no row changes. */
  lemma StepSkipsCurrent(env: Env, st: State, c: MemoryExtractor.Candidate)
    requires st.rows != [] && Current(st.rows, c, env.normalize, env.caseInsensitive)
    ensures Step(env, st, c).failure.None?
    ensures ActionTaken(env, st, c) == Some(Skipped)
    ensures Step(env, st, c).st.sent == st.sent && Step(env, st, c).st.rows == st.rows
  {
  }

  /** The value is written into the stored row before the update is sent,
      whatever the reply: the same candidate met again is skipped and sends
      nothing. */
  lemma WriteThroughSkipsRepeat(env: Env, st: State, c: MemoryExtractor.Candidate)
    requires ActionTaken(env, st, c) == Some(Updated)
    ensures var s1 := Step(env, st, c).st;
      && ActionTaken(env, s1, c) == Some(Skipped)
      && Step(env, s1, c).st.sent == s1.sent
  {
    UpdateWritesThrough(env, st, c);
    StepSkipsCurrent(env, Step(env, st, c).st, c);
  }

  /** After an update the stored row holds the new value. */
  lemma UpdateWritesThrough(env: Env, st: State, c: MemoryExtractor.Candidate)
    requires ActionTaken(env, st, c) == Some(Updated)
    ensures Step(env, st, c).st.rows != []
    ensures Current(Step(env, st, c).st.rows, c, env.normalize, env.caseInsensitive)
  {
    var key := AttrKey(c.attribute, env.normalize);
    var v := Strip(c.value);
    var idx := UpdatedRow(env, st, c);
    FirstMatchFrame(st.rows, idx, ValueField, Str(v), AttributeField, Str(key), false);
    EqualIsEquivalence(v, v, v, env.caseInsensitive);
  }

  /** An update found its row and wrote the new value into it. */
  lemma UpdatedRow(env: Env, st: State, c: MemoryExtractor.Candidate) returns (idx: nat)
    requires ActionTaken(env, st, c) == Some(Updated)
    ensures FirstMatch(st.rows, AttributeField, Str(AttrKey(c.attribute, env.normalize)), false) == Some(idx)
    ensures Step(env, st, c).st.rows == st.rows[idx := st.rows[idx][ValueField := Str(Strip(c.value))]]
  {
    idx := FirstMatch(st.rows, AttributeField, Str(AttrKey(c.attribute, env.normalize)), false).value;
  }

  /** A successful create writes the value under the key into the matched
      row, not into "value__c": the same candidate met again finds no stored
      value and is created a second time. */
  lemma CreateRepeats(env: Env, st: State, c: MemoryExtractor.Candidate)
    requires st.rows != []
    requires AttrKey(c.attribute, env.normalize) != ValueField
    requires AttrKey(c.attribute, env.normalize) != AttributeField
    requires ActionTaken(env, st, c) == Some(Added)
    ensures var s1 := Step(env, st, c).st;
      && ActionTaken(env, s1, c) == Some(Added)
      && |Step(env, s1, c).st.sent| == |s1.sent| + 1
  {
    var key := AttrKey(c.attribute, env.normalize);
    var idx := FirstMatch(st.rows, AttributeField, Str(key), false).value;
    var s1 := Step(env, st, c).st;
    var v := Strip(c.value);
    if Succeeded(StatusErr(env.ingest(|st.sent|)).0) {
      assert s1.rows == st.rows[idx := st.rows[idx][key := Str(v)]];
      FirstMatchFrame(st.rows, idx, key, Str(v), AttributeField, Str(key), false);
      assert Get(s1.rows[idx], ValueField) == Get(st.rows[idx], ValueField);
    } else {
      assert s1.rows == st.rows;
    }
  }

  // ------------------------------------------------------------ the client

  /** `UserAttributeClient`: only the tenant id is read by the engine. */
  class UserAttributeClient {
    const tenantId: Option<string>

    constructor(tenantId: Option<string>)
      ensures this.tenantId == tenantId
    {
      this.tenantId := tenantId;
    }

    /** `upsert_from_candidates`, given the rows `fetch_user_attributes`
        returned. `sent` lists the requests issued, in order; when an
        exception escapes, `outcome` names it and the report is the one the
        caller never gets to see. */
    method UpsertFromCandidates(
      userId: string, candidates: seq<MemoryExtractor.Candidate>,
      normalize: bool, caseInsensitive: bool, dedupe: bool,
      stored: seq<Row>, ingest: nat -> Reply, ids: nat -> string, clock: nat -> string)
      returns (report: UpsertReport, sent: seq<Mutation>, outcome: Outcome)
      ensures fresh(report) && report.Valid() && report.userId == userId
      ensures var t := Run(Env(userId, tenantId, normalize, caseInsensitive, ingest, ids, clock),
                           WorkList(candidates, normalize, dedupe), State(stored, [], []));
              && report.details == t.st.details
              && sent == t.st.sent
              && outcome == (if t.failure.Some? then Raised(t.failure.value) else Completed)
    {
      report := new UpsertReport(userId);
      var work: seq<MemoryExtractor.Candidate>;
      if dedupe {
        work := DedupeLastWriteWins(candidates, normalize);
      } else {
        work := candidates;
      }
      sent, outcome := ProcessAll(Env(userId, tenantId, normalize, caseInsensitive, ingest, ids, clock), report, work, stored);
    }

    /** The work loop of `upsert_from_candidates`: one pass per item, until
        the list ends or an exception escapes. */
    method ProcessAll(env: Env, report: UpsertReport, work: seq<MemoryExtractor.Candidate>, stored: seq<Row>)
      returns (sent: seq<Mutation>, outcome: Outcome)
      requires report.Valid() && report.details == []
      modifies report
      ensures report.Valid()
      ensures var t := Run(env, work, State(stored, [], []));
              && report.details == t.st.details
              && sent == t.st.sent
              && outcome == (if t.failure.Some? then Raised(t.failure.value) else Completed)
    {
      var rows := stored;
      sent := [];
      ghost var goal := Run(env, work, State(stored, [], []));
      var i := 0;
      assert work[0..] == work;
      while i < |work|
        invariant 0 <= i <= |work|
        invariant report.Valid()
        invariant Run(env, work[i..], State(rows, sent, report.details)) == goal
      {
        ghost var st := State(rows, sent, report.details);
        var failure: Option<Failure>;
        rows, sent, failure := ProcessCandidate(env, report, rows, sent, work[i]);
        if failure.Some? {
          RunStop(env, work, i, st, Trace(State(rows, sent, report.details), failure));
          outcome := Raised(failure.value);
          return;
        }
        RunAdvance(env, work, i, st, Trace(State(rows, sent, report.details), failure));
        i := i + 1;
      }
      assert work[i..] == [];
      outcome := Completed;
    }

    /** One pass of the work loop: look the key up among the stored rows and
        compare, then skip, create or update. */
    method ProcessCandidate(env: Env, report: UpsertReport, rows: seq<Row>, sent: seq<Mutation>, c: MemoryExtractor.Candidate)
      returns (rows': seq<Row>, sent': seq<Mutation>, failure: Option<Failure>)
      requires report.Valid()
      modifies report
      ensures report.Valid()
      ensures Step(env, State(rows, sent, old(report.details)), c) == Trace(State(rows', sent', report.details), failure)
    {
      rows', sent', failure := rows, sent, None;
      var key := if env.normalize then Norm(c.attribute) else c.attribute;
      var newValue := Strip(c.value);
      var oldValue: Option<Value> := None;
      var idx: Option<nat> := None;
      if |rows| > 0 {
        var m := FirstMatch(rows, AttributeField, Str(key), false);
        if m.None? {
          failure := Some(IndexError);
          return;
        }
        idx := m;
        oldValue := Get(rows[m.value], ValueField);
      }
      if oldValue.Some? && !oldValue.value.Str? {
        failure := Some(AttributeError);
        return;
      }
      if oldValue.Some? && Equal(oldValue.value.s, newValue, env.caseInsensitive) {
        report.Record(ItemResult(key, Some(oldValue.value.s), newValue, Skipped, None, None));
      } else if oldValue.None? {
        rows', sent' := CreateBranch(env, report, rows, sent, key, newValue, idx);
      } else {
        rows', sent', failure := UpdateBranch(env, report, rows, sent, key, oldValue.value.s, newValue, idx.value);
      }
    }

    /** The create branch: send the create, count it as added or as an error,
        and on success write the value into the matched row under the key. */
    method CreateBranch(env: Env, report: UpsertReport, rows: seq<Row>, sent: seq<Mutation>,
                        key: string, newValue: string, idx: Option<nat>)
      returns (rows': seq<Row>, sent': seq<Mutation>)
      requires idx.Some? ==> idx.value < |rows|
      requires report.Valid()
      modifies report
      ensures report.Valid()
      ensures AddStep(env, State(rows, sent, old(report.details)), key, newValue, idx)
              == Trace(State(rows', sent', report.details), None)
    {
      var n := |sent|;
      sent' := sent + [Create(env.ids(n), env.userId, env.tenantId, key, newValue, env.clock(n), "system", "experimentation", env.clock(n))];
      var (status, err) := StatusErr(env.ingest(n));
      report.Record(ItemResult(key, None, newValue, Added, status, err));
      rows' := rows;
      if Succeeded(status) && idx.Some? {
        rows' := rows[idx.value := rows[idx.value][key := Str(newValue)]];
      }
    }

    /** The update branch: write the new value into the matched row, read its
        id, send the update, count it as updated or as an error. */
    method UpdateBranch(env: Env, report: UpsertReport, rows: seq<Row>, sent: seq<Mutation>,
                        key: string, prev: string, newValue: string, j: nat)
      returns (rows': seq<Row>, sent': seq<Mutation>, failure: Option<Failure>)
      requires j < |rows|
      requires report.Valid()
      modifies report
      ensures report.Valid()
      ensures UpdateStep(env, State(rows, sent, old(report.details)), key, prev, newValue, j)
              == Trace(State(rows', sent', report.details), failure)
    {
      rows' := rows[j := rows[j][ValueField := Str(newValue)]];
      sent', failure := sent, None;
      if IdField !in rows'[j] {
        failure := Some(KeyError);
        return;
      }
      var n := |sent|;
      sent' := sent + [Update(rows'[j][IdField], newValue, env.clock(n))];
      var reply := env.ingest(n);
      if reply.NoResponse? {
        failure := Some(AttributeError);
        return;
      }
      if reply.body.NotJson? {
        failure := Some(JsonDecodeError);
        return;
      }
      var (status, err) := StatusErr(reply);
      report.Record(ItemResult(key, Some(prev), newValue, Updated, status, err));
    }
  }
}
