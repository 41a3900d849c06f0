/**
 * The deterministic half of the memory extractor: validation of the
 * candidates the language model proposes, and the builders of the user
 * prompt sent to it (dialogue lines, fact bullets, the default template).
 */
module MemoryExtractor {
  import opened Common
  import opened Text

  /** A validated memory fact: all three fields trimmed and non-empty. */
  datatype Candidate = Candidate(entity: string, attribute: string, value: string)

  /** One element of the model's JSON array, before validation. */
  datatype Item = Object(fields: Row) | NotAnObject

  /** Why a row is not a candidate; each carries the offending field or key. */
  datatype Issue =
    | NotADict
    | Missing(field: string)
    | NotAString(field: string)
    | Empty(field: string)
    | ExtraForbidden(key: string)

  const FieldNames: set<string> := {"entity", "attribute", "value"}

  /** The text of each validation error. */
  function Message(issue: Issue): string {
    match issue
    case NotADict => "Input should be a valid dictionary or instance of MemoryCandidate"
    case Missing(_) => "Field required"
    case NotAString(_) => "Input should be a valid string"
    case Empty(_) => "must be non-empty"
    case ExtraForbidden(_) => "Extra inputs are not permitted"
  }

  /** The problem with one declared field, if any: the field is trimmed of
      White_Space (pydantic's `str_strip_whitespace`, not Python's `strip`)
      before the non-empty check runs. */
  function FieldIssue(row: Row, f: string): Option<Issue> {
    if f !in row then Some(Missing(f))
    else match row[f]
      case Str(v) => if Trim(v) == "" then Some(Empty(f)) else None
      case _ => Some(NotAString(f))
  }

  /** Every problem with a row: the declared fields, then any extra key. */
  function Issues(row: Row): set<Issue> {
    (set f | f in FieldNames && FieldIssue(row, f).Some? :: FieldIssue(row, f).value)
    + (set k | k in row && k !in FieldNames :: ExtraForbidden(k))
  }

  /** The three fields are present, strings, and not blank, and nothing else is. */
  predicate WellFormed(row: Row) {
    && row.Keys == FieldNames
    && forall f :: f in FieldNames ==> row[f].Str? && Trim(row[f].s) != ""
  }

  /** A row that is not well formed has at least one issue. */
  lemma IssueExists(row: Row)
    requires !WellFormed(row)
    ensures Issues(row) != {}
  {
    if f :| f in FieldNames && FieldIssue(row, f).Some? {
      assert FieldIssue(row, f).value in Issues(row);
    } else {
      var k :| k in row && k !in FieldNames;
      assert ExtraForbidden(k) in Issues(row);
    }
  }

  /** `MemoryCandidate.model_validate(row)`. */
  function Validate(item: Item): (r: Result<Candidate, set<Issue>>)
    ensures r.Ok? ==>
              && item.Object?
              && item.fields.Keys == FieldNames
              && (forall f :: f in FieldNames ==> item.fields[f].Str?)
              && r.value.entity == Trim(item.fields["entity"].s) != ""
              && r.value.attribute == Trim(item.fields["attribute"].s) != ""
              && r.value.value == Trim(item.fields["value"].s) != ""
    ensures r.Err? ==> r.error != {}
  {
    match item
    case NotAnObject => Err({NotADict})
    case Object(row) =>
      if WellFormed(row) then
        Ok(Candidate(Trim(row["entity"].s), Trim(row["attribute"].s), Trim(row["value"].s)))
      else
        IssueExists(row);
        Err(Issues(row))
  }

  /** A row validates exactly when it has no issue: a string for each of the
      three fields that is not blank once stripped, and no other key. */
  lemma ValidateExactly(row: Row)
    ensures Validate(Object(row)).Ok? <==> Issues(row) == {}
  {
    if WellFormed(row) {
      assert forall f :: f in FieldNames ==> FieldIssue(row, f).None?;
      assert Issues(row) == {};
    } else {
      IssueExists(row);
    }
  }

  /** A blank field is refused with "must be non-empty". */
  lemma BlankFieldRejected(row: Row, f: string)
    requires f in FieldNames && f in row && row[f].Str? && Trim(row[f].s) == ""
    ensures Validate(Object(row)).Err?
    ensures exists issue :: issue in Validate(Object(row)).error && Message(issue) == "must be non-empty"
  {
    assert Empty(f) in Issues(row);
  }

  /** A field the model does not declare is refused. */
  lemma ExtraKeyRejected(row: Row, k: string)
    requires k in row && k !in FieldNames
    ensures Validate(Object(row)) == Err(Issues(row))
    ensures ExtraForbidden(k) in Validate(Object(row)).error
  {
    assert ExtraForbidden(k) in Issues(row);
  }

  /** Surrounding White_Space is removed from every field. */
  lemma FieldsAreStripped(e: string, a: string, v: string)
    requires Trim(e) != "" && Trim(a) != "" && Trim(v) != ""
    ensures Validate(Object(map["entity" := Str(e), "attribute" := Str(a), "value" := Str(v)]))
            == Ok(Candidate(Trim(e), Trim(a), Trim(v)))
  {
    var row := map["entity" := Str(e), "attribute" := Str(a), "value" := Str(v)];
    assert WellFormed(row);
  }

  /** A field holding only a separator control is kept: the trim that runs
      before the non-empty check is narrower than Python's `strip`. */
  lemma SeparatorFieldKept()
    ensures Validate(Object(map["entity" := Str("\U{1F}"), "attribute" := Str("a"), "value" := Str("v")]))
            == Ok(Candidate("\U{1F}", "a", "v"))
    ensures Strip("\U{1F}") == ""
  {
    TrimKeepsSeparators();
    assert Trim("a") == "a" && Trim("v") == "v";
    FieldsAreStripped("\U{1F}", "a", "v");
  }

  // ------------------------------------------------------------ filtering

  /** The valid rows, in input order. */
  function ValidCandidates(items: seq<Item>): (out: seq<Candidate>)
    ensures |out| <= |items|
  {
    if items == [] then []
    else
      var last := items[|items| - 1];
      ValidCandidates(items[..|items| - 1]) + (if Validate(last).Ok? then [Validate(last).value] else [])
  }

  /** `_to_pydantic_list`: keep what validates, silently drop the rest. */
  method ToCandidateList(items: seq<Item>) returns (out: seq<Candidate>)
    ensures out == ValidCandidates(items)
  {
    out := [];
    for i := 0 to |items|
      invariant out == ValidCandidates(items[..i])
    {
      assert items[..i + 1][..i] == items[..i];
      match Validate(items[i])
      case Ok(c) => out := out + [c];
      case Err(_) =>
    }
    assert items[..|items|] == items;
  }

  /** Filtering distributes over concatenation, so input order is kept. */
  lemma {:induction false} ValidCandidatesAppend(a: seq<Item>, b: seq<Item>)
    ensures ValidCandidates(a + b) == ValidCandidates(a) + ValidCandidates(b)
    decreases |b|
  {
    if b == [] {
      assert a + b == a;
    } else {
      var n := |b| - 1;
      assert (a + b)[..|a + b| - 1] == a + b[..n];
      ValidCandidatesAppend(a, b[..n]);
    }
  }

  /** A candidate is in the output exactly when some input row validates to it. */
  lemma ValidCandidatesMembers(items: seq<Item>, c: Candidate)
    ensures c in ValidCandidates(items) <==> exists i :: 0 <= i < |items| && Validate(items[i]) == Ok(c)
  {
    if c in ValidCandidates(items) {
      var i := ValidCandidatesSource(items, c);
    }
    if i :| 0 <= i < |items| && Validate(items[i]) == Ok(c) {
      ValidCandidatesKeeps(items, i, c);
    }
  }

  /** Every output candidate comes from some input row. */
  lemma {:induction false} ValidCandidatesSource(items: seq<Item>, c: Candidate) returns (i: nat)
    requires c in ValidCandidates(items)
    ensures i < |items| && Validate(items[i]) == Ok(c)
  {
    var n := |items| - 1;
    var v := Validate(items[n]);
    assert ValidCandidates(items) == ValidCandidates(items[..n]) + (if v.Ok? then [v.value] else []);
    if c in ValidCandidates(items[..n]) {
      i := ValidCandidatesSource(items[..n], c);
      assert items[..n][i] == items[i];
    } else {
      i := n;
    }
  }

  /** Every row that validates reaches the output. */
  lemma {:induction false} ValidCandidatesKeeps(items: seq<Item>, i: nat, c: Candidate)
    requires i < |items| && Validate(items[i]) == Ok(c)
    ensures c in ValidCandidates(items)
  {
    var n := |items| - 1;
    var v := Validate(items[n]);
    assert ValidCandidates(items) == ValidCandidates(items[..n]) + (if v.Ok? then [v.value] else []);
    if i < n {
      assert items[..n][i] == items[i];
      ValidCandidatesKeeps(items[..n], i, c);
    }
  }

  /** Nothing is dropped when every row is valid. */
  lemma {:induction false} AllValidKept(items: seq<Item>)
    requires forall i :: 0 <= i < |items| ==> Validate(items[i]).Ok?
    ensures |ValidCandidates(items)| == |items|
  {
    if items != [] {
      AllValidKept(items[..|items| - 1]);
    }
  }

  // ------------------------------------------------------------ dialogue

  /** An element of the recent dialogue: a (speaker, text) tuple or a plain string. */
  datatype Turn = Pair(speaker: string, text: string) | Line(text: string)

  /** Unpacking a plain string of length other than 2 into (speaker, text)
      raises ValueError. */
  datatype DialogueError = CannotUnpack

  /** Tuple mode is decided by the first element alone. */
  predicate TupleMode(d: seq<Turn>) {
    d != [] && d[0].Pair?
  }

  /** `str((speaker, text))`, for texts without quotes, backslashes or
      non-printable characters. */
  function PairRepr(speaker: string, text: string): string {
    "('" + speaker + "', '" + text + "')"
  }

  predicate Unpacks(t: Turn, tupleMode: bool) {
    !tupleMode || t.Pair? || |t.text| == 2
  }

  function Render(t: Turn, tupleMode: bool): string {
    if tupleMode then
      match t
      case Pair(s, x) => s + ": " + x
      case Line(x) => if |x| == 2 then [x[0]] + ": " + [x[1]] else ""
    else
      match t
      case Pair(s, x) => PairRepr(s, x)
      case Line(x) => x
  }

  function Lines(d: seq<Turn>, tupleMode: bool): (lines: seq<string>)
    ensures |lines| == |d|
  {
    seq(|d|, i requires 0 <= i < |d| => Render(d[i], tupleMode))
  }

  /** What `_format_dialogue` returns or raises. */
  function DialogueText(d: seq<Turn>): Result<string, DialogueError> {
    if d == [] then Ok("")
    else if forall i :: 0 <= i < |d| ==> Unpacks(d[i], TupleMode(d)) then Ok(Join(Lines(d, TupleMode(d)), "\n"))
    else Err(CannotUnpack)
  }

  /** `_format_dialogue`. */
  method FormatDialogue(d: seq<Turn>) returns (r: Result<string, DialogueError>)
    ensures r == DialogueText(d)
  {
    if d == [] {
      return Ok("");
    }
    var tupleMode := d[0].Pair?;
    var lines: seq<string> := [];
    for i := 0 to |d|
      invariant lines == Lines(d[..i], tupleMode)
      invariant forall j :: 0 <= j < i ==> Unpacks(d[j], tupleMode)
    {
      if !Unpacks(d[i], tupleMode) {
        return Err(CannotUnpack);
      }
      lines := lines + [Render(d[i], tupleMode)];
    }
    assert d[..|d|] == d;
    r := Ok(Join(lines, "\n"));
  }

  /** In plain-string mode nothing is unpacked, so formatting never fails. */
  lemma StringModeNeverFails(d: seq<Turn>)
    requires !TupleMode(d)
    ensures DialogueText(d).Ok?
  {
  }

  /** The dialogue text has one line per turn, as long as no turn spans lines. */
  lemma OneLinePerTurn(d: seq<Turn>)
    requires d != [] && DialogueText(d).Ok?
    requires forall i :: 0 <= i < |d| ==> '\n' !in Render(d[i], TupleMode(d))
    ensures Split(DialogueText(d).value, '\n') == Lines(d, TupleMode(d))
    ensures |Split(DialogueText(d).value, '\n')| == |d|
  {
    SplitJoin(Lines(d, TupleMode(d)), '\n');
  }

  // ------------------------------------------------------------ bullets

  function Bullets(items: seq<string>): (lines: seq<string>)
    ensures |lines| == |items|
  {
    seq(|items|, i requires 0 <= i < |items| => "- " + items[i])
  }

  /** `_format_bullets`. */
  function FormatBullets(items: seq<string>): (r: string)
    ensures items == [] ==> r == ""
    ensures items != [] ==> |r| >= 2
  {
    if items == [] then "" else
      JoinOccurs(Bullets(items), "\n", 0);
      Join(Bullets(items), "\n")
  }

  /** One "- "-prefixed line per item, in order, as long as no item spans lines. */
  lemma BulletLines(items: seq<string>)
    requires items != []
    requires forall i :: 0 <= i < |items| ==> '\n' !in items[i]
    ensures Split(FormatBullets(items), '\n') == Bullets(items)
    ensures forall i :: 0 <= i < |items| ==> StartsWith(Bullets(items)[i], "- ")
  {
    forall i | 0 <= i < |items| ensures '\n' !in Bullets(items)[i] {
      assert Bullets(items)[i] == "- " + items[i];
    }
    SplitJoin(Bullets(items), '\n');
  }

  // ------------------------------------------------------------ prompt

  /** The pieces of the default user template around its four fields. */
  const Preamble: string := "Context\n-------\n"
  const VarsHeader: string := "Session Variables:\n"
  const DialogueHeader: string := "\n\nRecent Dialogue:\n"
  const FactsHeader: string := "\n\nPast Memory Facts:\n"
  const InstructionHeader: string :=
    "\n\nInstruction\n-----------\nGiven the above, extract memory-worthy facts from the user's latest message:\n\""
  const Closing: string :=
    "\"\n\nOutput ONLY a JSON array of objects with keys \"entity\", \"attribute\", and \"value\".\nIf there are no memory-worthy facts, return [].\n"

  /** `DEFAULT_USER_TEMPLATE.format(...)`. */
  function Fill(sv: string, rd: string, pmf: string, utterance: string): string {
    Preamble + VarsHeader + sv + DialogueHeader + rd + FactsHeader + pmf + InstructionHeader + utterance + Closing
  }

  /** `x or "(none)"` */
  function OrNone(x: string): (r: string)
    ensures r != ""
    ensures x != "" ==> r == x
  {
    if x == "" then "(none)" else x
  }

  function SessionPairs(vars: seq<(string, string)>): (parts: seq<string>)
    ensures |parts| == |vars|
  {
    seq(|vars|, i requires 0 <= i < |vars| => vars[i].0 + "=" + vars[i].1)
  }

  /** `" ".join(f"{k}={v}" for k, v in session_vars.items())`; values are
      given already rendered by `str`. */
  function SessionText(vars: seq<(string, string)>): (r: string)
    ensures r == "" <==> vars == []
  {
    if vars == [] then "" else
      JoinOccurs(SessionPairs(vars), " ", 0);
      Join(SessionPairs(vars), " ")
  }

  /** `_render_user_prompt` with the default template; raises what
      `_format_dialogue` raises. */
  function RenderUserPrompt(utterance: string, vars: seq<(string, string)>, d: seq<Turn>, facts: seq<string>)
    : Result<string, DialogueError>
  {
    match DialogueText(d)
    case Err(e) => Err(e)
    case Ok(rd) => Ok(Fill(OrNone(SessionText(vars)), OrNone(rd), OrNone(FormatBullets(facts)), Strip(utterance)))
  }

  /** Rendering fails exactly when the dialogue cannot be formatted. */
  lemma RenderFailsOnlyOnDialogue(utterance: string, vars: seq<(string, string)>, d: seq<Turn>, facts: seq<string>)
    ensures RenderUserPrompt(utterance, vars, d, facts).Err? <==> DialogueText(d).Err?
  {
  }

  /** In a concatenation of ten pieces, the second to fourth occur together. */
  lemma TemplateSlice1(a: string, b: string, c: string, d: string, e: string,
                       f: string, g: string, h: string, i: string, j: string)
    ensures Contains(a + b + c + d + e + f + g + h + i + j, b + c + d)
  {
    assert a + b + c + d + e + f + g + h + i + j == a + (b + c + d) + (e + f + g + h + i + j);
    ContainsInside(b + c + d, b + c + d, a, e + f + g + h + i + j);
  }

  /** In a concatenation of ten pieces, the fourth to sixth occur together. */
  lemma TemplateSlice2(a: string, b: string, c: string, d: string, e: string,
                       f: string, g: string, h: string, i: string, j: string)
    ensures Contains(a + b + c + d + e + f + g + h + i + j, d + e + f)
  {
    assert a + b + c + d + e + f + g + h + i + j == (a + b + c) + (d + e + f) + (g + h + i + j);
    ContainsInside(d + e + f, d + e + f, a + b + c, g + h + i + j);
  }

  /** In a concatenation of ten pieces, the sixth to eighth occur together. */
  lemma TemplateSlice3(a: string, b: string, c: string, d: string, e: string,
                       f: string, g: string, h: string, i: string, j: string)
    ensures Contains(a + b + c + d + e + f + g + h + i + j, f + g + h)
  {
    assert a + b + c + d + e + f + g + h + i + j == (a + b + c + d + e) + (f + g + h) + (i + j);
    ContainsInside(f + g + h, f + g + h, a + b + c + d + e, i + j);
  }

  /** In a concatenation of ten pieces, the last three occur together. */
  lemma TemplateSlice4(a: string, b: string, c: string, d: string, e: string,
                       f: string, g: string, h: string, i: string, j: string)
    ensures Contains(a + b + c + d + e + f + g + h + i + j, h + i + j)
  {
    assert a + b + c + d + e + f + g + h + i + j == (a + b + c + d + e + f + g) + (h + i + j) + "";
    ContainsInside(h + i + j, h + i + j, a + b + c + d + e + f + g, "");
  }

  /** The session variables (or "(none)") sit between their header and the next. */
  lemma PromptVarsSection(utterance: string, vars: seq<(string, string)>, d: seq<Turn>, facts: seq<string>)
    requires RenderUserPrompt(utterance, vars, d, facts).Ok?
    ensures Contains(RenderUserPrompt(utterance, vars, d, facts).value,
                     VarsHeader + (if vars == [] then "(none)" else SessionText(vars)) + DialogueHeader)
  {
    var sv, rd, pmf, u := OrNone(SessionText(vars)), OrNone(DialogueText(d).value), OrNone(FormatBullets(facts)), Strip(utterance);
    TemplateSlice1(Preamble, VarsHeader, sv, DialogueHeader, rd, FactsHeader, pmf, InstructionHeader, u, Closing);
  }


  /** The dialogue lines (or "(none)") sit between their header and the next. */
  lemma PromptDialogueSection(utterance: string, vars: seq<(string, string)>, d: seq<Turn>, facts: seq<string>)
    requires RenderUserPrompt(utterance, vars, d, facts).Ok?
    ensures Contains(RenderUserPrompt(utterance, vars, d, facts).value,
                     DialogueHeader + OrNone(DialogueText(d).value) + FactsHeader)
  {
    var sv, rd, pmf, u := OrNone(SessionText(vars)), OrNone(DialogueText(d).value), OrNone(FormatBullets(facts)), Strip(utterance);
    TemplateSlice2(Preamble, VarsHeader, sv, DialogueHeader, rd, FactsHeader, pmf, InstructionHeader, u, Closing);
  }


  /** The fact bullets (or "(none)") sit between their header and the instruction. */
  lemma PromptFactsSection(utterance: string, vars: seq<(string, string)>, d: seq<Turn>, facts: seq<string>)
    requires RenderUserPrompt(utterance, vars, d, facts).Ok?
    ensures Contains(RenderUserPrompt(utterance, vars, d, facts).value,
                     FactsHeader + (if facts == [] then "(none)" else FormatBullets(facts)) + InstructionHeader)
  {
    var sv, rd, pmf, u := OrNone(SessionText(vars)), OrNone(DialogueText(d).value), OrNone(FormatBullets(facts)), Strip(utterance);
    TemplateSlice3(Preamble, VarsHeader, sv, DialogueHeader, rd, FactsHeader, pmf, InstructionHeader, u, Closing);
  }


  /** The trimmed utterance closes the instruction, in double quotes. */
  lemma PromptUtterance(utterance: string, vars: seq<(string, string)>, d: seq<Turn>, facts: seq<string>)
    requires RenderUserPrompt(utterance, vars, d, facts).Ok?
    ensures Contains(RenderUserPrompt(utterance, vars, d, facts).value, InstructionHeader + Strip(utterance) + Closing)
  {
    var sv, rd, pmf, u := OrNone(SessionText(vars)), OrNone(DialogueText(d).value), OrNone(FormatBullets(facts)), Strip(utterance);
    TemplateSlice4(Preamble, VarsHeader, sv, DialogueHeader, rd, FactsHeader, pmf, InstructionHeader, u, Closing);
  }

  /** Each session variable shows up in the prompt as `key=value`, e.g. "passengers=2". */
  lemma PromptShowsSessionVar(utterance: string, vars: seq<(string, string)>, d: seq<Turn>, facts: seq<string>, i: nat)
    requires RenderUserPrompt(utterance, vars, d, facts).Ok?
    requires i < |vars|
    ensures Contains(RenderUserPrompt(utterance, vars, d, facts).value, vars[i].0 + "=" + vars[i].1)
  {
    PromptVarsSection(utterance, vars, d, facts);
    JoinContainsParts(SessionPairs(vars), " ", i);
    ContainsInside(SessionText(vars), SessionPairs(vars)[i], VarsHeader, DialogueHeader);
    ContainsTransitive(RenderUserPrompt(utterance, vars, d, facts).value,
                       VarsHeader + SessionText(vars) + DialogueHeader, SessionPairs(vars)[i]);
  }

  /** Each dialogue line shows up in the prompt, e.g. "Agent: What time?". */
  lemma PromptShowsTurn(utterance: string, vars: seq<(string, string)>, d: seq<Turn>, facts: seq<string>, i: nat)
    requires RenderUserPrompt(utterance, vars, d, facts).Ok?
    requires i < |d|
    ensures Contains(RenderUserPrompt(utterance, vars, d, facts).value, Render(d[i], TupleMode(d)))
  {
    var rd := DialogueText(d).value;
    PromptDialogueSection(utterance, vars, d, facts);
    JoinContainsParts(Lines(d, TupleMode(d)), "\n", i);
    ContainsInside(rd, Lines(d, TupleMode(d))[i], DialogueHeader, FactsHeader);
    if rd == "" {
      ContainsInside(rd, Lines(d, TupleMode(d))[i], "", "");
      assert "" + rd + "" == rd;
      ContainsInside(rd, Lines(d, TupleMode(d))[i], DialogueHeader, FactsHeader);
    }
    ContainsTransitive(RenderUserPrompt(utterance, vars, d, facts).value,
                       DialogueHeader + OrNone(rd) + FactsHeader, Lines(d, TupleMode(d))[i]);
  }

  /** Each past fact shows up in the prompt as a bullet. */
  lemma PromptShowsFact(utterance: string, vars: seq<(string, string)>, d: seq<Turn>, facts: seq<string>, i: nat)
    requires RenderUserPrompt(utterance, vars, d, facts).Ok?
    requires i < |facts|
    ensures Contains(RenderUserPrompt(utterance, vars, d, facts).value, "- " + facts[i])
  {
    PromptFactsSection(utterance, vars, d, facts);
    JoinContainsParts(Bullets(facts), "\n", i);
    ContainsInside(FormatBullets(facts), Bullets(facts)[i], FactsHeader, InstructionHeader);
    ContainsTransitive(RenderUserPrompt(utterance, vars, d, facts).value,
                       FactsHeader + FormatBullets(facts) + InstructionHeader, Bullets(facts)[i]);
  }

  /** Surrounding whitespace of the utterance never reaches the prompt. */
  lemma UtteranceTrimmed(utterance: string, vars: seq<(string, string)>, d: seq<Turn>, facts: seq<string>)
    ensures RenderUserPrompt(utterance, vars, d, facts) == RenderUserPrompt(Strip(utterance), vars, d, facts)
  {
    StripIdempotent(utterance);
  }

  // ------------------------------------------------------------ overrides

  /** `_pick`: the default replaces only a missing value. */
  function Pick<T>(v: Option<T>, default: T): (r: T)
    ensures v.None? ==> r == default
    ensures v.Some? ==> r == v.value
  {
    match v
    case None => default
    case Some(x) => x
  }

  /** Python's `v or default` for an optional argument: the default replaces
      a missing value and also any value `truthy` calls false. This is how
      `extract` chooses the model name. */
  function Or<T>(v: Option<T>, default: T, truthy: T -> bool): (r: T)
    ensures r == default || (v.Some? && r == v.value && truthy(v.value))
  {
    if v.Some? && truthy(v.value) then v.value else default
  }

  /** `_pick` and `or` disagree exactly on a present falsy value that is not
      the default itself. */
  lemma PickVersusOr<T>(v: Option<T>, default: T, truthy: T -> bool)
    ensures Pick(v, default) != Or(v, default, truthy)
            <==> v.Some? && !truthy(v.value) && v.value != default
  {
  }

  /** Python truthiness of an `int` and of a `str`. */
  predicate IntTruthy(x: int) { x != 0 }
  predicate StrTruthy(x: string) { x != "" }

  /** A temperature of 0 is kept by `_pick` where `or` would have replaced
      it, while an empty model name falls back to the configured one. */
  lemma ZeroOverrideKept(default: int, model: string)
    requires default != 0
    ensures Pick(Some(0), default) == 0
    ensures Or(Some(0), default, IntTruthy) == default
    ensures Or(Some(""), model, StrTruthy) == model
    ensures Or(Some("gpt"), model, StrTruthy) == "gpt"
  {
  }
}
