/**
 * The handful of Python string operations the core relies on: `strip`,
 * `lower`, `upper` (over ASCII letters), `in`, `endswith`, `sep.join` and
 * splitting on a separator (the inverse of joining), plus the narrower trim
 * that pydantic applies to `str` fields.
 */
module Text {

  /** Unicode White_Space: the characters Rust's `str::trim` removes, and so
      what pydantic's `str_strip_whitespace` trims. */
  predicate IsWhiteSpace(c: char) {
    var n := c as int;
    || (9 <= n <= 13) || n == 32 || n == 0x85 || n == 0xA0 || n == 0x1680
    || (0x2000 <= n <= 0x200A) || n == 0x2028 || n == 0x2029 || n == 0x202F
    || n == 0x205F || n == 0x3000
  }

  /** Python's `str.isspace`: White_Space and the four separator controls
      \x1c-\x1f, which Python counts and Unicode does not. */
  predicate IsSpace(c: char) {
    IsWhiteSpace(c) || (28 <= c as int <= 31)
  }

  /** Which characters a strip removes. */
  datatype Blanks = PythonSpace | WhiteSpace

  predicate IsBlank(c: char, b: Blanks) {
    match b
    case PythonSpace => IsSpace(c)
    case WhiteSpace => IsWhiteSpace(c)
  }

  function StripLeft(s: string, b: Blanks): string {
    if s != [] && IsBlank(s[0], b) then StripLeft(s[1..], b) else s
  }

  function StripRight(s: string, b: Blanks): string {
    if s != [] && IsBlank(s[|s| - 1], b) then StripRight(s[..|s| - 1], b) else s
  }

  /** `s.strip()` */
  function Strip(s: string): string {
    StripRight(StripLeft(s, PythonSpace), PythonSpace)
  }

  /** The trim pydantic applies to a `str` field under `str_strip_whitespace`. */
  function Trim(s: string): string {
    StripRight(StripLeft(s, WhiteSpace), WhiteSpace)
  }

  /** A string `strip` leaves alone: empty, or non-blank at both ends. */
  predicate Trimmed(s: string) {
    s == [] || (!IsSpace(s[0]) && !IsSpace(s[|s| - 1]))
  }

  lemma {:induction false} StripLeftShape(s: string, b: Blanks)
    ensures StripLeft(s, b) == [] || !IsBlank(StripLeft(s, b)[0], b)
    ensures |StripLeft(s, b)| <= |s| && StripLeft(s, b) == s[|s| - |StripLeft(s, b)|..]
  {
    if s != [] && IsBlank(s[0], b) {
      StripLeftShape(s[1..], b);
    }
  }

  lemma {:induction false} StripRightShape(s: string, b: Blanks)
    ensures StripRight(s, b) == [] || !IsBlank(StripRight(s, b)[|StripRight(s, b)| - 1], b)
    ensures |StripRight(s, b)| <= |s| && StripRight(s, b) == s[..|StripRight(s, b)|]
    ensures s != [] && !IsBlank(s[0], b) ==> StripRight(s, b) != [] && StripRight(s, b)[0] == s[0]
  {
    if s != [] && IsBlank(s[|s| - 1], b) {
      StripRightShape(s[..|s| - 1], b);
    }
  }

  /** `sub` occurs in `s` starting at position `k`. */
  predicate OccursAt(s: string, sub: string, k: nat) {
    k + |sub| <= |s| && s[k..k + |sub|] == sub
  }

  /** The result of `strip` has no blank at either end, and is a slice of the input. */
  lemma StripTrims(s: string)
    ensures Trimmed(Strip(s))
    ensures |Strip(s)| <= |s|
    ensures exists k: nat :: OccursAt(s, Strip(s), k)
  {
    var l := StripLeft(s, PythonSpace);
    StripLeftShape(s, PythonSpace);
    StripRightShape(l, PythonSpace);
    var k := |s| - |l|;
    assert OccursAt(s, Strip(s), k);
  }

  /** `strip` is the identity exactly on trimmed strings. */
  lemma StripIdentity(s: string)
    ensures Strip(s) == s <==> Trimmed(s)
  {
    StripTrims(s);
    if Trimmed(s) && s != [] {
      assert StripLeft(s, PythonSpace) == s;
    }
  }

  /** Stripping twice is stripping once. */
  lemma StripIdempotent(s: string)
    ensures Strip(Strip(s)) == Strip(s)
  {
    StripTrims(s);
    StripIdentity(Strip(s));
  }

  /** pydantic's trim leaves no White_Space at either end, and never removes
      a character Python would keep. */
  lemma TrimTrims(s: string)
    ensures Trim(s) == [] || (!IsWhiteSpace(Trim(s)[0]) && !IsWhiteSpace(Trim(s)[|Trim(s)| - 1]))
    ensures exists k: nat :: OccursAt(s, Trim(s), k)
  {
    var l := StripLeft(s, WhiteSpace);
    StripLeftShape(s, WhiteSpace);
    StripRightShape(l, WhiteSpace);
    assert OccursAt(s, Trim(s), |s| - |l|);
  }

  /** The two strips part ways on the separator controls: Python removes a
      lone unit separator, pydantic keeps it. */
  lemma TrimKeepsSeparators()
    ensures Strip("\U{1F}") == "" && Trim("\U{1F}") == "\U{1F}"
    ensures Strip(" \U{A0}x\U{3000}") == "x" == Trim(" \U{A0}x\U{3000}")
  {
    assert StripLeft("\U{1F}", PythonSpace) == StripLeft("", PythonSpace);
    var s := " \U{A0}x\U{3000}";
    assert StripLeft(s, PythonSpace) == StripLeft(s[1..], PythonSpace) == StripLeft(s[2..], PythonSpace) == s[2..];
    assert StripRight(s[2..], PythonSpace) == StripRight(s[2..3], PythonSpace) == "x";
    assert StripLeft(s, WhiteSpace) == StripLeft(s[1..], WhiteSpace) == StripLeft(s[2..], WhiteSpace) == s[2..];
    assert StripRight(s[2..], WhiteSpace) == StripRight(s[2..3], WhiteSpace) == "x";
  }

  function LowerChar(c: char): char {
    if 'A' <= c <= 'Z' then (c as int + 32) as char else c
  }

  function UpperChar(c: char): char {
    if 'a' <= c <= 'z' then (c as int - 32) as char else c
  }

  /** `s.lower()` (also `casefold`, which agrees with it on ASCII) */
  function Lower(s: string): (r: string)
    ensures |r| == |s|
  {
    seq(|s|, i requires 0 <= i < |s| => LowerChar(s[i]))
  }

  /** `s.upper()` */
  function Upper(s: string): (r: string)
    ensures |r| == |s|
  {
    seq(|s|, i requires 0 <= i < |s| => UpperChar(s[i]))
  }

  predicate StartsWith(s: string, prefix: string) {
    |prefix| <= |s| && s[..|prefix|] == prefix
  }

  /** `s.endswith(suffix)` */
  predicate EndsWith(s: string, suffix: string) {
    |suffix| <= |s| && s[|s| - |suffix|..] == suffix
  }

  /** `sub in s` */
  predicate Contains(s: string, sub: string)
    decreases |s|
  {
    StartsWith(s, sub) || (s != [] && Contains(s[1..], sub))
  }

  /** `sep.join(parts)` */
  function Join(parts: seq<string>, sep: string): string
  {
    if |parts| == 0 then ""
    else if |parts| == 1 then parts[0]
    else parts[0] + sep + Join(parts[1..], sep)
  }

  /** `s.split(sep)` for a one-character separator. */
  function Split(s: string, sep: char): (r: seq<string>)
    ensures |r| >= 1
  {
    if s == [] then [""]
    else
      var rest := Split(s[1..], sep);
      if s[0] == sep then [""] + rest else [[s[0]] + rest[0]] + rest[1..]
  }

  lemma {:induction false} SplitAfterPlain(p: string, rest: string, sep: char)
    requires sep !in p
    ensures Split(p + rest, sep) == [p + Split(rest, sep)[0]] + Split(rest, sep)[1..]
  {
    var r := Split(rest, sep);
    if p == [] {
      assert p + rest == rest;
      assert p + r[0] == r[0];
      assert [r[0]] + r[1..] == r;
    } else {
      assert (p + rest)[1..] == p[1..] + rest;
      SplitAfterPlain(p[1..], rest, sep);
      assert [p[0]] + (p[1..] + r[0]) == p + r[0];
    }
  }

  /** Splitting a join on its separator gives the parts back, as long as no
      part contains the separator: one line per part. */
  lemma {:induction false} SplitJoin(parts: seq<string>, sep: char)
    requires |parts| >= 1
    requires forall i :: 0 <= i < |parts| ==> sep !in parts[i]
    ensures Split(Join(parts, [sep]), sep) == parts
  {
    if |parts| == 1 {
      SplitAfterPlain(parts[0], "", sep);
      assert parts[0] + "" == parts[0];
    } else {
      var tail := Join(parts[1..], [sep]);
      SplitJoin(parts[1..], sep);
      SplitAfterPlain(parts[0], [sep] + tail, sep);
      assert Join(parts, [sep]) == parts[0] + ([sep] + tail);
      assert ([sep] + tail)[1..] == tail;
      assert Split([sep] + tail, sep) == [""] + parts[1..];
      assert parts[0] + "" == parts[0];
      assert parts == [parts[0]] + parts[1..];
    }
  }

  /** An occurrence at a position is what `in` looks for. */
  lemma {:induction false} OccursAtContains(s: string, sub: string, k: nat)
    requires OccursAt(s, sub, k)
    ensures Contains(s, sub)
    decreases k
  {
    if k > 0 {
      assert s[1..][k - 1..k - 1 + |sub|] == s[k..k + |sub|];
      OccursAtContains(s[1..], sub, k - 1);
    } else {
      assert s[..|sub|] == s[0..|sub|];
    }
  }

  /** An occurrence inside a piece is an occurrence inside any string the piece is glued into. */
  lemma OccursAtShift(s: string, sub: string, k: nat, before: string, after: string)
    requires OccursAt(s, sub, k)
    ensures OccursAt(before + s + after, sub, |before| + k)
  {
    assert (before + s + after)[|before| + k..|before| + k + |sub|] == s[k..k + |sub|];
  }

  /** Joining never loses a part: every part occurs in the joined string. */
  lemma {:induction false} JoinOccurs(parts: seq<string>, sep: string, i: nat)
    requires i < |parts|
    ensures exists k: nat :: OccursAt(Join(parts, sep), parts[i], k)
  {
    var j := Join(parts, sep);
    if |parts| == 1 || i == 0 {
      assert OccursAt(j, parts[i], 0);
    } else {
      JoinOccurs(parts[1..], sep, i - 1);
      var t := Join(parts[1..], sep);
      var k: nat :| OccursAt(t, parts[i], k);
      OccursAtShift(t, parts[i], k, parts[0] + sep, "");
      assert parts[0] + sep + t + "" == j;
    }
  }

  /** `part in sep.join(parts)` for every part. */
  lemma JoinContainsParts(parts: seq<string>, sep: string, i: nat)
    requires i < |parts|
    ensures Contains(Join(parts, sep), parts[i])
  {
    JoinOccurs(parts, sep, i);
    var k: nat :| OccursAt(Join(parts, sep), parts[i], k);
    OccursAtContains(Join(parts, sep), parts[i], k);
  }

  /** `sub in s` finds an occurrence at some position. */
  lemma {:induction false} ContainsOccurs(s: string, sub: string)
    requires Contains(s, sub)
    ensures exists k: nat :: OccursAt(s, sub, k)
    decreases |s|
  {
    if StartsWith(s, sub) {
      assert OccursAt(s, sub, 0);
    } else {
      ContainsOccurs(s[1..], sub);
      var k: nat :| OccursAt(s[1..], sub, k);
      assert s[k + 1..k + 1 + |sub|] == s[1..][k..k + |sub|];
      assert OccursAt(s, sub, k + 1);
    }
  }

  /** What a piece contains, any string built around that piece contains. */
  lemma ContainsInside(s: string, sub: string, before: string, after: string)
    requires Contains(s, sub)
    ensures Contains(before + s + after, sub)
  {
    ContainsOccurs(s, sub);
    var k: nat :| OccursAt(s, sub, k);
    OccursAtShift(s, sub, k, before, after);
    OccursAtContains(before + s + after, sub, |before| + k);
  }

  /** `in` is transitive. */
  lemma ContainsTransitive(s: string, mid: string, sub: string)
    requires Contains(s, mid) && Contains(mid, sub)
    ensures Contains(s, sub)
  {
    ContainsOccurs(s, mid);
    var k: nat :| OccursAt(s, mid, k);
    assert s == s[..k] + mid + s[k + |mid|..];
    ContainsInside(mid, sub, s[..k], s[k + |mid|..]);
  }
}
