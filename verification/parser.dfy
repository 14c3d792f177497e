/** The character-level record-type validator of Lexer/Parser.cs.

The C# class keeps a mutable cursor `position` over an immutable `input`
and a list of error messages. Here the input is a parameter and the
mutable part is a `State` value threaded through pure functions: every
helper takes the state before the call and returns the state after it.
Errors are kept as `Error` values in insertion order; `Message` gives the
text the source adds for each of them.
 */
module RecordParser {
  import opened Chars

  /** One entry of the error list, named after the message the source adds. */
  datatype Error =
    | ExpectedTypeKeyword
    | ExpectedEquals
    | ExpectedRecordKeyword
    | ExpectedEndKeyword
    | ExpectedSemicolonAfterEnd
    | KeywordNotFound
    | ExpectedFieldIdentifier
    | ExpectedColon
    | ExpectedSemicolonAfterType
    | InvalidType
    | ExpectedIdentifier

  function Message(e: Error): string
  {
    match e
    case ExpectedTypeKeyword => "Ожидалось ключевое слово 'type'"
    case ExpectedEquals => "Ожидалось '=' после идентификатора"
    case ExpectedRecordKeyword => "Ожидалось ключевое слово 'record'"
    case ExpectedEndKeyword => "Ожидалось ключевое слово 'end'"
    case ExpectedSemicolonAfterEnd => "Ожидалось ';' после 'end'"
    case KeywordNotFound => "Не удалось найти ожидаемое ключевое слово"
    case ExpectedFieldIdentifier => "Ожидался идентификатор поля"
    case ExpectedColon => "Ожидалось ':' после списка полей"
    case ExpectedSemicolonAfterType => "Ожидалось ';' после типа поля"
    // the source joins its `validTypes` array with ", " (ValidTypes below)
    case InvalidType => "Недопустимый тип данных. Ожидалось: integer, real, string, boolean, char"
    case ExpectedIdentifier => "Ожидался идентификатор"
  }

  /** Each error has its own message, so the returned strings name the errors recorded. */
  lemma MessagesIdentifyErrors(a: Error, b: Error)
    ensures Message(a) == Message(b) <==> a == b
  {
    MessageLengthNamesError(a);
    MessageLengthNamesError(b);
  }

  /** The error whose message has length `n`. */
  function ErrorOfLength(n: nat): Error
  {
    if n == 31 then ExpectedTypeKeyword
    else if n == 34 then ExpectedEquals
    else if n == 33 then ExpectedRecordKeyword
    else if n == 30 then ExpectedEndKeyword
    else if n == 25 then ExpectedSemicolonAfterEnd
    else if n == 41 then KeywordNotFound
    else if n == 27 then ExpectedFieldIdentifier
    else if n == 32 then ExpectedColon
    else if n == 29 then ExpectedSemicolonAfterType
    else if n == 72 then InvalidType
    else ExpectedIdentifier
  }

  /** The messages have pairwise different lengths. */
  lemma MessageLengthNamesError(e: Error)
    ensures ErrorOfLength(|Message(e)|) == e
  {
    match e
    case ExpectedTypeKeyword => assert |Message(e)| == 31 && ErrorOfLength(31) == e;
    case ExpectedEquals => assert |Message(e)| == 34 && ErrorOfLength(34) == e;
    case ExpectedRecordKeyword => assert |Message(e)| == 33 && ErrorOfLength(33) == e;
    case ExpectedEndKeyword => assert |Message(e)| == 30 && ErrorOfLength(30) == e;
    case ExpectedSemicolonAfterEnd => assert |Message(e)| == 25 && ErrorOfLength(25) == e;
    case KeywordNotFound => assert |Message(e)| == 41 && ErrorOfLength(41) == e;
    case ExpectedFieldIdentifier => assert |Message(e)| == 27 && ErrorOfLength(27) == e;
    case ExpectedColon => assert |Message(e)| == 32 && ErrorOfLength(32) == e;
    case ExpectedSemicolonAfterType => assert |Message(e)| == 29 && ErrorOfLength(29) == e;
    case InvalidType => assert |Message(e)| == 72 && ErrorOfLength(72) == e;
    case ExpectedIdentifier => assert |Message(e)| == 22 && ErrorOfLength(22) == e;
  }

  /** The parser's mutable fields: the cursor and the errors recorded so far. */
  datatype State = State(pos: nat, errs: seq<Error>)

  /** The class invariant: the cursor never passes the end of the input. */
  predicate Valid(input: string, s: State) { s.pos <= |input| }

  /** `t` is `s` with zero or more errors appended, so earlier errors keep their order. */
  predicate Extends(s: State, t: State) { s.errs <= t.errs }

  /** errors.Add: the cursor stays, earlier errors are kept, `e` comes last. */
  function AddError(s: State, e: Error): (r: State)
    ensures r.pos == s.pos && Extends(s, r) && |r.errs| == |s.errs| + 1 && r.errs[|s.errs|] == e
  {
    State(s.pos, s.errs + [e])
  }

  // ---------------------------------------------------------------------------
  // Keywords

  /** Reference meaning of "keyword `k` starts at `pos`": it fits, it matches
      case-insensitively, and it is not followed by a letter, digit or '_'. */
  predicate KeywordAt(input: string, pos: nat, k: string)
  {
    pos + |k| <= |input|
    && (forall i :: 0 <= i < |k| ==> ToLower(input[pos + i]) == ToLower(k[i]))
    && (pos + |k| == |input| || !IsWordChar(input[pos + |k|]))
  }

  /** Some keyword of `ks` starts at `pos`. */
  predicate KeywordOfAt(input: string, pos: nat, ks: seq<string>)
  {
    exists i :: 0 <= i < |ks| && KeywordAt(input, pos, ks[i])
  }

  /** The comparison loop of PeekKeyword, from index `i` on. */
  function LettersMatchFrom(input: string, pos: nat, k: string, i: nat): (r: bool)
    requires pos + |k| <= |input| && i <= |k|
    ensures r <==> forall j :: i <= j < |k| ==> ToLower(input[pos + j]) == ToLower(k[j])
    decreases |k| - i, input
  {
    i == |k| || (ToLower(input[pos + i]) == ToLower(k[i]) && LettersMatchFrom(input, pos, k, i + 1))
  }

  function PeekKeyword(input: string, pos: nat, k: string): (r: bool)
    ensures r <==> KeywordAt(input, pos, k)
  {
    if pos + |k| > |input| then false
    else if !LettersMatchFrom(input, pos, k, 0) then false
    else if pos + |k| < |input| && IsWordChar(input[pos + |k|]) then false
    else true
  }

  /** The `foreach` of SkipToKeyword from the `i`-th keyword on. */
  function PeekAnyKeywordFrom(input: string, pos: nat, ks: seq<string>, i: nat): bool
    requires i <= |ks|
    decreases |ks| - i, input
  {
    if i == |ks| then false
    else PeekKeyword(input, pos, ks[i]) || PeekAnyKeywordFrom(input, pos, ks, i + 1)
  }

  lemma {:induction false} PeekAnyKeywordFromMeans(input: string, pos: nat, ks: seq<string>, i: nat)
    requires i <= |ks|
    ensures PeekAnyKeywordFrom(input, pos, ks, i) <==> exists j :: i <= j < |ks| && KeywordAt(input, pos, ks[j])
    decreases |ks| - i
  {
    if i < |ks| {
      PeekAnyKeywordFromMeans(input, pos, ks, i + 1);
    }
  }

  /** The `foreach` of SkipToKeyword: does any keyword of `ks` peek true? */
  function PeekAnyKeyword(input: string, pos: nat, ks: seq<string>): bool
  {
    PeekAnyKeywordFrom(input, pos, ks, 0)
  }

  /** PeekAnyKeyword holds exactly when some keyword of `ks` starts at `pos`. */
  lemma PeekAnyKeywordMeans(input: string, pos: nat, ks: seq<string>)
    ensures PeekAnyKeyword(input, pos, ks) <==> KeywordOfAt(input, pos, ks)
  {
    PeekAnyKeywordFromMeans(input, pos, ks, 0);
  }

  function MatchKeyword(input: string, s: State, k: string): (r: (bool, State))
    ensures r.0 <==> KeywordAt(input, s.pos, k)
    ensures r.1 == if r.0 then State(s.pos + |k|, s.errs) else s
  {
    if PeekKeyword(input, s.pos, k) then (true, State(s.pos + |k|, s.errs)) else (false, s)
  }

  function MatchChar(input: string, s: State, c: char): (r: (bool, State))
    ensures r.0 <==> s.pos < |input| && input[s.pos] == c
    ensures r.1 == if r.0 then State(s.pos + 1, s.errs) else s
  {
    if s.pos < |input| && input[s.pos] == c then (true, State(s.pos + 1, s.errs)) else (false, s)
  }

  // ---------------------------------------------------------------------------
  // Scanning loops

  function SkipWhitespace(input: string, s: State): (r: State)
    requires Valid(input, s)
    ensures s.pos <= r.pos <= |input| && r.errs == s.errs
    ensures r.pos == |input| || !IsWhiteSpace(input[r.pos])
    decreases |input| - s.pos
  {
    if s.pos < |input| && IsWhiteSpace(input[s.pos]) then SkipWhitespace(input, State(s.pos + 1, s.errs))
    else s
  }

  /** Everything SkipWhitespace passes over is white space. */
  lemma {:induction false} SkipWhitespaceSkipsBlanks(input: string, s: State)
    requires Valid(input, s)
    ensures forall j :: s.pos <= j < SkipWhitespace(input, s).pos ==> IsWhiteSpace(input[j])
    decreases |input| - s.pos
  {
    if s.pos < |input| && IsWhiteSpace(input[s.pos]) {
      SkipWhitespaceSkipsBlanks(input, State(s.pos + 1, s.errs));
    }
  }

  /** The loop of ParseIdentifier that consumes letters, digits and '_'. */
  function SkipWordChars(input: string, s: State): (r: State)
    requires Valid(input, s)
    ensures s.pos <= r.pos <= |input| && r.errs == s.errs
    ensures r.pos == |input| || !IsWordChar(input[r.pos])
    decreases |input| - s.pos
  {
    if s.pos < |input| && IsWordChar(input[s.pos]) then SkipWordChars(input, State(s.pos + 1, s.errs))
    else s
  }

  /** Everything SkipWordChars passes over is a letter, digit or '_'. */
  lemma {:induction false} SkipWordCharsSkipsWord(input: string, s: State)
    requires Valid(input, s)
    ensures forall j :: s.pos <= j < SkipWordChars(input, s).pos ==> IsWordChar(input[j])
    decreases |input| - s.pos
  {
    if s.pos < |input| && IsWordChar(input[s.pos]) {
      SkipWordCharsSkipsWord(input, State(s.pos + 1, s.errs));
    }
  }

  /** White space from `f` up to the first non-blank `t`: the stretch SkipWhitespace consumes. */
  predicate BlanksTo(input: string, f: nat, t: nat)
  {
    f <= t <= |input| && (forall j :: f <= j < t ==> IsWhiteSpace(input[j])) && (t == |input| || !IsWhiteSpace(input[t]))
  }

  /** SkipWhitespace stops exactly at the first non-blank: with the loop's own
      ensures, this pins its result down completely. */
  lemma {:induction false} SkipWhitespaceStopsAt(input: string, s: State, t: nat)
    requires BlanksTo(input, s.pos, t)
    ensures SkipWhitespace(input, s) == State(t, s.errs)
    decreases t - s.pos
  {
    if s.pos < t {
      SkipWhitespaceStopsAt(input, State(s.pos + 1, s.errs), t);
    }
  }

  /** An identifier from `f` up to `t`: a letter, then letters, digits and '_'
      up to a character that is none of these. */
  predicate WordTo(input: string, f: nat, t: nat)
  {
    && f < t <= |input| && IsLetter(input[f])
    && (forall j :: f <= j < t ==> IsWordChar(input[j]))
    && (t == |input| || !IsWordChar(input[t]))
  }

  lemma {:induction false} SkipWordCharsStopsAt(input: string, s: State, t: nat)
    requires s.pos <= t <= |input| && forall j :: s.pos <= j < t ==> IsWordChar(input[j])
    requires t == |input| || !IsWordChar(input[t])
    ensures SkipWordChars(input, s) == State(t, s.errs)
    decreases t - s.pos
  {
    if s.pos < t {
      SkipWordCharsStopsAt(input, State(s.pos + 1, s.errs), t);
    }
  }

  /** ParseIdentifier consumes exactly the identifier written at the cursor. */
  lemma ParseIdentifierStopsAt(input: string, s: State, t: nat)
    requires WordTo(input, s.pos, t)
    ensures ParseIdentifier(input, s) == State(t, s.errs)
  {
    SkipWordCharsStopsAt(input, s, t);
  }

  function ParseIdentifier(input: string, s: State): (r: State)
    requires Valid(input, s)
    ensures s.pos == |input| || !IsLetter(input[s.pos]) ==> r == AddError(s, ExpectedIdentifier)
    ensures s.pos < |input| && IsLetter(input[s.pos]) ==>
      && r.errs == s.errs
      && s.pos < r.pos <= |input|
      && (r.pos == |input| || !IsWordChar(input[r.pos]))
  {
    if s.pos >= |input| || !IsLetter(input[s.pos]) then AddError(s, ExpectedIdentifier)
    else SkipWordChars(input, s)
  }

  /** An identifier read by ParseIdentifier consists of word characters only. */
  lemma ParseIdentifierReadsWord(input: string, s: State)
    requires Valid(input, s) && s.pos < |input| && IsLetter(input[s.pos])
    ensures forall j :: s.pos <= j < ParseIdentifier(input, s).pos ==> IsWordChar(input[j])
  {
    SkipWordCharsSkipsWord(input, s);
  }

  /** Where SkipToKeyword may stop without an error: end of input or a keyword. */
  predicate KeywordStop(input: string, q: nat, ks: seq<string>)
  {
    q == |input| || KeywordOfAt(input, q, ks)
  }

  /** The loop of SkipToKeyword, with `start` the position at entry. */
  function SkipToKeywordFrom(input: string, ks: seq<string>, start: nat, s: State): (r: State)
    requires start <= s.pos <= |input| && s.pos - start <= 50
    ensures s.pos <= r.pos <= |input| && r.pos <= start + 51
    ensures r.errs == s.errs || r.errs == s.errs + [KeywordNotFound]
    decreases |input| - s.pos
  {
    if s.pos < |input| then
      if PeekAnyKeyword(input, s.pos, ks) then s
      else if s.pos + 1 - start > 50 then State(s.pos + 1, s.errs + [KeywordNotFound])
      else SkipToKeywordFrom(input, ks, start, State(s.pos + 1, s.errs))
    else s
  }

  /** The loop stops at the first keyword or at the end of the input, unless
      it passes 50 characters first, which it reports. */
  lemma {:induction false} SkipToKeywordFromOutcome(input: string, ks: seq<string>, start: nat, s: State)
    requires start <= s.pos <= |input| && s.pos - start <= 50
    ensures var r := SkipToKeywordFrom(input, ks, start, s);
      forall q :: s.pos <= q < r.pos ==> !KeywordStop(input, q, ks)
    ensures var r := SkipToKeywordFrom(input, ks, start, s);
      || (r.errs == s.errs && r.pos - start <= 50 && KeywordStop(input, r.pos, ks))
      || (r.errs == s.errs + [KeywordNotFound] && r.pos == start + 51)
    decreases |input| - s.pos
  {
    if s.pos < |input| {
      PeekAnyKeywordMeans(input, s.pos, ks);
      if !PeekAnyKeyword(input, s.pos, ks) && s.pos + 1 - start <= 50 {
        SkipToKeywordFromOutcome(input, ks, start, State(s.pos + 1, s.errs));
      }
    }
  }

  /** Moves to the first position where a keyword of `ks` starts or the input
      ends; after more than 50 characters it gives up with one error. */
  function SkipToKeyword(input: string, s: State, ks: seq<string>): (r: State)
    requires Valid(input, s)
    ensures s.pos <= r.pos <= |input| && r.pos <= s.pos + 51
    ensures r.errs == s.errs || r.errs == s.errs + [KeywordNotFound]
  {
    SkipToKeywordFrom(input, ks, s.pos, s)
  }

  /** SkipToKeyword passes no stopping point, and either stops at one within
      50 characters or reports KeywordNotFound one character further on. */
  lemma SkipToKeywordOutcome(input: string, s: State, ks: seq<string>)
    requires Valid(input, s)
    ensures var r := SkipToKeyword(input, s, ks);
      forall q :: s.pos <= q < r.pos ==> !KeywordStop(input, q, ks)
    ensures var r := SkipToKeyword(input, s, ks);
      || (r.errs == s.errs && r.pos <= s.pos + 50 && KeywordStop(input, r.pos, ks))
      || (r.errs == s.errs + [KeywordNotFound] && r.pos == s.pos + 51)
    ensures s.pos < |input| && !KeywordOfAt(input, s.pos, ks) ==> SkipToKeyword(input, s, ks).pos > s.pos
  {
    SkipToKeywordFromOutcome(input, ks, s.pos, s);
  }

  /** The recovery step repeated throughout the parser: record `e`, then skip
      to the next keyword of `ks`. */
  function Recover(input: string, s: State, e: Error, ks: seq<string>): (r: State)
    requires Valid(input, s)
    ensures Valid(input, r) && Extends(s, r) && s.pos <= r.pos
    ensures |r.errs| > |s.errs| && r.errs[|s.errs|] == e
  {
    SkipToKeyword(input, AddError(s, e), ks)
  }

  /** Recovery away from a keyword always moves forward. */
  lemma RecoverProgress(input: string, s: State, e: Error, ks: seq<string>)
    requires Valid(input, s) && s.pos < |input| && !KeywordOfAt(input, s.pos, ks)
    ensures Recover(input, s, e, ks).pos > s.pos
  {
    SkipToKeywordOutcome(input, AddError(s, e), ks);
  }

  /** Where SkipToNextField stops: end of input, a ';', or the keyword `end`. */
  predicate FieldStop(input: string, q: nat)
  {
    q == |input| || (q < |input| && input[q] == ';') || KeywordAt(input, q, "end")
  }

  function SkipToNextField(input: string, s: State): (r: State)
    requires Valid(input, s)
    ensures s.pos <= r.pos <= |input| && r.errs == s.errs
    decreases |input| - s.pos
  {
    if s.pos < |input| && input[s.pos] != ';' && !PeekKeyword(input, s.pos, "end") then
      SkipToNextField(input, State(s.pos + 1, s.errs))
    else s
  }

  /** SkipToNextField stops at the first ';', `end` or end of input. */
  lemma {:induction false} SkipToNextFieldOutcome(input: string, s: State)
    requires Valid(input, s)
    ensures var r := SkipToNextField(input, s);
      FieldStop(input, r.pos) && forall q :: s.pos <= q < r.pos ==> !FieldStop(input, q)
    decreases |input| - s.pos
  {
    if s.pos < |input| && input[s.pos] != ';' && !PeekKeyword(input, s.pos, "end") {
      SkipToNextFieldOutcome(input, State(s.pos + 1, s.errs));
    }
  }

  // ---------------------------------------------------------------------------
  // Types

  /** The `validTypes` array of ParseType, in its order. */
  const ValidTypes: seq<string> := ["integer", "real", "string", "boolean", "char"]

  /** The `foreach` of ParseType from the `i`-th keyword on: match the first
      keyword that starts here. */
  function MatchAnyKeywordFrom(input: string, s: State, ks: seq<string>, i: nat): (r: (bool, State))
    requires i <= |ks|
    ensures !r.0 ==> r.1 == s
    ensures r.0 ==> r.1.errs == s.errs && s.pos <= r.1.pos <= |input|
    decreases |ks| - i, input
  {
    if i == |ks| then (false, s)
    else
      var (ok, s1) := MatchKeyword(input, s, ks[i]);
      if ok then (true, s1) else MatchAnyKeywordFrom(input, s, ks, i + 1)
  }

  /** The loop matches exactly when some remaining keyword starts here, and
      then it consumes such a keyword. */
  lemma {:induction false} MatchAnyKeywordFromOutcome(input: string, s: State, ks: seq<string>, i: nat)
    requires i <= |ks|
    ensures var r := MatchAnyKeywordFrom(input, s, ks, i);
      r.0 <==> exists j :: i <= j < |ks| && KeywordAt(input, s.pos, ks[j])
    ensures var r := MatchAnyKeywordFrom(input, s, ks, i);
      r.0 ==> exists j :: i <= j < |ks| && KeywordAt(input, s.pos, ks[j]) && r.1 == State(s.pos + |ks[j]|, s.errs)
    decreases |ks| - i
  {
    if i < |ks| && !KeywordAt(input, s.pos, ks[i]) {
      MatchAnyKeywordFromOutcome(input, s, ks, i + 1);
    }
  }

  /** The `foreach` of ParseType: match the first keyword of `ks` that starts here. */
  function MatchAnyKeyword(input: string, s: State, ks: seq<string>): (r: (bool, State))
    ensures !r.0 ==> r.1 == s
    ensures r.0 ==> r.1.errs == s.errs && s.pos <= r.1.pos <= |input|
  {
    MatchAnyKeywordFrom(input, s, ks, 0)
  }

  /** MatchAnyKeyword succeeds exactly when a keyword of `ks` starts here, and
      then it consumes one of them. */
  lemma MatchAnyKeywordOutcome(input: string, s: State, ks: seq<string>)
    ensures var r := MatchAnyKeyword(input, s, ks);
      r.0 <==> KeywordOfAt(input, s.pos, ks)
    ensures var r := MatchAnyKeyword(input, s, ks);
      r.0 ==> exists i :: 0 <= i < |ks| && KeywordAt(input, s.pos, ks[i]) && r.1 == State(s.pos + |ks[i]|, s.errs)
  {
    MatchAnyKeywordFromOutcome(input, s, ks, 0);
  }

  /** A keyword spelled in lower-case ASCII letters, as all of the parser's are. */
  predicate LowerWord(k: string)
  {
    |k| > 0 && forall i :: 0 <= i < |k| ==> IsAsciiLower(k[i])
  }

  /** Because of the boundary check, two lower-case keywords that both match at
      one position are the same keyword: neither can be a proper prefix of the
      other there. */
  lemma KeywordsExclusive(input: string, p: nat, a: string, b: string)
    requires LowerWord(a) && LowerWord(b)
    requires KeywordAt(input, p, a) && KeywordAt(input, p, b)
    ensures a == b
  {
    ShorterKeywordBlocks(input, p, a, b);
    ShorterKeywordBlocks(input, p, b, a);
    assert |a| == |b|;
    forall i | 0 <= i < |a|
      ensures a[i] == b[i]
    {
      assert ToLower(a[i]) == ToLower(input[p + i]) == ToLower(b[i]);
    }
  }

  /** Where keyword `a` matches, no longer lower-case keyword does: the
      character after `a` is not a letter, but the longer keyword needs one there. */
  lemma ShorterKeywordBlocks(input: string, p: nat, a: string, b: string)
    requires LowerWord(b) && KeywordAt(input, p, a)
    ensures |a| < |b| ==> !KeywordAt(input, p, b)
  {
    if |a| < |b| && p + |b| <= |input| {
      var c := input[p + |a|];
      ToLowerPreservesWordChar(c);
      assert ToLower(c) != ToLower(b[|a|]);
    }
  }

  lemma ValidTypesAreLowerWords()
    ensures forall i :: 0 <= i < |ValidTypes| ==> LowerWord(ValidTypes[i])
  {
  }

  function ParseType(input: string, s: State): (r: State)
    requires Valid(input, s)
    ensures s.pos <= r.pos <= |input|
    ensures r.errs == s.errs || r.errs == s.errs + [InvalidType]
  {
    var (found, s1) := MatchAnyKeyword(input, s, ValidTypes);
    if !found then SkipToNextField(input, AddError(s1, InvalidType)) else s1
  }

  /** ParseType either consumes one of the valid type names, recording nothing,
      or records InvalidType and skips to the first ';', `end` or the end of
      the input. */
  lemma ParseTypeOutcome(input: string, s: State)
    requires Valid(input, s)
    ensures var r := ParseType(input, s);
      KeywordOfAt(input, s.pos, ValidTypes) ==>
        r.errs == s.errs
        && exists i :: 0 <= i < |ValidTypes| && KeywordAt(input, s.pos, ValidTypes[i]) && r.pos == s.pos + |ValidTypes[i]|
    ensures var r := ParseType(input, s);
      !KeywordOfAt(input, s.pos, ValidTypes) ==>
        r.errs == s.errs + [InvalidType]
        && FieldStop(input, r.pos)
        && forall q :: s.pos <= q < r.pos ==> !FieldStop(input, q)
  {
    MatchAnyKeywordOutcome(input, s, ValidTypes);
    var (found, s1) := MatchAnyKeyword(input, s, ValidTypes);
    if !found {
      SkipToNextFieldOutcome(input, AddError(s1, InvalidType));
    }
  }

  /** ParseType on a position where type `ValidTypes[i]` is written: it consumes
      exactly that type name and records nothing. */
  lemma ParseTypeExact(input: string, s: State, i: nat)
    requires Valid(input, s) && i < |ValidTypes| && KeywordAt(input, s.pos, ValidTypes[i])
    ensures ParseType(input, s) == State(s.pos + |ValidTypes[i]|, s.errs)
  {
    var r := ParseType(input, s);
    ParseTypeOutcome(input, s);
    assert KeywordOfAt(input, s.pos, ValidTypes);
    var j :| 0 <= j < |ValidTypes| && KeywordAt(input, s.pos, ValidTypes[j]) && r.pos == s.pos + |ValidTypes[j]|;
    ValidTypesAreLowerWords();
    KeywordsExclusive(input, s.pos, ValidTypes[i], ValidTypes[j]);
  }

  // ---------------------------------------------------------------------------
  // Fields

  /** The check after a field's type: a ';' is consumed, an `end` is left for
      the caller, and anything else is an error followed by recovery. */
  function ParseFieldTerminator(input: string, s: State): (r: State)
    requires Valid(input, s)
    ensures Valid(input, r) && Extends(s, r) && s.pos <= r.pos
    ensures s.pos < |input| && input[s.pos] == ';' ==> r == State(s.pos + 1, s.errs)
    ensures KeywordAt(input, s.pos, "end") ==> r == s
    ensures r.errs == s.errs <==> (s.pos < |input| && input[s.pos] == ';') || KeywordAt(input, s.pos, "end")
    ensures r.errs != s.errs ==> r.errs[|s.errs|] == ExpectedSemicolonAfterType
  {
    var (semi, s1) := MatchChar(input, s, ';');
    assert KeywordAt(input, s.pos, "end") ==> input[s.pos] != ';' by {
      if KeywordAt(input, s.pos, "end") {
        assert ToLower(input[s.pos + 0]) == ToLower("end"[0]);
      }
    }
    if !semi && !PeekKeyword(input, s1.pos, "end") then
      Recover(input, s1, ExpectedSemicolonAfterType, ["end", ";"])
    else s1
  }

  /** The outcome of the `do ... while (MatchChar(','))` loop of ParseFields. */
  datatype IdentList =
    | Listed(ids: seq<string>, st: State)   // the loop ended normally
    | Abandoned(st: State)                  // an identifier was missing: ParseFields returns

  /** `input.Substring(from, to - from)`, one character at a time. */
  function Substring(input: string, from: nat, to: nat): (r: string)
    requires from <= to <= |input|
    ensures |r| == to - from
    ensures forall j :: 0 <= j < |r| ==> r[j] == input[from + j]
    decreases |input| - from
  {
    if from == to then "" else [input[from]] + Substring(input, from + 1, to)
  }

  /** An identifier as ParseIdentifier consumes it. */
  predicate IsIdentifier(w: string)
  {
    |w| > 0 && IsLetter(w[0]) && forall j :: 0 <= j < |w| ==> IsWordChar(w[j])
  }

  function ParseIdentList(input: string, s: State): (r: IdentList)
    requires Valid(input, s)
    ensures Valid(input, r.st) && Extends(s, r.st) && s.pos <= r.st.pos
    ensures r.Listed? ==>
      && r.st.errs == s.errs
      && s.pos < r.st.pos
      && |r.ids| > 0
    ensures r.Abandoned? ==> |r.st.errs| > |s.errs| && r.st.errs[|s.errs|] == ExpectedFieldIdentifier
    decreases |input| - s.pos
  {
    var s1 := SkipWhitespace(input, s);
    if s1.pos >= |input| || !IsLetter(input[s1.pos]) then
      Abandoned(Recover(input, s1, ExpectedFieldIdentifier, ["end", ";"]))
    else
      var s2 := ParseIdentifier(input, s1);
      var id := Substring(input, s1.pos, s2.pos);
      var s3 := SkipWhitespace(input, s2);
      var (more, s4) := MatchChar(input, s3, ',');
      if !more then Listed([id], s4)
      else
        match ParseIdentList(input, s4)
        case Abandoned(t) => Abandoned(t)
        case Listed(ids, t) => Listed([id] + ids, t)
  }

  /** What follows the names of a field (the `identifiers.Count > 0` block):
      ':', the type, and the terminator. */
  function ParseFieldType(input: string, s: State): (r: State)
    requires Valid(input, s)
    ensures Valid(input, r) && Extends(s, r) && s.pos <= r.pos
    ensures var p := SkipWhitespace(input, s).pos;
      (p == |input| || input[p] != ':') ==> |r.errs| > |s.errs| && r.errs[|s.errs|] == ExpectedColon
  {
    var s2 := SkipWhitespace(input, s);
    var (colon, s3) := MatchChar(input, s2, ':');
    if !colon then Recover(input, s3, ExpectedColon, ["end", ";"])
    else
      var s4 := SkipWhitespace(input, ParseType(input, SkipWhitespace(input, s3)));
      ParseFieldTerminator(input, s4)
  }

  /** One field declaration, the body of ParseFields' loop after its `end`
      check: identifiers, ':', type and terminator. The flag is false when
      ParseFields returns at once (a missing identifier). */
  function ParseFieldDeclaration(input: string, s: State): (r: (bool, State))
    requires Valid(input, s)
    ensures Valid(input, r.1) && Extends(s, r.1) && s.pos <= r.1.pos
    ensures r.0 ==> s.pos < r.1.pos
    ensures !r.0 ==> |r.1.errs| > |s.errs| && r.1.errs[|s.errs|] == ExpectedFieldIdentifier
  {
    match ParseIdentList(input, s)
    case Abandoned(t) => (false, t)
    case Listed(_, s1) => (true, ParseFieldType(input, s1))
  }

  /** The `while (position < input.Length && !PeekKeyword("end"))` loop of ParseFields. */
  function ParseFields(input: string, s: State): (r: State)
    requires Valid(input, s)
    ensures Valid(input, r) && Extends(s, r) && s.pos <= r.pos
    ensures r.errs == s.errs ==> r.pos == |input| || KeywordAt(input, r.pos, "end")
    decreases |input| - s.pos, 1
  {
    if s.pos < |input| && !PeekKeyword(input, s.pos, "end") then ParseFieldsPass(input, SkipWhitespace(input, s))
    else s
  }

  /** One pass of ParseFields' loop after its white space: the second `end`
      check, then a field declaration. */
  function ParseFieldsPass(input: string, s: State): (r: State)
    requires Valid(input, s)
    ensures Valid(input, r) && Extends(s, r) && s.pos <= r.pos
    ensures r.errs == s.errs ==> r.pos == |input| || KeywordAt(input, r.pos, "end")
    decreases |input| - s.pos, 0
  {
    if PeekKeyword(input, s.pos, "end") then s
    else
      var (go, s2) := ParseFieldDeclaration(input, s);
      if go then ParseFields(input, s2) else s2
  }

  // ---------------------------------------------------------------------------
  // Declarations

  /** The private `ParseRecord()`: `record` fields `end` `;`. */
  function ParseRecordBody(input: string, s: State): (r: State)
    requires Valid(input, s)
    ensures Valid(input, r) && Extends(s, r) && s.pos <= r.pos
    ensures !KeywordAt(input, s.pos, "record") ==> |r.errs| > |s.errs| && r.errs[|s.errs|] == ExpectedRecordKeyword
    ensures r.errs == s.errs ==> KeywordAt(input, s.pos, "record") && s.pos < r.pos
  {
    var (rec, s1) := MatchKeyword(input, s, "record");
    if !rec then Recover(input, s1, ExpectedRecordKeyword, ["end", "type"])
    else ParseRecordRest(input, s1)
  }

  /** The private ParseRecord after the keyword `record`: the fields, then the end. */
  function ParseRecordRest(input: string, s: State): (r: State)
    requires Valid(input, s)
    ensures Valid(input, r) && Extends(s, r) && s.pos <= r.pos
    ensures r.errs == s.errs ==> s.pos < r.pos
  {
    var s1 := ParseFields(input, SkipWhitespace(input, s));
    ParseRecordEnd(input, s1)
  }

  /** After white space from `p` on, the next character is `c`. */
  predicate NextNonBlankIs(input: string, p: nat, c: char)
  {
    exists q :: p <= q < |input| && input[q] == c && forall j :: p <= j < q ==> IsWhiteSpace(input[j])
  }

  /** After white space, no ':' follows the names: the first new error is the missing ':'. */
  lemma MissingColonReported(input: string, s: State)
    requires Valid(input, s) && !NextNonBlankIs(input, s.pos, ':')
    ensures var r := ParseFieldType(input, s);
      |r.errs| > |s.errs| && r.errs[|s.errs|] == ExpectedColon
  {
    SkipWhitespaceSkipsBlanks(input, s);
  }

  /** The tail of the private ParseRecord: the keyword `end`, then ';'. */
  function ParseRecordEnd(input: string, s: State): (r: State)
    requires Valid(input, s)
    ensures Valid(input, r) && Extends(s, r) && s.pos <= r.pos
    ensures r.errs == s.errs ==> s.pos < r.pos && input[r.pos - 1] == ';'
    ensures !KeywordAt(input, s.pos, "end") ==> |r.errs| > |s.errs| && r.errs[|s.errs|] == ExpectedEndKeyword
    ensures KeywordAt(input, s.pos, "end") && r.errs != s.errs ==>
      |r.errs| > |s.errs| && r.errs[|s.errs|] == ExpectedSemicolonAfterEnd
  {
    var (end, s1) := MatchKeyword(input, s, "end");
    if !end then Recover(input, s1, ExpectedEndKeyword, ["type"])
    else
      var (semi, s2) := MatchChar(input, SkipWhitespace(input, s1), ';');
      if !semi then Recover(input, s2, ExpectedSemicolonAfterEnd, ["type"])
      else s2
  }

  /** A record closes without an error exactly when `end` is followed, after
      white space, by ';'; otherwise the first error names what is missing. */
  lemma ParseRecordEndOutcome(input: string, s: State)
    requires Valid(input, s)
    ensures ParseRecordEnd(input, s).errs == s.errs <==> KeywordAt(input, s.pos, "end") && NextNonBlankIs(input, s.pos + 3, ';')
    ensures var r := ParseRecordEnd(input, s);
      KeywordAt(input, s.pos, "end") && !NextNonBlankIs(input, s.pos + 3, ';') ==>
        |r.errs| > |s.errs| && r.errs[|s.errs|] == ExpectedSemicolonAfterEnd
  {
    if KeywordAt(input, s.pos, "end") {
      SkipWhitespaceSkipsBlanks(input, State(s.pos + 3, s.errs));
    }
  }

  function ParseTypeDeclaration(input: string, s: State): (r: State)
    requires Valid(input, s)
    ensures Valid(input, r) && Extends(s, r) && s.pos <= r.pos
    ensures s.pos < |input| ==> s.pos < r.pos
    ensures !KeywordAt(input, s.pos, "type") ==> |r.errs| > |s.errs| && r.errs[|s.errs|] == ExpectedTypeKeyword
  {
    var (ty, s1) := MatchKeyword(input, s, "type");
    if !ty then
      var r := Recover(input, s1, ExpectedTypeKeyword, ["type"]);
      assert s.pos < |input| ==> s.pos < r.pos by {
        if s.pos < |input| {
          RecoverProgress(input, s1, ExpectedTypeKeyword, ["type"]);
        }
      }
      r
    else
      var s2 := SkipWhitespace(input, ParseIdentifier(input, SkipWhitespace(input, s1)));
      var (eq, s3) := MatchChar(input, s2, '=');
      if !eq then Recover(input, s3, ExpectedEquals, ["type"])
      else
        var s4 := SkipWhitespace(input, s3);
        if !PeekKeyword(input, s4.pos, "record") then
          Recover(input, s4, ExpectedRecordKeyword, ["type"])
        else ParseRecordBody(input, s4)
  }

  /** `type`, then white space up to `n`, where no identifier starts: the
      first new error is the missing identifier. */
  lemma MissingNameReported(input: string, s: State, n: nat)
    requires KeywordAt(input, s.pos, "type") && BlanksTo(input, s.pos + 4, n)
    requires n == |input| || !IsLetter(input[n])
    ensures var r := ParseTypeDeclaration(input, s);
      |r.errs| > |s.errs| && r.errs[|s.errs|] == ExpectedIdentifier
  {
    SkipWhitespaceStopsAt(input, State(s.pos + 4, s.errs), n);
    assert MatchKeyword(input, s, "type") == (true, State(s.pos + 4, s.errs));
    assert ParseIdentifier(input, State(n, s.errs)) == AddError(State(n, s.errs), ExpectedIdentifier);
  }

  /** `type`, white space, the identifier `input[n..m]`, white space up to `e`,
      and no '=' there: the first new error is the missing '='. */
  lemma MissingEqualsReported(input: string, s: State, n: nat, m: nat, e: nat)
    requires KeywordAt(input, s.pos, "type") && BlanksTo(input, s.pos + 4, n)
    requires WordTo(input, n, m) && BlanksTo(input, m, e)
    requires e == |input| || input[e] != '='
    ensures var r := ParseTypeDeclaration(input, s);
      |r.errs| > |s.errs| && r.errs[|s.errs|] == ExpectedEquals
  {
    SkipWhitespaceStopsAt(input, State(s.pos + 4, s.errs), n);
    ParseIdentifierStopsAt(input, State(n, s.errs), m);
    SkipWhitespaceStopsAt(input, State(m, s.errs), e);
  }

  /** `type`, an identifier, '=' at `e`, white space up to `f`, and no keyword
      `record` there: the first new error is the missing `record`. */
  lemma MissingRecordReported(input: string, s: State, n: nat, m: nat, e: nat, f: nat)
    requires KeywordAt(input, s.pos, "type") && BlanksTo(input, s.pos + 4, n)
    requires WordTo(input, n, m) && BlanksTo(input, m, e)
    requires e < |input| && input[e] == '=' && BlanksTo(input, e + 1, f)
    requires !KeywordAt(input, f, "record")
    ensures var r := ParseTypeDeclaration(input, s);
      |r.errs| > |s.errs| && r.errs[|s.errs|] == ExpectedRecordKeyword
  {
    SkipWhitespaceStopsAt(input, State(s.pos + 4, s.errs), n);
    ParseIdentifierStopsAt(input, State(n, s.errs), m);
    SkipWhitespaceStopsAt(input, State(m, s.errs), e);
    SkipWhitespaceStopsAt(input, State(e + 1, s.errs), f);
    HeadRecordMissing(input, s, e, f);
  }

  /** The head of a declaration read up to '=' at `e`, with `record` missing
      after the white space that ends at `f`. */
  lemma HeadRecordMissing(input: string, s: State, e: nat, f: nat)
    requires KeywordAt(input, s.pos, "type") && e < f <= |input|
    requires SkipWhitespace(input, ParseIdentifier(input, SkipWhitespace(input, State(s.pos + 4, s.errs)))) == State(e, s.errs)
    requires input[e] == '=' && SkipWhitespace(input, State(e + 1, s.errs)) == State(f, s.errs)
    requires !KeywordAt(input, f, "record")
    ensures ParseTypeDeclaration(input, s) == Recover(input, State(f, s.errs), ExpectedRecordKeyword, ["type"])
  {
    assert MatchKeyword(input, s, "type") == (true, State(s.pos + 4, s.errs));
    assert MatchChar(input, State(e, s.errs), '=') == (true, State(e + 1, s.errs));
    assert !PeekKeyword(input, f, "record");
  }

  /** The `while (position < input.Length)` loop of the public ParseRecord. */
  function ParseDeclarations(input: string, s: State): (r: State)
    requires Valid(input, s)
    ensures r.pos == |input| && Extends(s, r)
    decreases |input| - s.pos
  {
    if s.pos < |input| then ParseDeclarations(input, SkipWhitespace(input, ParseTypeDeclaration(input, s)))
    else s
  }

  /** The public ParseRecord: the cursor restarts at 0 with no errors, so the
      outcome depends on `code` alone; the whole input is always consumed. */
  function Parse(code: string): (r: State)
    ensures r.pos == |code|
  {
    ParseDeclarations(code, SkipWhitespace(code, State(0, [])))
  }

  /** The list of messages the public ParseRecord returns. */
  function ParseRecord(code: string): (r: seq<string>)
    ensures |r| == |Parse(code).errs|
    ensures forall i :: 0 <= i < |r| ==> r[i] == Message(Parse(code).errs[i])
  {
    var errs := Parse(code).errs;
    seq(|errs|, i requires 0 <= i < |errs| => Message(errs[i]))
  }

  /** Input made of white space only (the empty input included) yields no error. */
  lemma BlankInputHasNoErrors(code: string)
    requires forall j :: 0 <= j < |code| ==> IsWhiteSpace(code[j])
    ensures ParseRecord(code) == []
  {
    var s := SkipWhitespace(code, State(0, []));
    assert s.pos == |code|;
  }

  /** When the first word of the input is not the keyword `type`, the first
      error reported is the missing `type`, whatever follows. */
  lemma MissingTypeReportedFirst(code: string)
    requires var p := SkipWhitespace(code, State(0, [])).pos; p < |code| && !KeywordAt(code, p, "type")
    ensures |ParseRecord(code)| > 0 && ParseRecord(code)[0] == Message(ExpectedTypeKeyword)
  {
    var s := SkipWhitespace(code, State(0, []));
    var t := ParseTypeDeclaration(code, s);
    assert t.errs[0] == ExpectedTypeKeyword;
    assert Parse(code) == ParseDeclarations(code, SkipWhitespace(code, t));
  }

  /** Recovery looks for the keyword ";" with PeekKeyword, which also demands a
      non-word character after it: a ';' directly followed by a letter, digit
      or '_' is not a place where recovery towards `end` or ';' stops, so
      SkipToKeyword passes it (SkipToKeywordOutcome). */
  lemma SemicolonBeforeWordIsNoStop(input: string, q: nat)
    requires q + 1 < |input| && input[q] == ';' && IsWordChar(input[q + 1])
    ensures !KeywordStop(input, q, ["end", ";"])
  {
    var ks := ["end", ";"];
    assert !KeywordAt(input, q, ks[0]) by {
      assert ToLower(input[q + 0]) != ToLower(ks[0][0]);
    }
    assert !KeywordAt(input, q, ks[1]);
  }
}
