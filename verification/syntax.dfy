/** The declarations the record parser is built to accept, and the proof that
it accepts them.

A program is a list of declarations `type Name = record f1; f2; ... end;`,
one per line. Each field lists identifiers separated by ", ", then ": " and
one of the five type names, and ends with ';'. The ';' of the last field may
be left out, since `end` follows it. `Render` writes such a program in that
layout, and `RenderedProgramHasNoErrors` shows that ParseRecord reports no
error for it.
 */
module RecordSyntax {
  import opened Chars
  import opened RecordParser

  /** The five field types, in the order of `ValidTypes`. */
  datatype TypeName = Integer | Real | String | Boolean | Char

  /** Where a type's spelling sits in `ValidTypes`. */
  function TypeIndex(t: TypeName): (i: nat)
    ensures i < |ValidTypes|
  {
    match t
    case Integer => 0
    case Real => 1
    case String => 2
    case Boolean => 3
    case Char => 4
  }

  function Spelling(t: TypeName): string
  {
    ValidTypes[TypeIndex(t)]
  }

  /** `names : type`, with or without the ';' after it. */
  datatype Field = Field(names: seq<string>, ty: TypeName, semi: bool)

  datatype Decl = Decl(name: string, fields: seq<Field>)

  /** `w` is `k` up to ASCII case. */
  predicate SpellsKeyword(w: string, k: string)
  {
    |w| == |k| && forall i :: 0 <= i < |w| ==> ToLower(w[i]) == ToLower(k[i])
  }

  /** A field the parser takes as written: a nonempty list of identifiers, the
      first of which is not the word `end` (ParseFields would stop there). */
  predicate FieldOk(f: Field)
  {
    && |f.names| > 0
    && (forall j :: 0 <= j < |f.names| ==> IsIdentifier(f.names[j]))
    && !SpellsKeyword(f.names[0], "end")
  }

  /** Every field is well formed, and only the last may omit its ';'. */
  predicate FieldsOk(fs: seq<Field>)
  {
    && (forall i :: 0 <= i < |fs| ==> FieldOk(fs[i]))
    && (forall i :: 0 <= i < |fs| - 1 ==> fs[i].semi)
  }

  predicate DeclOk(d: Decl)
  {
    IsIdentifier(d.name) && FieldsOk(d.fields)
  }

  predicate ProgramOk(ds: seq<Decl>)
  {
    forall i :: 0 <= i < |ds| ==> DeclOk(ds[i])
  }

  // ---------------------------------------------------------------------------
  // The layout

  function NamesText(ns: seq<string>): string
    decreases |ns|
  {
    if |ns| == 0 then ""
    else if |ns| == 1 then ns[0]
    else ns[0] + (", " + NamesText(ns[1..]))
  }

  function Semicolon(semi: bool): string
  {
    if semi then ";" else ""
  }

  function FieldText(f: Field): string
  {
    NamesText(f.names) + (": " + (Spelling(f.ty) + Semicolon(f.semi)))
  }

  /** Each field followed by one space. */
  function FieldsText(fs: seq<Field>): string
    decreases |fs|
  {
    if |fs| == 0 then "" else FieldText(fs[0]) + (" " + FieldsText(fs[1..]))
  }

  /** `type Name = record fields end;` */
  function DeclText(d: Decl): string
  {
    "type" + (" " + (d.name + (" = " + ("record" + (" " + (FieldsText(d.fields) + ("end" + ";")))))))
  }

  /** Each declaration followed by a line break. */
  function Render(ds: seq<Decl>): string
    decreases |ds|
  {
    if |ds| == 0 then "" else DeclText(ds[0]) + ("\n" + Render(ds[1..]))
  }

  // ---------------------------------------------------------------------------
  // Text at a position

  /** `w` is written in `input` from offset `p` on. */
  predicate At(input: string, p: nat, w: string)
  {
    p + |w| <= |input| && forall i :: 0 <= i < |w| ==> input[p + i] == w[i]
  }

  lemma AtChar(input: string, p: nat, w: string, i: nat)
    requires At(input, p, w) && i < |w|
    ensures input[p + i] == w[i]
  {
  }

  lemma AtSplit(input: string, p: nat, a: string, b: string)
    requires At(input, p, a + b)
    ensures At(input, p, a) && At(input, p + |a|, b)
  {
    forall i | 0 <= i < |a|
      ensures input[p + i] == a[i]
    {
      assert (a + b)[i] == a[i];
    }
    forall i | 0 <= i < |b|
      ensures input[p + |a| + i] == b[i]
    {
      assert input[p + (|a| + i)] == (a + b)[|a| + i];
    }
  }

  /** Two texts separated by one space. */
  lemma SpaceSplit(input: string, p: nat, a: string, b: string)
    requires At(input, p, a + (" " + b))
    ensures At(input, p, a) && p + |a| < |input| && input[p + |a|] == ' ' && At(input, p + |a| + 1, b)
  {
    assert input[p + |a|] == (a + (" " + b))[|a|];
    forall i | 0 <= i < |a|
      ensures input[p + i] == a[i]
    {
      assert input[p + i] == (a + (" " + b))[i];
    }
    forall i | 0 <= i < |b|
      ensures input[p + |a| + 1 + i] == b[i]
    {
      assert input[p + (|a| + 1 + i)] == (a + (" " + b))[|a| + 1 + i];
    }
  }

  /** The characters from `p` on, as Substring takes them, are `w`. */
  lemma SubstringAt(input: string, p: nat, w: string)
    requires At(input, p, w)
    ensures Substring(input, p, p + |w|) == w
  {
  }

  /** A keyword written out and followed by a character that cannot continue a word. */
  lemma AtKeyword(input: string, p: nat, k: string)
    requires At(input, p, k)
    requires p + |k| == |input| || !IsWordChar(input[p + |k|])
    ensures KeywordAt(input, p, k)
  {
  }

  /** At an identifier `w` that ends before a non-word character, keyword `k`
      matches only if `w` spells `k`. */
  lemma KeywordOnlyIfSpelled(input: string, p: nat, w: string, k: string)
    requires At(input, p, w) && IsIdentifier(w) && LowerWord(k)
    requires p + |w| == |input| || !IsWordChar(input[p + |w|])
    ensures KeywordAt(input, p, k) ==> SpellsKeyword(w, k)
  {
    if |k| < |w| {
      assert input[p + |k|] == w[|k|];
    } else if |w| < |k| && p + |k| <= |input| {
      var c := input[p + |w|];
      ToLowerPreservesWordChar(c);
      assert ToLower(c) != ToLower(k[|w|]);
    }
  }

  lemma WordCharIsNotWhiteSpace(c: char)
    requires IsWordChar(c)
    ensures !IsWhiteSpace(c)
  {
  }

  /** The letter a keyword starts with is not white space, in either case. */
  lemma KeywordStartIsNotWhiteSpace(input: string, p: nat, k: string)
    requires LowerWord(k)
    ensures KeywordAt(input, p, k) ==> p < |input| && !IsWhiteSpace(input[p])
  {
    if KeywordAt(input, p, k) {
      assert ToLower(input[p + 0]) == ToLower(k[0]);
      ToLowerPreservesWordChar(input[p]);
    }
  }

  lemma EndIsLowerWord()
    ensures LowerWord("end")
  {
  }

  // ---------------------------------------------------------------------------
  // Small steps of the parser

  lemma SkipNone(input: string, s: State)
    requires Valid(input, s) && (s.pos == |input| || !IsWhiteSpace(input[s.pos]))
    ensures SkipWhitespace(input, s) == s
  {
  }

  lemma SkipOne(input: string, s: State)
    requires s.pos < |input| && IsWhiteSpace(input[s.pos])
    requires s.pos + 1 == |input| || !IsWhiteSpace(input[s.pos + 1])
    ensures SkipWhitespace(input, s) == State(s.pos + 1, s.errs)
  {
    SkipNone(input, State(s.pos + 1, s.errs));
  }

  /** SkipOne with the position after the blank named. */
  lemma SkipBlank(input: string, b: nat, f: nat, e: seq<Error>)
    requires f == b + 1 && f <= |input| && IsWhiteSpace(input[b])
    requires f == |input| || !IsWhiteSpace(input[f])
    ensures SkipWhitespace(input, State(b, e)) == State(f, e)
  {
    SkipOne(input, State(b, e));
  }

  /** ParseIdentifier on an identifier that ends before a non-word character
      consumes exactly that identifier. */
  lemma IdentifierExact(input: string, s: State, w: string)
    requires At(input, s.pos, w) && IsIdentifier(w)
    requires s.pos + |w| == |input| || !IsWordChar(input[s.pos + |w|])
    ensures ParseIdentifier(input, s) == State(s.pos + |w|, s.errs)
  {
    forall j | s.pos <= j < s.pos + |w|
      ensures IsWordChar(input[j])
    {
      assert input[s.pos + (j - s.pos)] == w[j - s.pos];
    }
    ParseIdentifierReadsWord(input, s);
  }

  // ---------------------------------------------------------------------------
  // Identifier lists

  /** One pass of the identifier loop, up to the ',' test: white space from
      `p` to `q`, then the identifier `n` from `q` to `m`. */
  predicate IdentifierPass(input: string, p: nat, q: nat, m: nat, n: string, e: seq<Error>)
  {
    && p <= q <= m < |input|
    && SkipWhitespace(input, State(p, e)) == State(q, e)
    && IsLetter(input[q])
    && ParseIdentifier(input, State(q, e)) == State(m, e)
    && Substring(input, q, m) == n
    && SkipWhitespace(input, State(m, e)) == State(m, e)
  }

  /** `lead` (0 or 1) spaces, then an identifier followed by ',' or ':'. */
  lemma IdentifierStep(input: string, p: nat, lead: nat, n: string, e: seq<Error>)
    requires lead <= 1 && (lead == 1 ==> p < |input| && input[p] == ' ')
    requires IsIdentifier(n) && At(input, p + lead, n)
    requires p + lead + |n| < |input| && (input[p + lead + |n|] == ',' || input[p + lead + |n|] == ':')
    ensures IdentifierPass(input, p, p + lead, p + lead + |n|, n, e)
  {
    var q := p + lead;
    WordCharIsNotWhiteSpace(input[q]);
    if lead == 1 {
      SkipOne(input, State(p, e));
    } else {
      SkipNone(input, State(p, e));
    }
    IdentifierExact(input, State(q, e), n);
    SkipNone(input, State(q + |n|, e));
    SubstringAt(input, q, n);
  }

  /** ParseIdentList from `p` reads exactly the names `ns` and stops at `q`. */
  predicate ReadsNames(input: string, p: nat, ns: seq<string>, q: nat, e: seq<Error>)
  {
    p <= |input| && ParseIdentList(input, State(p, e)) == Listed(ns, State(q, e))
  }

  lemma IdentListLast(input: string, p: nat, q: nat, m: nat, n: string, e: seq<Error>)
    requires IdentifierPass(input, p, q, m, n, e) && input[m] != ','
    ensures ReadsNames(input, p, [n], m, e)
  {
  }

  lemma IdentListMore(input: string, p: nat, q: nat, m: nat, n: string, e: seq<Error>, ids: seq<string>, t: nat)
    requires IdentifierPass(input, p, q, m, n, e) && input[m] == ','
    requires ReadsNames(input, m + 1, ids, t, e)
    ensures ReadsNames(input, p, [n] + ids, t, e)
  {
  }

  lemma IdentListMoreOf(input: string, p: nat, q: nat, m: nat, ns: seq<string>, e: seq<Error>, t: nat)
    requires |ns| > 1 && IdentifierPass(input, p, q, m, ns[0], e) && input[m] == ','
    requires ReadsNames(input, m + 1, ns[1..], t, e)
    ensures ReadsNames(input, p, ns, t, e)
  {
    IdentListMore(input, p, q, m, ns[0], e, ns[1..], t);
    assert [ns[0]] + ns[1..] == ns;
  }

  /** The text of several names is the first name, ", " and the text of the others. */
  lemma NamesTextMore(input: string, q: nat, ns: seq<string>)
    requires |ns| > 1 && At(input, q, NamesText(ns))
    ensures At(input, q, ns[0]) && At(input, q + |ns[0]| + 2, NamesText(ns[1..]))
    ensures input[q + |ns[0]|] == ',' && input[q + |ns[0]| + 1] == ' '
    ensures |NamesText(ns)| == |ns[0]| + 2 + |NamesText(ns[1..])|
  {
    var n, rest := ns[0], NamesText(ns[1..]);
    AtSplit(input, q, n, ", " + rest);
    AtSplit(input, q + |n|, ", ", rest);
    AtChar(input, q + |n|, ", ", 0);
    AtChar(input, q + |n|, ", ", 1);
  }

  /** The first name of a list that is followed by ':', and the ',' or ':'
      right after that name. */
  lemma NamesTextFirst(input: string, q: nat, ns: seq<string>)
    requires |ns| > 0 && At(input, q, NamesText(ns))
    requires q + |NamesText(ns)| < |input| && input[q + |NamesText(ns)|] == ':'
    ensures At(input, q, ns[0]) && q + |ns[0]| < |input|
    ensures input[q + |ns[0]|] == ',' || input[q + |ns[0]|] == ':'
  {
    if |ns| > 1 {
      NamesTextMore(input, q, ns);
    }
  }

  /** A list of identifiers separated by ", " and followed by ':', with `lead`
      (0 or 1) spaces before it, is read back as exactly that list. */
  lemma {:induction false} IdentListParses(input: string, p: nat, lead: nat, ns: seq<string>, e: seq<Error>)
    requires lead <= 1 && (lead == 1 ==> p < |input| && input[p] == ' ')
    requires |ns| > 0 && forall j :: 0 <= j < |ns| ==> IsIdentifier(ns[j])
    requires At(input, p + lead, NamesText(ns))
    requires p + lead + |NamesText(ns)| < |input| && input[p + lead + |NamesText(ns)|] == ':'
    ensures ReadsNames(input, p, ns, p + lead + |NamesText(ns)|, e)
    decreases |ns|, 1
  {
    var q := p + lead;
    var m := q + |ns[0]|;
    if |ns| == 1 {
      IdentifierStep(input, p, lead, ns[0], e);
      IdentListLast(input, p, q, m, ns[0], e);
      assert [ns[0]] == ns;
    } else {
      NamesTextMore(input, q, ns);
      IdentifierStep(input, p, lead, ns[0], e);
      IdentListRest(input, p, q, m, ns, e, p + lead + |NamesText(ns)|);
    }
  }

  /** The names after the first: the loop goes round again after the ','. */
  lemma {:induction false} IdentListRest(input: string, p: nat, q: nat, m: nat, ns: seq<string>, e: seq<Error>, t: nat)
    requires |ns| > 1 && forall j :: 0 <= j < |ns| ==> IsIdentifier(ns[j])
    requires IdentifierPass(input, p, q, m, ns[0], e) && m + 1 < |input| && input[m] == ',' && input[m + 1] == ' '
    requires At(input, m + 2, NamesText(ns[1..])) && t == m + 2 + |NamesText(ns[1..])|
    requires t < |input| && input[t] == ':'
    ensures ReadsNames(input, p, ns, t, e)
    decreases |ns|, 0
  {
    IdentListParses(input, m + 1, 1, ns[1..], e);
    IdentListMoreOf(input, p, q, m, ns, e, t);
  }

  // ---------------------------------------------------------------------------
  // Fields

  /** The pieces of a field's text: the names up to `n`, ": ", the type, and
      the ';' if there is one. */
  lemma FieldTextParts(input: string, q: nat, f: Field)
    requires At(input, q, FieldText(f))
    ensures At(input, q, NamesText(f.names))
    ensures var n := q + |NamesText(f.names)|;
      && At(input, n + 2, Spelling(f.ty))
      && input[n] == ':' && input[n + 1] == ' '
      && q + |FieldText(f)| == n + 2 + |Spelling(f.ty)| + (if f.semi then 1 else 0) <= |input|
      && (f.semi ==> input[n + 2 + |Spelling(f.ty)|] == ';')
  {
    var names, ty, semi := NamesText(f.names), Spelling(f.ty), Semicolon(f.semi);
    var n := q + |names|;
    AtSplit(input, q, names, ": " + (ty + semi));
    AtSplit(input, n, ": ", ty + semi);
    AtChar(input, n, ": ", 0);
    AtChar(input, n, ": ", 1);
    AtSplit(input, n + 2, ty, semi);
    if f.semi {
      AtChar(input, n + 2 + |ty|, semi, 0);
    }
  }

  /** A field starts with a letter, and not with the keyword `end`. */
  lemma FieldStart(input: string, q: nat, f: Field)
    requires FieldOk(f) && At(input, q, FieldText(f))
    ensures q < |input| && !IsWhiteSpace(input[q]) && !KeywordAt(input, q, "end")
  {
    var n := f.names[0];
    FieldTextParts(input, q, f);
    NamesTextFirst(input, q, f.names);
    AtChar(input, q, n, 0);
    EndIsLowerWord();
    KeywordOnlyIfSpelled(input, q, n, "end");
  }

  /** A type name written out and followed by a non-word character. */
  lemma TypeKeyword(input: string, p: nat, i: nat)
    requires i < |ValidTypes| && At(input, p, ValidTypes[i])
    requires p + |ValidTypes[i]| < |input| && !IsWordChar(input[p + |ValidTypes[i]|])
    ensures KeywordAt(input, p, ValidTypes[i]) && !IsWhiteSpace(input[p])
  {
    ValidTypesAreLowerWords();
    AtKeyword(input, p, ValidTypes[i]);
    KeywordStartIsNotWhiteSpace(input, p, ValidTypes[i]);
  }

  /** The type `ValidTypes[i]` followed by a non-word character. */
  lemma TypeParses(input: string, c: nat, i: nat, e: seq<Error>)
    requires i < |ValidTypes| && At(input, c, ValidTypes[i])
    requires c + |ValidTypes[i]| < |input| && !IsWordChar(input[c + |ValidTypes[i]|])
    ensures ParseType(input, State(c, e)) == State(c + |ValidTypes[i]|, e)
  {
    TypeKeyword(input, c, i);
    ParseTypeExact(input, State(c, e), i);
  }

  /** The field's end at `k`: ';', or a space before `end`. White space is
      skipped up to `d`, and the terminator ends at `k + 1`. */
  lemma TerminatorParses(input: string, k: nat, e: seq<Error>)
    requires k < |input| && (input[k] == ';' || (input[k] == ' ' && KeywordAt(input, k + 1, "end")))
    ensures var d := if input[k] == ';' then k else k + 1;
      SkipWhitespace(input, State(k, e)) == State(d, e) && ParseFieldTerminator(input, State(d, e)) == State(k + 1, e)
  {
    EndIsLowerWord();
    KeywordStartIsNotWhiteSpace(input, k + 1, "end");
    if input[k] == ';' {
      SkipNone(input, State(k, e));
    } else {
      SkipOne(input, State(k, e));
    }
  }

  /** ParseFieldType composed from its steps: a ':' at `n`, white space up to
      `c`, a type up to `k`, white space up to `d`, a terminator up to `t`. */
  lemma FieldTypeSteps(input: string, n: nat, c: nat, k: nat, d: nat, t: nat, e: seq<Error>)
    requires n < |input| && input[n] == ':'
    requires SkipWhitespace(input, State(n, e)) == State(n, e)
    requires SkipWhitespace(input, State(n + 1, e)) == State(c, e)
    requires ParseType(input, State(c, e)) == State(k, e)
    requires SkipWhitespace(input, State(k, e)) == State(d, e)
    requires ParseFieldTerminator(input, State(d, e)) == State(t, e)
    ensures ParseFieldType(input, State(n, e)) == State(t, e)
  {
    assert MatchChar(input, State(n, e), ':') == (true, State(n + 1, e));
  }

  /** ParseFieldType on ": ", a type name, and a terminator. */
  lemma FieldTypeParses(input: string, n: nat, i: nat, e: seq<Error>)
    requires i < |ValidTypes| && n + 1 < |input| && input[n] == ':' && input[n + 1] == ' '
    requires At(input, n + 2, ValidTypes[i])
    requires var k := n + 2 + |ValidTypes[i]|;
      k < |input| && (input[k] == ';' || (input[k] == ' ' && KeywordAt(input, k + 1, "end")))
    ensures ParseFieldType(input, State(n, e)) == State(n + 3 + |ValidTypes[i]|, e)
  {
    var k := n + 2 + |ValidTypes[i]|;
    TypeKeyword(input, n + 2, i);
    SkipNone(input, State(n, e));
    SkipOne(input, State(n + 1, e));
    TypeParses(input, n + 2, i, e);
    TerminatorParses(input, k, e);
    FieldTypeSteps(input, n, n + 2, k, if input[k] == ';' then k else k + 1, k + 1, e);
  }

  /** A well-formed field written from `q` on and followed by a space, and by
      `end` when its ';' is left out. */
  predicate FieldAhead(input: string, q: nat, f: Field)
  {
    && FieldOk(f) && At(input, q, FieldText(f))
    && q + |FieldText(f)| < |input| && input[q + |FieldText(f)|] == ' '
    && (f.semi || KeywordAt(input, q + |FieldText(f)| + 1, "end"))
  }

  /** Where the declaration of a field written from `q` on stops: right after
      its ';', or after the space that precedes `end`. */
  function FieldEnd(q: nat, f: Field): nat
  {
    if f.semi then q + |FieldText(f)| else q + |FieldText(f)| + 1
  }

  /** The names of a well-formed field are read up to its ':'. */
  lemma FieldNamesParse(input: string, q: nat, f: Field, e: seq<Error>)
    requires FieldAhead(input, q, f)
    ensures ReadsNames(input, q, f.names, q + |NamesText(f.names)|, e)
  {
    FieldTextParts(input, q, f);
    IdentListParses(input, q, 0, f.names, e);
  }

  /** The ':', type and terminator of a well-formed field parse cleanly. */
  lemma FieldTypePartParses(input: string, q: nat, f: Field, e: seq<Error>)
    requires FieldAhead(input, q, f)
    ensures ParseFieldType(input, State(q + |NamesText(f.names)|, e)) == State(FieldEnd(q, f), e)
  {
    FieldTextParts(input, q, f);
    FieldTypeParses(input, q + |NamesText(f.names)|, TypeIndex(f.ty), e);
  }

  /** A well-formed field followed by a space, and by `end` when its ';' is
      left out, is one declaration with no error. */
  lemma FieldParses(input: string, q: nat, f: Field, e: seq<Error>)
    requires FieldAhead(input, q, f)
    ensures ParseFieldDeclaration(input, State(q, e)) == (true, State(FieldEnd(q, f), e))
  {
    FieldNamesParse(input, q, f, e);
    FieldTypePartParses(input, q, f, e);

  }

  // ---------------------------------------------------------------------------
  // Field lists

  /** The text of a nonempty field list: the first field, a space, the rest. */
  lemma FieldsTextParts(input: string, q: nat, fs: seq<Field>)
    requires |fs| > 0 && At(input, q, FieldsText(fs))
    ensures At(input, q, FieldText(fs[0]))
    ensures var m := q + |FieldText(fs[0])|;
      m < |input| && input[m] == ' ' && At(input, m + 1, FieldsText(fs[1..]))
      && |FieldsText(fs)| == |FieldText(fs[0])| + 1 + |FieldsText(fs[1..])|
  {
    var a, b := FieldText(fs[0]), FieldsText(fs[1..]);
    assert FieldsText(fs) == a + (" " + b);
    SpaceSplit(input, q, a, b);
  }

  /** A well-formed list is a well-formed field and a well-formed rest, and a
      field without ';' is the last one. */
  lemma FieldsOkTail(fs: seq<Field>)
    requires |fs| > 0 && FieldsOk(fs)
    ensures FieldOk(fs[0]) && FieldsOk(fs[1..])
    ensures !fs[0].semi ==> |fs| == 1
  {
    assert forall i :: 0 <= i < |fs[1..]| ==> fs[1..][i] == fs[i + 1];
  }

  /** A blank at `p` that is followed by the keyword `end`. */
  lemma BlankBeforeEnd(input: string, p: nat, e: seq<Error>)
    requires p < |input| && input[p] == ' ' && KeywordAt(input, p + 1, "end")
    ensures !KeywordAt(input, p, "end")
    ensures SkipWhitespace(input, State(p, e)) == State(p + 1, e)
  {
    EndIsLowerWord();
    KeywordStartIsNotWhiteSpace(input, p, "end");
    KeywordStartIsNotWhiteSpace(input, p + 1, "end");
    SkipOne(input, State(p, e));
  }

  /** Position `q` is `p`, or one past a blank at `p`. */
  predicate LeadBlank(input: string, p: nat, q: nat)
  {
    q == p || (q == p + 1 && p < |input| && input[p] == ' ')
  }

  /** ParseFields where only `end` remains, from the keyword or the blank before it. */
  lemma FieldsAtEnd(input: string, p: nat, q: nat, e: seq<Error>)
    requires LeadBlank(input, p, q) && KeywordAt(input, q, "end")
    ensures ParseFields(input, State(p, e)) == State(q, e)
  {
    if q == p {
      FieldsKeywordEnd(input, p, e);
    } else {
      FieldsBlankEnd(input, p, e);
    }
  }

  lemma FieldsKeywordEnd(input: string, p: nat, e: seq<Error>)
    requires KeywordAt(input, p, "end")
    ensures ParseFields(input, State(p, e)) == State(p, e)
  {
    assert PeekKeyword(input, p, "end");
  }

  lemma FieldsBlankEnd(input: string, p: nat, e: seq<Error>)
    requires p < |input| && input[p] == ' ' && KeywordAt(input, p + 1, "end")
    ensures ParseFields(input, State(p, e)) == State(p + 1, e)
  {
    BlankBeforeEnd(input, p, e);
    assert !PeekKeyword(input, p, "end");
    assert PeekKeyword(input, p + 1, "end");
  }

  /** One round of ParseFields: white space from `p` to `q`, then a field
      declaration from `q` to `t`. */
  lemma FieldsRound(input: string, p: nat, q: nat, t: nat, e: seq<Error>)
    requires p < |input| && !KeywordAt(input, p, "end")
    requires SkipWhitespace(input, State(p, e)) == State(q, e) && !KeywordAt(input, q, "end")
    requires ParseFieldDeclaration(input, State(q, e)) == (true, State(t, e))
    ensures ParseFields(input, State(p, e)) == ParseFields(input, State(t, e))
  {
    assert ParseFields(input, State(p, e)) == ParseFieldsPass(input, State(q, e));
  }

  /** A single blank before a character that is not white space: skipped, and
      not the keyword `end`. */
  lemma BlankBeforeWord(input: string, p: nat, e: seq<Error>)
    requires p + 1 < |input| && input[p] == ' ' && !IsWhiteSpace(input[p + 1])
    ensures !KeywordAt(input, p, "end")
    ensures SkipWhitespace(input, State(p, e)) == State(p + 1, e)
  {
    EndIsLowerWord();
    KeywordStartIsNotWhiteSpace(input, p, "end");
    SkipOne(input, State(p, e));
  }

  /** At most one blank before a word other than `end` is skipped, and is not `end` either. */
  lemma BlankBeforeField(input: string, p: nat, q: nat, e: seq<Error>)
    requires LeadBlank(input, p, q) && q < |input| && !IsWhiteSpace(input[q]) && !KeywordAt(input, q, "end")
    ensures !KeywordAt(input, p, "end")
    ensures SkipWhitespace(input, State(p, e)) == State(q, e)
  {
    if q == p {
      SkipNone(input, State(p, e));
    } else {
      BlankBeforeWord(input, p, e);
    }
  }

  /** A well-formed field list written from `q` on and followed by `end`,
      with at most one blank between `p` and `q`. */
  predicate FieldsAhead(input: string, p: nat, q: nat, fs: seq<Field>)
  {
    && LeadBlank(input, p, q) && FieldsOk(fs)
    && At(input, q, FieldsText(fs)) && KeywordAt(input, q + |FieldsText(fs)|, "end")
  }

  /** The first field of a nonempty list, as FieldParses wants it. */
  lemma FieldsFirst(input: string, p: nat, q: nat, fs: seq<Field>)
    requires |fs| > 0 && FieldsAhead(input, p, q, fs)
    ensures FieldAhead(input, q, fs[0])
  {
    FieldsOkTail(fs);
    FieldsTextParts(input, q, fs);
    if !fs[0].semi {
      assert FieldsText(fs[1..]) == [];
    }
  }

  /** The rest of a nonempty list, after the first field's declaration. */
  lemma FieldsRest(input: string, p: nat, q: nat, u: nat, fs: seq<Field>)
    requires |fs| > 0 && FieldsAhead(input, p, q, fs) && u == q + |FieldText(fs[0])| + 1
    ensures FieldsAhead(input, FieldEnd(q, fs[0]), u, fs[1..])
    ensures u + |FieldsText(fs[1..])| == q + |FieldsText(fs)|
  {
    FieldsOkTail(fs);
    FieldsTextParts(input, q, fs);
  }

  /** One field declaration, read by one round of ParseFields. */
  lemma FieldHead(input: string, p: nat, q: nat, f: Field, e: seq<Error>)
    requires LeadBlank(input, p, q) && FieldAhead(input, q, f)
    ensures ParseFields(input, State(p, e)) == ParseFields(input, State(FieldEnd(q, f), e))
  {
    FieldStart(input, q, f);
    BlankBeforeField(input, p, q, e);
    FieldParses(input, q, f, e);
    FieldsRound(input, p, q, FieldEnd(q, f), e);
  }

  /** ParseFields reads a well-formed field list up to the `end` after it
      without recording an error. */
  lemma {:induction false} FieldsParse(input: string, p: nat, q: nat, fs: seq<Field>, e: seq<Error>)
    requires FieldsAhead(input, p, q, fs)
    ensures ParseFields(input, State(p, e)) == State(q + |FieldsText(fs)|, e)
    decreases |fs|
  {
    if |fs| == 0 {
      FieldsAtEnd(input, p, q, e);
    } else {
      var u := q + |FieldText(fs[0])| + 1;
      FieldsFirst(input, p, q, fs);
      FieldsRest(input, p, q, u, fs);
      FieldHead(input, p, q, fs[0], e);
      FieldsParse(input, FieldEnd(q, fs[0]), u, fs[1..], e);
    }
  }

  // ---------------------------------------------------------------------------
  // Declarations

  /** Where the parts of a declaration's text start. */
  datatype DeclMarks = DeclMarks(name: nat, eq: nat, rec: nat, fields: nat, end: nat)

  function Marks(p: nat, d: Decl): DeclMarks
  {
    var m := p + 5 + |d.name|;
    DeclMarks(p + 5, m + 1, m + 3, m + 10, m + 10 + |FieldsText(d.fields)|)
  }

  /** The pieces of `type Name = record`, as characters and words. */
  predicate HeadAt(input: string, p: nat, name: string, k: DeclMarks)
  {
    && k.name == p + 5 && k.eq == k.name + |name| + 1 && k.rec == k.eq + 2 && k.fields == k.rec + 7
    && k.fields <= |input|
    && At(input, p, "type") && input[p + 4] == ' '
    && At(input, k.name, name)
    && input[k.eq - 1] == ' ' && input[k.eq] == '=' && input[k.eq + 1] == ' '
    && At(input, k.rec, "record") && input[k.rec + 6] == ' '
  }

  /** The pieces of `fields end;`. */
  predicate TailAt(input: string, fs: seq<Field>, k: DeclMarks)
  {
    && At(input, k.fields, FieldsText(fs))
    && k.end == k.fields + |FieldsText(fs)|
    && At(input, k.end, "end") && k.end + 3 < |input| && input[k.end + 3] == ';'
  }

  lemma DeclTextHead(input: string, p: nat, d: Decl)
    requires At(input, p, DeclText(d))
    ensures HeadAt(input, p, d.name, Marks(p, d))
    ensures At(input, Marks(p, d).fields, FieldsText(d.fields) + ("end" + ";"))
  {
    var k := Marks(p, d);
    var tail := FieldsText(d.fields) + ("end" + ";");
    var afterName := " = " + ("record" + (" " + tail));
    SpaceSplit(input, p, "type", d.name + afterName);
    AtSplit(input, p + 5, d.name, afterName);
    AtSplit(input, k.eq - 1, " = ", "record" + (" " + tail));
    AtChar(input, k.eq - 1, " = ", 0);
    AtChar(input, k.eq - 1, " = ", 1);
    AtChar(input, k.eq - 1, " = ", 2);
    SpaceSplit(input, k.rec, "record", tail);
  }

  lemma DeclTextTail(input: string, p: nat, d: Decl)
    requires At(input, Marks(p, d).fields, FieldsText(d.fields) + ("end" + ";"))
    ensures TailAt(input, d.fields, Marks(p, d))
  {
    var k := Marks(p, d);
    AtSplit(input, k.fields, FieldsText(d.fields), "end" + ";");
    AtSplit(input, k.end, "end", ";");
    AtChar(input, k.end + 3, ";", 0);
  }

  lemma DeclTextLength(p: nat, d: Decl)
    ensures p + |DeclText(d)| == Marks(p, d).end + 4
  {
  }

  /** `type Name = ` and the check for `record` take the parser to the keyword
      `record` without an error. */
  lemma DeclHeadParses(input: string, p: nat, name: string, k: DeclMarks, e: seq<Error>)
    requires HeadAt(input, p, name, k) && IsIdentifier(name)
    ensures KeywordAt(input, k.rec, "record")
    ensures ParseTypeDeclaration(input, State(p, e)) == ParseRecordBody(input, State(k.rec, e))
  {
    AtKeyword(input, p, "type");
    AtChar(input, k.name, name, 0);
    WordCharIsNotWhiteSpace(input[k.name]);
    SkipOne(input, State(p + 4, e));
    IdentifierExact(input, State(k.name, e), name);
    SkipOne(input, State(k.eq - 1, e));
    assert MatchChar(input, State(k.eq, e), '=') == (true, State(k.eq + 1, e));
    AtChar(input, k.rec, "record", 0);
    SkipOne(input, State(k.eq + 1, e));
    AtKeyword(input, k.rec, "record");
  }

  /** A field list followed by `end` starts with a character that is not white space. */
  lemma FieldsStart(input: string, q: nat, fs: seq<Field>)
    requires FieldsOk(fs) && At(input, q, FieldsText(fs)) && KeywordAt(input, q + |FieldsText(fs)|, "end")
    ensures q < |input| && !IsWhiteSpace(input[q])
  {
    if |fs| == 0 {
      EndIsLowerWord();
      KeywordStartIsNotWhiteSpace(input, q, "end");
    } else {
      FieldsOkTail(fs);
      FieldsTextParts(input, q, fs);
      FieldStart(input, q, fs[0]);
    }
  }

  /** `end;` closes a record without an error. */
  lemma RecordEndParses(input: string, z: nat, e: seq<Error>)
    requires At(input, z, "end") && z + 3 < |input| && input[z + 3] == ';'
    ensures ParseRecordEnd(input, State(z, e)) == State(z + 4, e)
  {
    AtKeyword(input, z, "end");
    SkipNone(input, State(z + 3, e));
    assert MatchChar(input, State(z + 3, e), ';') == (true, State(z + 4, e));
  }

  /** The fields of a declaration are read up to `end` without an error. */
  lemma TailParses(input: string, fs: seq<Field>, q: nat, z: nat, e: seq<Error>)
    requires FieldsOk(fs) && At(input, q, FieldsText(fs)) && z == q + |FieldsText(fs)|
    requires At(input, z, "end") && z + 3 < |input| && input[z + 3] == ';'
    ensures q < |input| && !IsWhiteSpace(input[q])
    ensures ParseFields(input, State(q, e)) == State(z, e)
    ensures ParseRecordEnd(input, State(z, e)) == State(z + 4, e)
  {
    AtKeyword(input, z, "end");
    FieldsStart(input, q, fs);
    FieldsParse(input, q, q, fs, e);
    RecordEndParses(input, z, e);
  }

  /** ParseRecordRest composed from its white space, fields and end. */
  lemma RecordRestSteps(input: string, b: nat, f: nat, z: nat, e: seq<Error>)
    requires f == b + 1 && f <= |input| && SkipWhitespace(input, State(b, e)) == State(f, e)
    requires ParseFields(input, State(f, e)) == State(z, e)
    requires ParseRecordEnd(input, State(z, e)) == State(z + 4, e)
    ensures ParseRecordRest(input, State(b, e)) == State(z + 4, e)
  {
  }

  /** ParseRecordBody composed from the keyword `record` and the rest. */
  lemma RecordBodySteps(input: string, r: nat, b: nat, t: nat, e: seq<Error>)
    requires b == r + 6 && KeywordAt(input, r, "record") && ParseRecordRest(input, State(b, e)) == State(t, e)
    ensures ParseRecordBody(input, State(r, e)) == State(t, e)
  {
  }

  /** The text of a declaration, cut at its marks. */
  lemma DeclTextSplit(input: string, p: nat, d: Decl)
    requires At(input, p, DeclText(d))
    ensures HeadAt(input, p, d.name, Marks(p, d)) && TailAt(input, d.fields, Marks(p, d))
    ensures p + |DeclText(d)| == Marks(p, d).end + 4
  {
    DeclTextHead(input, p, d);
    DeclTextTail(input, p, d);
    DeclTextLength(p, d);
  }

  /** ParseRecordBody composed from the keyword `record`, one blank, the fields and the end. */
  lemma RecordSteps(input: string, rec: nat, b: nat, f: nat, z: nat, e: seq<Error>)
    requires b == rec + 6 && f == b + 1 && f < |input| && KeywordAt(input, rec, "record")
    requires input[b] == ' ' && !IsWhiteSpace(input[f])
    requires ParseFields(input, State(f, e)) == State(z, e)
    requires ParseRecordEnd(input, State(z, e)) == State(z + 4, e)
    ensures ParseRecordBody(input, State(rec, e)) == State(z + 4, e)
  {
    SkipBlank(input, b, f, e);
    RecordRestSteps(input, b, f, z, e);
    RecordBodySteps(input, rec, b, z + 4, e);
  }

  /** `record fields end;` is read without an error. */
  lemma RecordParses(input: string, fs: seq<Field>, k: DeclMarks, e: seq<Error>)
    requires FieldsOk(fs) && k.fields == k.rec + 7 && k.fields < |input|
    requires At(input, k.rec, "record") && input[k.rec + 6] == ' ' && TailAt(input, fs, k)
    ensures ParseRecordBody(input, State(k.rec, e)) == State(k.end + 4, e)
  {
    AtKeyword(input, k.rec, "record");
    TailParses(input, fs, k.fields, k.end, e);
    RecordSteps(input, k.rec, k.rec + 6, k.fields, k.end, e);
  }

  /** A declaration laid out at its marks is read to its `;` without an error. */
  lemma DeclBodyParses(input: string, p: nat, name: string, fs: seq<Field>, k: DeclMarks, e: seq<Error>)
    requires IsIdentifier(name) && FieldsOk(fs)
    requires HeadAt(input, p, name, k) && TailAt(input, fs, k)
    ensures ParseTypeDeclaration(input, State(p, e)) == State(k.end + 4, e)
  {
    DeclHeadParses(input, p, name, k, e);
    RecordParses(input, fs, k, e);
  }

  /** A well-formed declaration is read to its end without an error. */
  lemma DeclParses(input: string, p: nat, d: Decl, e: seq<Error>)
    requires DeclOk(d) && At(input, p, DeclText(d))
    ensures ParseTypeDeclaration(input, State(p, e)) == State(p + |DeclText(d)|, e)
  {
    DeclTextSplit(input, p, d);
    DeclBodyParses(input, p, d.name, d.fields, Marks(p, d), e);
  }

  // ---------------------------------------------------------------------------
  // Programs

  /** A rendered program is its first declaration, a line break, and the rest. */
  lemma RenderParts(input: string, q: nat, ds: seq<Decl>)
    requires |ds| > 0 && At(input, q, Render(ds))
    ensures var t := q + |DeclText(ds[0])|;
      && At(input, q, DeclText(ds[0])) && t < |input| && input[t] == '\n'
      && At(input, t + 1, Render(ds[1..]))
      && t + 1 + |Render(ds[1..])| == q + |Render(ds)|
  {
    var t := q + |DeclText(ds[0])|;
    AtSplit(input, q, DeclText(ds[0]), "\n" + Render(ds[1..]));
    AtSplit(input, t, "\n", Render(ds[1..]));
    AtChar(input, t, "\n", 0);
  }

  lemma ProgramOkTail(ds: seq<Decl>)
    requires ProgramOk(ds) && |ds| > 0
    ensures DeclOk(ds[0]) && ProgramOk(ds[1..])
  {
    forall i | 0 <= i < |ds[1..]|
      ensures DeclOk(ds[1..][i])
    {
      assert ds[1..][i] == ds[i + 1];
    }
  }

  /** After a declaration and the white space behind it, the loop starts over. */
  lemma DeclarationsRound(input: string, p: nat, t: nat, e: seq<Error>)
    requires p < |input| && t < |input|
    requires ParseTypeDeclaration(input, State(p, e)) == State(t, e)
    requires SkipWhitespace(input, State(t, e)) == State(t + 1, e)
    ensures ParseDeclarations(input, State(p, e)) == ParseDeclarations(input, State(t + 1, e))
  {
  }

  /** One declaration and its line break take the loop to the next declaration. */
  lemma FirstDeclRound(input: string, q: nat, t: nat, d: Decl, e: seq<Error>)
    requires DeclOk(d) && At(input, q, DeclText(d)) && t == q + |DeclText(d)|
    requires t < |input| && input[t] == '\n' && (t + 1 == |input| || input[t + 1] == 't')
    ensures ParseDeclarations(input, State(q, e)) == ParseDeclarations(input, State(t + 1, e))
  {
    DeclParses(input, q, d, e);
    SkipOne(input, State(t, e));
    DeclarationsRound(input, q, t, e);
  }

  /** At the end of the input the loop stops. */
  lemma DeclarationsDone(input: string, q: nat, e: seq<Error>)
    requires q == |input|
    ensures ParseDeclarations(input, State(q, e)) == State(q, e)
  {
  }

  /** The declarations `ds` are written from `q` on, each followed by a line
      break, up to the end of the input. */
  predicate LaidOut(input: string, q: nat, ds: seq<Decl>)
    decreases |ds|
  {
    if |ds| == 0 then q == |input|
    else
      var t := q + |DeclText(ds[0])|;
      At(input, q, DeclText(ds[0])) && t < |input| && input[t] == '\n' && LaidOut(input, t + 1, ds[1..])
  }

  /** A rendered program that fills the input is laid out declaration by declaration. */
  lemma {:induction false} RenderLaidOut(input: string, q: nat, ds: seq<Decl>)
    requires At(input, q, Render(ds)) && q + |Render(ds)| == |input|
    ensures LaidOut(input, q, ds)
    decreases |ds|
  {
    if |ds| > 0 {
      RenderParts(input, q, ds);
      RenderLaidOut(input, q + |DeclText(ds[0])| + 1, ds[1..]);
    }
  }

  /** A declaration starts with the `t` of `type`. */
  lemma DeclStart(input: string, q: nat, d: Decl)
    requires At(input, q, DeclText(d))
    ensures q < |input| && input[q] == 't'
  {
    var w := DeclText(d);
    assert w[0] == 't';
    assert input[q + 0] == w[0];
  }

  /** The first declaration of a laid-out program, its line break, and what follows. */
  lemma LaidOutFirst(input: string, q: nat, t: nat, ds: seq<Decl>)
    requires |ds| > 0 && LaidOut(input, q, ds) && t == q + |DeclText(ds[0])|
    ensures At(input, q, DeclText(ds[0])) && t < |input| && input[t] == '\n'
    ensures t + 1 == |input| || input[t + 1] == 't'
    ensures LaidOut(input, t + 1, ds[1..])
  {
    if |ds| > 1 {
      DeclStart(input, t + 1, ds[1]);
    }
  }

  /** The declarations of a well-formed program, laid out up to the end of the
      input, are read to that end without an error. */
  lemma {:induction false} ProgramParses(input: string, q: nat, ds: seq<Decl>, e: seq<Error>)
    requires ProgramOk(ds) && LaidOut(input, q, ds)
    ensures ParseDeclarations(input, State(q, e)) == State(|input|, e)
    decreases |ds|, 1
  {
    if |ds| == 0 {
      DeclarationsDone(input, q, e);
    } else {
      MoreDeclarationsParse(input, q, ds, e);
    }
  }

  /** The induction step of ProgramParses: the first declaration, then the rest. */
  lemma {:induction false} MoreDeclarationsParse(input: string, q: nat, ds: seq<Decl>, e: seq<Error>)
    requires |ds| > 0 && ProgramOk(ds) && LaidOut(input, q, ds)
    ensures ParseDeclarations(input, State(q, e)) == State(|input|, e)
    decreases |ds|, 0
  {
    var t := q + |DeclText(ds[0])|;
    ProgramOkTail(ds);
    LaidOutFirst(input, q, t, ds);
    FirstDeclRound(input, q, t, ds[0], e);
    ProgramParses(input, t + 1, ds[1..], e);
  }

  /** ParseRecord reports no error for a well-formed program laid out by `Render`. */
  lemma RenderedProgramHasNoErrors(ds: seq<Decl>)
    requires ProgramOk(ds)
    ensures ParseRecord(Render(ds)) == []
  {
    var input := Render(ds);
    assert At(input, 0, input);
    RenderLaidOut(input, 0, ds);
    if |ds| > 0 {
      DeclStart(input, 0, ds[0]);
    }
    SkipNone(input, State(0, []));
    ProgramParses(input, 0, ds, []);
  }
}
