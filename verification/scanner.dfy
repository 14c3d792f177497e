/** The single-pass lexer of Lexer/Scanner.cs.

`Analyze` classifies a text into rows of a result table and stops at the
first invalid character. The table and the editor highlight of the source
become the method's outputs: the sequence of rows, and the offset of the
one highlighted character (the highlight always has length 1).
 */
module Scanner {
  import opened Chars

  datatype Option<T> = None | Some(value: T)

  /** The `tokenType` labels of the source. */
  datatype Kind = Keyword | Identifier | Space | Operator | UnsignedInteger | RealNumber | InvalidChar

  function Label(k: Kind): string
  {
    match k
    case Keyword => "Ключевое слово"
    case Identifier => "Идентификатор"
    case Space => "(пробел)"
    case Operator => "Оператор"
    case UnsignedInteger => "Целое без знака"
    case RealNumber => "Вещественное число"
    case InvalidChar => "Недопустимый символ"
  }

  /** The kind a label names, read from its first character. */
  function KindOfLabelStart(c: char): Option<Kind>
  {
    if c == 'К' then Some(Keyword)
    else if c == 'И' then Some(Identifier)
    else if c == '(' then Some(Space)
    else if c == 'О' then Some(Operator)
    else if c == 'Ц' then Some(UnsignedInteger)
    else if c == 'В' then Some(RealNumber)
    else if c == 'Н' then Some(InvalidChar)
    else None
  }

  /** The source passes the kind around as its label string and GetTokenCode
      switches on that string; the labels are pairwise different, so switching
      on the kind is the same. */
  lemma LabelsIdentifyKinds(a: Kind, b: Kind)
    ensures Label(a) == Label(b) <==> a == b
  {
    LabelStartNamesKind(a);
    LabelStartNamesKind(b);
  }

  lemma LabelStartNamesKind(k: Kind)
    ensures |Label(k)| > 0 && KindOfLabelStart(Label(k)[0]) == Some(k)
  {
  }

  /** One table row: code, kind, token, line, and the displayed column range
      `first .. last` (0-based, inclusive, so `last` is the end position minus one). */
  datatype Row = Row(code: int, kind: Kind, token: string, line: nat, first: nat, last: int)

  const Keywords: seq<string> := ["type", "record", "end", "integer", "real", "char", "boolean", "string", "var"]

  const Operators: seq<string> := ["=", ":", ",", ";"]

  // ---------------------------------------------------------------------------
  // Lookup and codes

  /** Array.IndexOf: the first index holding `x`, or -1. */
  function IndexOf<T(==)>(xs: seq<T>, x: T): (r: int)
    ensures -1 <= r < |xs|
    ensures r == -1 <==> x !in xs
    ensures 0 <= r ==> xs[r] == x && forall j :: 0 <= j < r ==> xs[j] != x
    decreases |xs|
  {
    if |xs| == 0 then -1
    else if xs[0] == x then 0
    else
      var k := IndexOf(xs[1..], x);
      if k == -1 then -1 else k + 1
  }

  /** An operator is a character equal to the first character of an entry of `Operators`. */
  function IsOperator(c: char): (r: bool)
    ensures r <==> exists i :: 0 <= i < |Operators| && Operators[i][0] == c
  {
    assert Operators[0][0] == '=' && Operators[1][0] == ':' && Operators[2][0] == ',' && Operators[3][0] == ';';
    c == '=' || c == ':' || c == ',' || c == ';'
  }

  /** A keyword is exactly (case-sensitively) an entry of `Keywords`. */
  function IsKeyword(token: string): (r: bool)
    ensures r <==> exists i :: 0 <= i < |Keywords| && Keywords[i] == token
  {
    IndexOf(Keywords, token) >= 0
  }

  /** GetTokenCode: a keyword's code is its 1-based place in `Keywords`, an
      operator's is 12 plus its place in `Operators`; each other kind has one code. */
  function TokenCode(token: string, kind: Kind): (r: int)
    ensures (kind == Keyword ==> token in Keywords) && (kind == Operator ==> token in Operators) ==>
      KindOfCode(r) == Some(kind)
  {
    match kind
    case Keyword => Place(Keywords, token, 1)
    case Identifier => 10
    case Space => 11
    case Operator => Place(Operators, token, 12)
    case UnsignedInteger => 16
    case RealNumber => 17
    case InvalidChar => -1
  }

  /** The place of `x` in `xs`, counted from `base`. */
  function Place(xs: seq<string>, x: string, base: int): (r: int)
    ensures x in xs ==> base <= r < base + |xs| && xs[r - base] == x
  {
    IndexOf(xs, x) + base
  }

  /** The inverse of `TokenCode` on the kind: which kind a displayed code stands for. */
  function KindOfCode(code: int): Option<Kind>
  {
    if 1 <= code <= 9 then Some(Keyword)
    else if code == 10 then Some(Identifier)
    else if code == 11 then Some(Space)
    else if 12 <= code <= 15 then Some(Operator)
    else if code == 16 then Some(UnsignedInteger)
    else if code == 17 then Some(RealNumber)
    else if code == -1 then Some(InvalidChar)
    else None
  }

  /** AddTokenToDataGridView: the row for a token spanning columns `startPos` up to `endPos` (exclusive). */
  function MakeRow(token: string, kind: Kind, line: nat, startPos: nat, endPos: int): (r: Row)
    ensures r.kind == kind && r.token == token && r.line == line && r.code == TokenCode(token, kind)
    ensures r.first == startPos && r.last - r.first + 1 == endPos - startPos
  {
    Row(TokenCode(token, kind), kind, token, line, startPos, endPos - 1)
  }

  // ---------------------------------------------------------------------------
  // Character classes and token shapes

  predicate IsBlank(c: char) { c == ' ' || c == '\t' }

  /** The decimal separators a number may contain once. */
  predicate IsSeparator(c: char) { c == '.' || c == ',' }

  /** A character at which a token may begin; any other one stops the scan. */
  predicate CanStartToken(c: char)
  {
    c == '\n' || IsBlank(c) || (!IsCyrillic(c) && (IsOperator(c) || IsLetter(c) || IsDigit(c)))
  }

  /** A character the scan can pass over: a token start, or a character inside a word or number. */
  predicate MayAppear(c: char)
  {
    CanStartToken(c) || IsWordChar(c) || IsSeparator(c)
  }

  /** A word as the scanner reads it: a non-Cyrillic letter, then letters, digits and '_'. */
  predicate IsWord(t: string)
  {
    |t| > 0 && IsLetter(t[0]) && !IsCyrillic(t[0]) && forall j :: 0 <= j < |t| ==> IsWordChar(t[j])
  }

  predicate IsUnsignedInteger(t: string)
  {
    |t| > 0 && forall j :: 0 <= j < |t| ==> IsDigit(t[j])
  }

  /** Digits, one separator, digits: at least one digit on each side. */
  predicate IsRealNumber(t: string)
  {
    exists k :: 0 < k < |t| - 1 && IsSeparator(t[k]) && forall j :: 0 <= j < |t| && j != k ==> IsDigit(t[j])
  }

  /** What each kind of row means, stated without `TokenCode`. */
  predicate WellFormed(r: Row)
  {
    match r.kind
    case Keyword =>
      1 <= r.code <= |Keywords| && Keywords[r.code - 1] == r.token && r.last == r.first + |r.token| - 1
    case Identifier =>
      r.code == 10 && IsWord(r.token) && r.token !in Keywords && r.last == r.first + |r.token| - 1
    case Space =>
      r.code == 11 && r.token == " " && r.first <= r.last
    case Operator =>
      12 <= r.code < 12 + |Operators| && Operators[r.code - 12] == r.token && r.last == r.first
    case UnsignedInteger =>
      r.code == 16 && IsUnsignedInteger(r.token) && r.last == r.first + |r.token| - 1
    case RealNumber =>
      r.code == 17 && IsRealNumber(r.token) && r.last == r.first + |r.token| - 1
    case InvalidChar =>
      r.code == -1 && |r.token| == 1 && !CanStartToken(r.token[0]) && r.last == r.first
  }

  // ---------------------------------------------------------------------------
  // Positions

  datatype Pos = Pos(line: nat, col: nat)

  /** The 1-based line and 0-based column of offset `g`: a '\n' starts a new
      line at column 0, every other character moves one column on. */
  function LineCol(text: string, g: nat): Pos
    requires g <= |text|
    decreases g
  {
    if g == 0 then Pos(1, 0)
    else
      var p := LineCol(text, g - 1);
      if text[g - 1] == '\n' then Pos(p.line + 1, 0) else Pos(p.line, p.col + 1)
  }

  /** On a stretch without '\n' the line stays and the column grows by the stretch's length. */
  lemma {:induction false} LineColAdvance(text: string, g: nat, e: nat)
    requires g <= e <= |text|
    requires forall j :: g <= j < e ==> text[j] != '\n'
    ensures LineCol(text, e) == Pos(LineCol(text, g).line, LineCol(text, g).col + (e - g))
    decreases e - g
  {
    if e > g {
      LineColAdvance(text, g, e - 1);
    }
  }

  /** Row `r` describes the text starting at offset `g`: its line and first
      column are those of `g`, and the text there is the token (for a space
      row, the maximal run of blanks the range covers). Words and numbers are
      maximal: the next character cannot extend them. */
  predicate Located(text: string, r: Row, g: nat)
  {
    && g <= |text|
    && LineCol(text, g) == Pos(r.line, r.first)
    && (r.kind == Space ==>
          var e := g + (r.last - r.first + 1);
          g < e <= |text| && (forall j :: g <= j < e ==> IsBlank(text[j])) && (e == |text| || !IsBlank(text[e])))
    && (r.kind != Space ==> g + |r.token| <= |text| && text[g..g + |r.token|] == r.token)
    && ((r.kind == Keyword || r.kind == Identifier) ==>
          g + |r.token| == |text| || !IsWordChar(text[g + |r.token|]))
    && ((r.kind == UnsignedInteger || r.kind == RealNumber) ==>
          g + |r.token| == |text| || !IsDigit(text[g + |r.token|]))
    && (r.kind == UnsignedInteger ==>
          !(g + |r.token| + 1 < |text| && IsSeparator(text[g + |r.token|]) && IsDigit(text[g + |r.token| + 1])))
  }

  /** How many characters of the text row `r` covers. */
  function Span(r: Row): int
  {
    if r.kind == Space then r.last - r.first + 1 else |r.token|
  }

  /** `offsets[i]` is where row `i` starts in the text; the rows follow the
      text's order and do not overlap. */
  ghost predicate LocatedRows(text: string, rows: seq<Row>, offsets: seq<nat>)
  {
    && |offsets| == |rows|
    && (forall i :: 0 <= i < |rows| ==> Located(text, rows[i], offsets[i]))
    && (forall i :: 0 < i < |rows| ==> offsets[i - 1] + Span(rows[i - 1]) <= offsets[i])
  }

  /** The rows found in `text[..upto]`: each is well formed and located, none
      reports an invalid character, and a space row follows a keyword row. */
  ghost predicate RowsFound(text: string, rows: seq<Row>, offsets: seq<nat>, upto: nat)
  {
    && |rows| <= upto
    && LocatedRows(text, rows, offsets)
    && (|rows| > 0 ==> offsets[|rows| - 1] + Span(rows[|rows| - 1]) <= upto)
    && (forall i :: 0 <= i < |rows| ==> WellFormed(rows[i]) && rows[i].kind != InvalidChar)
    && (forall i :: 0 <= i < |rows| && rows[i].kind == Space ==> 0 < i && rows[i - 1].kind == Keyword)
  }

  /** Offset `j` lies in the stretch of text that some row covers. */
  ghost predicate InSomeRow(rows: seq<Row>, offsets: seq<nat>, j: nat)
    requires |offsets| == |rows|
  {
    exists i :: 0 <= i < |rows| && offsets[i] <= j < offsets[i] + Span(rows[i])
  }

  /** The last row that starts before offset `j`, if there is one, is not a
      keyword row: a blank at `j` is then passed over without a "(пробел)" row. */
  ghost predicate NoKeywordJustBefore(rows: seq<Row>, offsets: seq<nat>, j: nat)
    requires |offsets| == |rows|
  {
    forall i :: 0 <= i < |rows| && offsets[i] < j && (i + 1 == |rows| || j < offsets[i + 1]) ==> rows[i].kind != Keyword
  }

  /** Nothing in `text[..upto]` is passed over that should have a row: each
      character is inside a row, or is a line break, or is a blank that does
      not follow a keyword row. */
  ghost predicate Covered(text: string, rows: seq<Row>, offsets: seq<nat>, upto: nat)
    requires |offsets| == |rows| && upto <= |text|
  {
    forall j {:trigger InSomeRow(rows, offsets, j)} :: 0 <= j < upto ==>
      InSomeRow(rows, offsets, j) || text[j] == '\n' || (IsBlank(text[j]) && NoKeywordJustBefore(rows, offsets, j))
  }

  /** The loop invariant of Analyze about the text scanned so far, `text[..upto]`:
      every character there can be passed over, the rows found are as above and
      start before `upto`, they cover that text, and `kw` says whether the last
      row is a keyword. */
  ghost predicate Scanned(text: string, rows: seq<Row>, offsets: seq<nat>, upto: nat, kw: bool)
  {
    && upto <= |text|
    && (forall j :: 0 <= j < upto ==> MayAppear(text[j]))
    && RowsFound(text, rows, offsets, upto)
    && (forall i :: 0 <= i < |rows| ==> offsets[i] < upto)
    && Covered(text, rows, offsets, upto)
    && (kw <==> |rows| > 0 && rows[|rows| - 1].kind == Keyword)
  }

  /** Passing over line breaks, and over blanks when the last row is not a keyword. */
  lemma ScannedSkip(text: string, rows: seq<Row>, offsets: seq<nat>, upto: nat, kw: bool, upto': nat)
    requires Scanned(text, rows, offsets, upto, kw) && upto <= upto' <= |text|
    requires forall j :: upto <= j < upto' ==> text[j] == '\n' || (IsBlank(text[j]) && !kw)
    ensures Scanned(text, rows, offsets, upto', kw)
  {
    CoveredSkip(text, rows, offsets, upto, kw, upto');
  }

  lemma CoveredSkip(text: string, rows: seq<Row>, offsets: seq<nat>, upto: nat, kw: bool, upto': nat)
    requires |offsets| == |rows| && upto <= upto' <= |text| && Covered(text, rows, offsets, upto)
    requires forall i :: 0 <= i < |rows| ==> offsets[i] < upto
    requires kw <==> |rows| > 0 && rows[|rows| - 1].kind == Keyword
    requires forall j :: upto <= j < upto' ==> text[j] == '\n' || (IsBlank(text[j]) && !kw)
    ensures Covered(text, rows, offsets, upto')
  {
    forall j | upto <= j < upto' && text[j] != '\n'
      ensures NoKeywordJustBefore(rows, offsets, j)
    {
      assert forall i :: 0 <= i < |rows| && offsets[i] < j ==> i + 1 == |rows| || offsets[i + 1] < j;
    }
  }

  /** A row added at `upto` leaves the text before `upto` covered. */
  lemma CoveredKept(text: string, rows: seq<Row>, offsets: seq<nat>, upto: nat, row: Row)
    requires |offsets| == |rows| && upto <= |text| && Covered(text, rows, offsets, upto)
    ensures Covered(text, rows + [row], offsets + [upto], upto)
  {
    forall j | 0 <= j < upto
      ensures var rs, os := rows + [row], offsets + [upto];
        InSomeRow(rs, os, j) || text[j] == '\n' || (IsBlank(text[j]) && NoKeywordJustBefore(rs, os, j))
    {
      CoveredKeptAt(text, rows, offsets, upto, row, j);
    }
  }

  lemma CoveredKeptAt(text: string, rows: seq<Row>, offsets: seq<nat>, upto: nat, row: Row, j: nat)
    requires |offsets| == |rows| && j < upto <= |text|
    requires InSomeRow(rows, offsets, j) || text[j] == '\n' || (IsBlank(text[j]) && NoKeywordJustBefore(rows, offsets, j))
    ensures var rs, os := rows + [row], offsets + [upto];
      InSomeRow(rs, os, j) || text[j] == '\n' || (IsBlank(text[j]) && NoKeywordJustBefore(rs, os, j))
  {
    var rs, os := rows + [row], offsets + [upto];
    if InSomeRow(rows, offsets, j) {
      var i :| 0 <= i < |rows| && offsets[i] <= j < offsets[i] + Span(rows[i]);
      assert rs[i] == rows[i] && os[i] == offsets[i];
    } else if text[j] != '\n' {
      forall i | 0 <= i < |rs| && os[i] < j && (i + 1 == |rs| || j < os[i + 1])
        ensures rs[i].kind != Keyword
      {
        assert i < |rows| && rs[i] == rows[i] && os[i] == offsets[i];
        assert i + 1 < |rows| ==> os[i + 1] == offsets[i + 1];
        assert offsets[i] < j && (i + 1 == |rows| || j < offsets[i + 1]);
      }
    }
  }

  /** A row added at `upto` and covering `text[upto..upto']` extends the coverage to `upto'`. */
  lemma CoveredAppend(text: string, rows: seq<Row>, offsets: seq<nat>, upto: nat, row: Row, upto': nat)
    requires |offsets| == |rows| && upto <= upto' <= |text| && Covered(text, rows, offsets, upto)
    requires Span(row) == upto' - upto
    ensures Covered(text, rows + [row], offsets + [upto], upto')
  {
    var rs, os := rows + [row], offsets + [upto];
    CoveredKept(text, rows, offsets, upto, row);
    forall j | upto <= j < upto'
      ensures InSomeRow(rs, os, j)
    {
      assert os[|rows|] <= j < os[|rows|] + Span(rs[|rows|]);
    }
  }

  /** Adding the row of a token that covers `text[upto..upto']`. */
  lemma ScannedAppend(text: string, rows: seq<Row>, offsets: seq<nat>, upto: nat, kw: bool, row: Row, upto': nat)
    requires Scanned(text, rows, offsets, upto, kw)
    requires TokenRow(text, row, upto, upto') && upto' <= |text|
    requires forall j :: upto <= j < upto' ==> MayAppear(text[j])
    requires row.kind == Space ==> kw
    ensures Scanned(text, rows + [row], offsets + [upto], upto', row.kind == Keyword)
  {
    RowsAppend(text, rows, offsets, upto, row, upto');
    CoveredAppend(text, rows, offsets, upto, row, upto');
    assert (rows + [row])[|rows|] == row;
  }

  lemma RowsAppend(text: string, rows: seq<Row>, offsets: seq<nat>, upto: nat, row: Row, upto': nat)
    requires RowsFound(text, rows, offsets, upto)
    requires TokenRow(text, row, upto, upto')
    requires row.kind == Space ==> |rows| > 0 && rows[|rows| - 1].kind == Keyword
    ensures RowsFound(text, rows + [row], offsets + [upto], upto')
  {
    LocatedAppend(text, rows, offsets, row, upto);
    KindsAppend(rows, row);
  }

  /** A row located at or after the end of the last one extends the located rows. */
  lemma LocatedAppend(text: string, rows: seq<Row>, offsets: seq<nat>, row: Row, g: nat)
    requires LocatedRows(text, rows, offsets) && Located(text, row, g)
    requires |rows| > 0 ==> offsets[|rows| - 1] + Span(rows[|rows| - 1]) <= g
    ensures LocatedRows(text, rows + [row], offsets + [g])
  {
    var rs, os := rows + [row], offsets + [g];
    forall i | 0 <= i < |rs|
      ensures Located(text, rs[i], os[i])
    {
      if i < |rows| {
        assert rs[i] == rows[i] && os[i] == offsets[i];
      }
    }
    forall i | 0 < i < |rs|
      ensures os[i - 1] + Span(rs[i - 1]) <= os[i]
    {
      if i < |rows| {
        assert rs[i] == rows[i] && os[i] == offsets[i];
        assert rs[i - 1] == rows[i - 1] && os[i - 1] == offsets[i - 1];
      }
    }
  }

  /** The per-row facts of RowsFound, extended by one well-formed row. */
  lemma KindsAppend(rows: seq<Row>, row: Row)
    requires forall i :: 0 <= i < |rows| ==> WellFormed(rows[i]) && rows[i].kind != InvalidChar
    requires forall i :: 0 <= i < |rows| && rows[i].kind == Space ==> 0 < i && rows[i - 1].kind == Keyword
    requires WellFormed(row)
    requires row.kind == Space ==> |rows| > 0 && rows[|rows| - 1].kind == Keyword
    ensures forall i :: 0 <= i < |rows + [row]| ==> WellFormed((rows + [row])[i])
    ensures forall i :: 0 <= i < |rows| ==> (rows + [row])[i].kind != InvalidChar
    ensures forall i :: 0 <= i < |rows + [row]| && (rows + [row])[i].kind == Space ==>
      0 < i && (rows + [row])[i - 1].kind == Keyword
  {
    var rs := rows + [row];
    forall i | 0 <= i < |rs|
      ensures WellFormed(rs[i])
      ensures i < |rows| ==> rs[i].kind != InvalidChar
      ensures rs[i].kind == Space ==> 0 < i && rs[i - 1].kind == Keyword
    {
      if i < |rows| {
        assert rs[i] == rows[i];
        assert 0 < i ==> rs[i - 1] == rows[i - 1];
      }
    }
  }

  /** Adding the final row of an invalid character found at `g`. */
  lemma ScannedInvalid(text: string, rows: seq<Row>, offsets: seq<nat>, g: nat, kw: bool, row: Row)
    requires Scanned(text, rows, offsets, g, kw) && g < |text|
    requires WellFormed(row) && row.kind == InvalidChar && Located(text, row, g)
    ensures |rows + [row]| <= |text|
    ensures LocatedRows(text, rows + [row], offsets + [g])
    ensures forall i :: 0 <= i < |rows + [row]| ==> WellFormed((rows + [row])[i])
    ensures forall i :: 0 <= i < |rows + [row]| - 1 ==> (rows + [row])[i].kind != InvalidChar
    ensures forall i :: 0 <= i < |rows + [row]| && (rows + [row])[i].kind == Space ==>
      0 < i && (rows + [row])[i - 1].kind == Keyword
    ensures Covered(text, rows + [row], offsets + [g], g)
  {
    LocatedAppend(text, rows, offsets, row, g);
    KindsAppend(rows, row);
    CoveredKept(text, rows, offsets, g, row);
  }

  // ---------------------------------------------------------------------------
  // The inner loops

  /** The loop of the ' '/'\t' case: the maximal run of blanks from `g`. */
  method ScanBlanks(text: string, g: nat) returns (end: nat)
    requires g <= |text|
    ensures g <= end <= |text|
    ensures forall j :: g <= j < end ==> IsBlank(text[j])
    ensures end == |text| || !IsBlank(text[end])
  {
    end := g;
    while end < |text| && IsBlank(text[end])
      invariant g <= end <= |text|
      invariant forall j :: g <= j < end ==> IsBlank(text[j])
      decreases |text| - end
    {
      end := end + 1;
    }
  }

  /** The loop of the letter case: the maximal run of letters, digits and '_' from `g`. */
  method ScanWord(text: string, g: nat) returns (end: nat)
    requires g <= |text|
    ensures g <= end <= |text|
    ensures forall j :: g <= j < end ==> IsWordChar(text[j])
    ensures end == |text| || !IsWordChar(text[end])
  {
    end := g;
    while end < |text| && IsWordChar(text[end])
      invariant g <= end <= |text|
      invariant forall j :: g <= j < end ==> IsWordChar(text[j])
      decreases |text| - end
    {
      end := end + 1;
    }
  }

  /** The loop of the digit case: digits with at most one separator, taken
      only when a digit follows it; the number is real iff it was taken. */
  method ScanNumber(text: string, g: nat) returns (end: nat, isReal: bool)
    requires g < |text| && IsDigit(text[g])
    ensures g < end <= |text|
    ensures isReal ==> IsRealNumber(text[g..end])
    ensures !isReal ==> IsUnsignedInteger(text[g..end])
    ensures end == |text| || !IsDigit(text[end])
    ensures !isReal ==> !(end + 1 < |text| && IsSeparator(text[end]) && IsDigit(text[end + 1]))
  {
    end := g;
    isReal := false;
    ghost var sep: nat := g;
    while end < |text| && (IsDigit(text[end]) || IsSeparator(text[end]))
      invariant g <= end <= |text|
      invariant !isReal ==> forall j :: g <= j < end ==> IsDigit(text[j])
      invariant isReal ==> g < sep < end && IsSeparator(text[sep])
      invariant isReal ==> forall j :: g <= j < end && j != sep ==> IsDigit(text[j])
      invariant isReal && sep + 1 == end ==> end < |text| && IsDigit(text[end])
      decreases |text| - end
    {
      if IsSeparator(text[end]) {
        if isReal || end + 1 >= |text| || !IsDigit(text[end + 1]) {
          break;
        }
        isReal := true;
        sep := end;
      }
      end := end + 1;
    }
    if isReal {
      var t := text[g..end];
      assert 0 < sep - g < |t| - 1 && IsSeparator(t[sep - g]);
      assert forall j :: 0 <= j < |t| && j != sep - g ==> IsDigit(t[j]) by {
        forall j | 0 <= j < |t| && j != sep - g
          ensures IsDigit(t[j])
        {
          assert t[j] == text[g + j];
        }
      }
    }
  }

  // ---------------------------------------------------------------------------
  // The row of each kind of token

  /** `row` is a well-formed, located row for a token other than an invalid
      character, covering `text[g..end]`. */
  ghost predicate TokenRow(text: string, row: Row, g: nat, end: nat)
  {
    g < end && WellFormed(row) && row.kind != InvalidChar && Located(text, row, g) && Span(row) == end - g
  }

  /** The scan passed over `text[g..end]`, which holds no line break. */
  ghost predicate Advanced(text: string, g: nat, end: nat, line: nat, col: nat)
  {
    && g < end <= |text|
    && (forall j :: g <= j < end ==> MayAppear(text[j]))
    && LineCol(text, end) == Pos(line, col + (end - g))
  }

  /** The ' '/'\t' case: the run of blanks, and the "(пробел)" row over it that
      is added when the previous row was a keyword. */
  method BlankToken(text: string, g: nat, line: nat, col: nat) returns (row: Row, end: nat)
    requires g < |text| && IsBlank(text[g]) && LineCol(text, g) == Pos(line, col)
    ensures row.kind == Space && TokenRow(text, row, g, end) && Advanced(text, g, end, line, col)
    ensures forall j :: g <= j < end ==> IsBlank(text[j])
  {
    end := ScanBlanks(text, g);
    row := MakeRow(" ", Space, line, col, col + (end - g));
    LineColAdvance(text, g, end);
  }

  method OperatorToken(text: string, g: nat, line: nat, col: nat) returns (row: Row)
    requires g < |text| && IsOperator(text[g]) && LineCol(text, g) == Pos(line, col)
    ensures row.kind == Operator && TokenRow(text, row, g, g + 1) && Advanced(text, g, g + 1, line, col)
  {
    var token := [text[g]];
    row := MakeRow(token, Operator, line, col, col + 1);
    assert token in Operators;
    assert text[g..g + 1] == token;
    LineColAdvance(text, g, g + 1);
  }

  /** The letter case: the maximal word, a keyword iff it is exactly an entry of `Keywords`. */
  method WordToken(text: string, g: nat, line: nat, col: nat) returns (row: Row, end: nat)
    requires g < |text| && IsLetter(text[g]) && !IsCyrillic(text[g]) && LineCol(text, g) == Pos(line, col)
    ensures row.kind == Keyword || row.kind == Identifier
    ensures TokenRow(text, row, g, end) && Advanced(text, g, end, line, col)
  {
    end := ScanWord(text, g);
    WordAdvanced(text, g, end, line, col);
    var token := text[g..end];
    var kind := if IsKeyword(token) then Keyword else Identifier;
    var endPosition := col + |token|;
    row := MakeRow(token, kind, line, col, endPosition);
    WordWellFormed(token, kind, line, col);
    WordLocated(text, g, end, row);
  }

  lemma WordAdvanced(text: string, g: nat, end: nat, line: nat, col: nat)
    requires g < |text| && IsLetter(text[g]) && !IsCyrillic(text[g]) && LineCol(text, g) == Pos(line, col)
    requires g <= end <= |text| && forall j :: g <= j < end ==> IsWordChar(text[j])
    requires end == |text| || !IsWordChar(text[end])
    ensures g < end && IsWord(text[g..end]) && Advanced(text, g, end, line, col)
  {
    var token := text[g..end];
    assert forall j :: 0 <= j < |token| ==> token[j] == text[g + j];
    LineColAdvance(text, g, end);
  }

  lemma WordWellFormed(t: string, kind: Kind, line: nat, col: nat)
    requires IsWord(t) && kind == if IsKeyword(t) then Keyword else Identifier
    ensures WellFormed(MakeRow(t, kind, line, col, col + |t|))
    ensures Span(MakeRow(t, kind, line, col, col + |t|)) == |t|
  {
    if kind == Keyword {
      assert t in Keywords;
    }
  }

  lemma WordLocated(text: string, g: nat, end: nat, row: Row)
    requires g < end <= |text| && LineCol(text, g) == Pos(row.line, row.first)
    requires row.token == text[g..end] && (row.kind == Keyword || row.kind == Identifier)
    requires end == |text| || !IsWordChar(text[end])
    ensures Located(text, row, g) && Span(row) == end - g
  {
  }

  /** The digit case: an unsigned integer, or a real when a separator was taken. */
  method NumberToken(text: string, g: nat, line: nat, col: nat) returns (row: Row, end: nat)
    requires g < |text| && IsDigit(text[g]) && LineCol(text, g) == Pos(line, col)
    ensures row.kind == UnsignedInteger || row.kind == RealNumber
    ensures TokenRow(text, row, g, end) && Advanced(text, g, end, line, col)
  {
    var isReal;
    end, isReal := ScanNumber(text, g);
    var token := text[g..end];
    var kind := if isReal then RealNumber else UnsignedInteger;
    var endPosition := col + |token|;
    row := MakeRow(token, kind, line, col, endPosition);
    assert forall j :: g <= j < end ==> text[j] == token[j - g];
    assert forall j :: 0 <= j < |token| ==> IsDigit(token[j]) || IsSeparator(token[j]);
    LineColAdvance(text, g, end);
    NumberLocated(text, g, end, row);
  }

  lemma NumberLocated(text: string, g: nat, end: nat, row: Row)
    requires g < end <= |text| && LineCol(text, g) == Pos(row.line, row.first)
    requires row.token == text[g..end] && (row.kind == UnsignedInteger || row.kind == RealNumber)
    requires end == |text| || !IsDigit(text[end])
    requires row.kind == UnsignedInteger ==> !(end + 1 < |text| && IsSeparator(text[end]) && IsDigit(text[end + 1]))
    ensures Located(text, row, g) && Span(row) == end - g
  {
  }

  /** The two invalid-character exits: one row coded -1 for the character at `g`. */
  method InvalidToken(text: string, g: nat, line: nat, col: nat) returns (row: Row)
    requires g < |text| && LineCol(text, g) == Pos(line, col) && !CanStartToken(text[g])
    ensures row.kind == InvalidChar && WellFormed(row) && Located(text, row, g)
  {
    row := MakeRow([text[g]], InvalidChar, line, col, col + 1);
    assert text[g..g + 1] == [text[g]];
  }

  /** One pass of the loop of Analyze on a character that starts a token:
      the ' '/'\t', operator, letter and digit cases. */
  method NextToken(text: string, g: nat, line: nat, col: nat) returns (row: Row, end: nat)
    requires g < |text| && LineCol(text, g) == Pos(line, col)
    requires text[g] != '\n' && CanStartToken(text[g])
    ensures TokenRow(text, row, g, end) && Advanced(text, g, end, line, col)
    ensures row.kind == Space <==> IsBlank(text[g])
    ensures row.kind == Space ==> forall j :: g <= j < end ==> IsBlank(text[j])
  {
    var c := text[g];
    if IsBlank(c) {
      row, end := BlankToken(text, g, line, col);
    } else if IsOperator(c) {
      row := OperatorToken(text, g, line, col);
      end := g + 1;
    } else if IsLetter(c) {
      row, end := WordToken(text, g, line, col);
    } else {
      row, end := NumberToken(text, g, line, col);
    }
  }

  // ---------------------------------------------------------------------------
  // The scan

  /** The token case of the loop of Analyze: the row of the token at `g` is
      added, except a run of blanks that does not follow a keyword. */
  method ScanToken(text: string, rows: seq<Row>, ghost offsets: seq<nat>, g: nat, line: nat, col: nat, kw: bool)
    returns (rows': seq<Row>, ghost offsets': seq<nat>, end: nat, kw': bool)
    requires g < |text| && LineCol(text, g) == Pos(line, col)
    requires text[g] != '\n' && CanStartToken(text[g])
    requires Scanned(text, rows, offsets, g, kw)
    ensures g < end <= |text| && LineCol(text, end) == Pos(line, col + (end - g))
    ensures Scanned(text, rows', offsets', end, kw')
    ensures IsBlank(text[g]) && !kw ==> rows' == rows
    ensures !(IsBlank(text[g]) && !kw) ==> |rows'| == |rows| + 1 && rows'[..|rows|] == rows
  {
    var row;
    row, end := NextToken(text, g, line, col);
    if row.kind == Space && !kw {
      ScannedSkip(text, rows, offsets, g, kw, end);
      rows', offsets', kw' := rows, offsets, kw;
    } else {
      ScannedAppend(text, rows, offsets, g, kw, row, end);
      rows', offsets', kw' := rows + [row], offsets + [g], row.kind == Keyword;
      assert rows'[..|rows|] == rows;
    }
  }

  /** The loop of Analyze up to the first character that cannot start a
      token, or to the end of the text: the rows found so far and where the
      scan stands. */
  method ScanValid(text: string) returns (rows: seq<Row>, ghost offsets: seq<nat>, g: nat, line: nat, col: nat, kw: bool)
    ensures Scanned(text, rows, offsets, g, kw) && LineCol(text, g) == Pos(line, col)
    ensures g < |text| ==> !CanStartToken(text[g])
  {
    rows, offsets, g, line, col, kw := [], [], 0, 1, 0, false;
    while g < |text| && CanStartToken(text[g])
      invariant g <= |text|
      invariant LineCol(text, g) == Pos(line, col)
      invariant Scanned(text, rows, offsets, g, kw)
      decreases |text| - g
    {
      if text[g] == '\n' {
        ScannedSkip(text, rows, offsets, g, kw, g + 1);
        line, col := line + 1, 0;
        g := g + 1;
      } else {
        var end;
        rows, offsets, end, kw := ScanToken(text, rows, offsets, g, line, col, kw);
        col := col + (end - g);
        g := end;
      }
    }
  }

  /** Scanner.Analyze: the rows it adds, and where it highlights an invalid character. */
  method Analyze(text: string) returns (ok: bool, rows: seq<Row>, highlight: Option<nat>)
    ensures ok <==> highlight == None
    ensures |rows| <= |text|
    ensures forall i :: 0 <= i < |rows| ==> WellFormed(rows[i])
    ensures forall i :: 0 <= i < |rows| && rows[i].kind == Space ==> 0 < i && rows[i - 1].kind == Keyword
    ensures forall i :: 0 <= i < |rows| - 1 ==> rows[i].kind != InvalidChar
    ensures ok ==> |rows| == 0 || rows[|rows| - 1].kind != InvalidChar
    ensures ok ==> forall j :: 0 <= j < |text| ==> MayAppear(text[j])
    ensures highlight.Some? ==>
      && highlight.value < |text|
      && !CanStartToken(text[highlight.value])
      && (forall j :: 0 <= j < highlight.value ==> MayAppear(text[j]))
      && |rows| > 0
      && rows[|rows| - 1].kind == InvalidChar
      && Located(text, rows[|rows| - 1], highlight.value)
    ensures exists offsets ::
      LocatedRows(text, rows, offsets) && Covered(text, rows, offsets, if ok then |text| else highlight.value)
    ensures (forall j :: 0 <= j < |text| ==> CanStartToken(text[j])) ==> ok
  {
    var g, line, col, kw;
    ghost var offsets;
    rows, offsets, g, line, col, kw := ScanValid(text);
    if g < |text| {
      var row := InvalidToken(text, g, line, col);
      ScannedInvalid(text, rows, offsets, g, kw, row);
      rows, offsets := rows + [row], offsets + [g];
      ok, highlight := false, Some(g);
      assert LocatedRows(text, rows, offsets) && Covered(text, rows, offsets, g);
    } else {
      ok, highlight := true, None;
      assert LocatedRows(text, rows, offsets) && Covered(text, rows, offsets, |text|);
    }
  }
}
