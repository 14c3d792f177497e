# Record-type lexer and validator

This project models the two analysis passes of the Lexer desktop tool in Dafny:

- **`Scanner.Analyze`** (Lexer/Scanner.cs). It splits a text into rows of a result table: keywords, identifiers, operators, unsigned integers, real numbers, and "(пробел)" rows for blanks that follow a keyword. It stops where the next token should start but the character there cannot start one, and highlights that character.
- **`RecordParser.ParseRecord`** (Lexer/Parser.cs). It is a character-level recursive-descent validator for Pascal-like declarations of the form `type Name = record a, b: integer; c: real end;`. It records a list of error messages and recovers by skipping ahead to a keyword.

## Files

- `chars.dfy` (module `Chars`): the character classes the source takes from .NET. These are letters, digits, white space and case folding.
- `parser.dfy` (module `RecordParser`): the C# class's mutable cursor and error list become a `State(pos, errs)` value. Each private method becomes a pure function from the state before the call to the state after it. Errors are an `Error` datatype, and `Message` gives the exact text the source adds for each.
- `syntax.dfy` (module `RecordSyntax`): an abstract syntax of well-formed programs (`Decl`, `Field`, `TypeName`) and a canonical renderer `Render`. It proves that `ParseRecord` reports no error on any rendered well-formed program. This is the parser's partner: the set of inputs it must accept, defined independently of the parser.
- `scanner.dfy` (module `Scanner`):
  - `Analyze` is a method. The source's main loop is `ScanValid`, one token step of it is `ScanToken`, and the inner scanning loops are `ScanBlanks`, `ScanWord` and `ScanNumber`.
  - The result table becomes a sequence of `Row`s. The editor highlight becomes an optional offset; its length is always 1.
  - Each row's meaning is stated independently of the code that builds it: `WellFormed` for its code, kind and token, and `Located` for where the token sits in the text. `Covered` states that no character the scan passes over should have had a row.

## Observations about the source

These are read from the code; the model follows the code.

- A record with no fields (`type T = record end;`) is accepted.
- An empty or all-blank input yields no error.
- Identifiers may contain `_`.
- Scanner columns are 0-based. A row's range `с a по b` has `b` equal to the end position minus one.
- The scanner rejects a Cyrillic letter only where a token starts. Inside a word, `char.IsLetterOrDigit` accepts it, so `aб` is one identifier.
- A `'\r'` is not a separator in `Analyze`. The `separators` array is never read, so a `'\r'` in the text is reported as an invalid character.
- Recovery looks for the keyword `";"` with `PeekKeyword`. That also requires a non-word character after the `;`, so a `;` directly followed by a letter, digit or `_` is skipped over (`SemicolonBeforeWordIsNoStop`).
- In `ParseFields`, `identifiers.Count > 0` always holds, because the loop returns before an empty list can arise.
- In the private `ParseRecord`, the `!MatchKeyword("record")` branch cannot be taken. Its only caller has already checked `PeekKeyword("record")`.
- In `GetTokenCode`, `default: return 0` cannot be reached.

## Model

| member | source | states |
|---|---|---|
| RecordParser.LettersMatchFrom | Lexer/Parser.cs:226-230 | The comparison loop succeeds iff every remaining keyword character equals the input character under case folding. |
| RecordParser.PeekKeyword | Lexer/Parser.cs:221-241 | True iff the keyword fits in the input, matches case-insensitively, and is not followed by a letter, digit or `_` (the reference predicate `KeywordAt`). |
| RecordParser.PeekAnyKeywordFromMeans | Lexer/Parser.cs:102-105 | The `foreach` over keywords from index i succeeds iff one of the remaining keywords starts at the cursor. |
| RecordParser.PeekAnyKeywordMeans | Lexer/Parser.cs:102-105 | The `foreach` of SkipToKeyword succeeds iff some keyword of the list starts at the cursor. |
| RecordParser.MatchKeyword | Lexer/Parser.cs:243-251 | Succeeds iff the keyword starts at the cursor; on success the cursor moves past it, otherwise the state is unchanged. |
| RecordParser.MatchChar | Lexer/Parser.cs:253-261 | Succeeds iff the character at the cursor is `c`; only then does the cursor advance by one. |
| RecordParser.SkipWhitespace | Lexer/Parser.cs:263-269 | The cursor moves forward, never past the end, to the end or to a non-white-space character; errors are untouched. |
| RecordParser.SkipWhitespaceSkipsBlanks | Lexer/Parser.cs:263-269 | Every character skipped is white space, so the stop is the first non-blank. |
| RecordParser.SkipWhitespaceStopsAt | Lexer/Parser.cs:263-269 | Given a run of white space from the cursor ending at a non-blank or at the end, the cursor moves exactly to that stop and the errors are unchanged. |
| RecordParser.SkipWordChars | Lexer/Parser.cs:197-200 | The identifier loop stops at the end or at the first character that is not a letter, digit or `_`. |
| RecordParser.SkipWordCharsSkipsWord | Lexer/Parser.cs:197-200 | Everything the identifier loop passes is a letter, digit or `_`. |
| RecordParser.ParseIdentifier | Lexer/Parser.cs:189-201 | Without a letter at the cursor: exactly one ExpectedIdentifier error and no move. Otherwise: no error, at least one character consumed, and the stop is not a word character. |
| RecordParser.ParseIdentifierReadsWord | Lexer/Parser.cs:189-201 | The consumed identifier consists only of letters, digits and `_`. |
| RecordParser.ParseIdentifierStopsAt | Lexer/Parser.cs:189-201 | Given a letter at the cursor followed by word characters up to a non-word character or the end, the identifier is read exactly to there with no error. |
| RecordParser.AddError | Lexer/Parser.cs:271-274 | The message is appended as the last error; the earlier errors and the cursor are unchanged. |
| RecordParser.MessagesIdentifyErrors | Lexer/Parser.cs:39-193 | The eleven messages the parser adds are pairwise different, so the list of messages tells exactly which errors were recorded. |
| RecordParser.SkipToKeywordFrom | Lexer/Parser.cs:100-114 | The loop moves at most 51 characters past its start and adds at most the one "keyword not found" error. |
| RecordParser.SkipToKeywordFromOutcome | Lexer/Parser.cs:100-114 | No keyword and no end of input is passed; either it stops at one within 50 characters with no error, or it reports KeywordNotFound exactly 51 characters on. |
| RecordParser.SkipToKeyword | Lexer/Parser.cs:97-115 | The cursor moves forward by at most 51, and the error list grows by nothing or by KeywordNotFound. |
| RecordParser.SkipToKeywordOutcome | Lexer/Parser.cs:97-115 | The same stopping/giving-up dichotomy from the caller's cursor, and the cursor moves whenever it is not already on a keyword. |
| RecordParser.Recover | Lexer/Parser.cs:39-40 | The AddError-then-SkipToKeyword step appends the given error first, keeps earlier errors, and never moves back. |
| RecordParser.RecoverProgress | Lexer/Parser.cs:39-40 | Recovery from a position where no target keyword starts always advances, which is why the main loop terminates. |
| RecordParser.SkipToNextField | Lexer/Parser.cs:203-209 | The cursor moves forward without adding errors. |
| RecordParser.SkipToNextFieldOutcome | Lexer/Parser.cs:203-209 | It stops at the first `;`, keyword `end`, or end of input, and passes none before that. |
| RecordParser.MatchAnyKeywordFrom | Lexer/Parser.cs:173-180 | A miss leaves the state unchanged; a match adds no error and moves forward. |
| RecordParser.MatchAnyKeywordFromOutcome | Lexer/Parser.cs:173-180 | From index i, the loop matches iff one of the remaining keywords starts here, and then it consumes exactly such a keyword. |
| RecordParser.MatchAnyKeyword | Lexer/Parser.cs:173-180 | A miss leaves the state unchanged; a match adds no error. |
| RecordParser.MatchAnyKeywordOutcome | Lexer/Parser.cs:173-180 | The type loop matches iff some listed type keyword starts at the cursor, and it consumes exactly that keyword. |
| RecordParser.KeywordsExclusive | Lexer/Parser.cs:232-238 | Because of the boundary check, two lower-case keywords that both match at one place are the same. |
| RecordParser.ShorterKeywordBlocks | Lexer/Parser.cs:232-238 | Where a keyword matches, no longer lower-case keyword matches. |
| RecordParser.ParseType | Lexer/Parser.cs:168-187 | The cursor moves forward; the only error it can add is the invalid-type message. |
| RecordParser.ParseTypeOutcome | Lexer/Parser.cs:168-187 | A valid type name is consumed exactly, with no error. Otherwise one InvalidType error is added, and the cursor stops at the first `;`, `end` or end of input. |
| RecordParser.ParseTypeExact | Lexer/Parser.cs:168-187 | Where type `ValidTypes[i]` is written, ParseType consumes exactly that name, even though `string` and `char` are tried in list order. |
| RecordParser.ParseFieldTerminator | Lexer/Parser.cs:158-162 | No error iff the cursor is at `;` (consumed) or at `end` (left in place); otherwise the first new error is the missing-';' message. |
| RecordParser.Substring | Lexer/Parser.cs:138 | The extracted text has length `to - from` and holds the input's characters in that range. |
| RecordParser.ParseIdentList | Lexer/Parser.cs:126-142 | A completed list is nonempty, advances, and adds no error. An abandoned list adds ExpectedFieldIdentifier first. |
| RecordParser.ParseFieldType | Lexer/Parser.cs:144-163 | The `:`, type and terminator part moves forward and only appends errors. Without a `:` after the white space, the first new error is the missing-':' message. |
| RecordParser.MissingColonReported | Lexer/Parser.cs:144-151 | If the next non-blank character is not `:`, the first error of the field's type part is the missing-':' message. |
| RecordParser.ParseFieldDeclaration | Lexer/Parser.cs:125-163 | A declaration that continues the loop consumes input. One that ends ParseFields records ExpectedFieldIdentifier first. |
| RecordParser.ParseFields | Lexer/Parser.cs:118-165 | Errors are only appended, and a field list that adds no error stops at the keyword `end` or at the end of input. |
| RecordParser.ParseFieldsPass | Lexer/Parser.cs:122-163 | One loop pass only appends errors, and without an error the loop ends at `end` or at the end of input. |
| RecordParser.ParseRecordBody | Lexer/Parser.cs:69-95 | Without `record` at the cursor, the first new error is ExpectedRecordKeyword. A body with no error started with `record` and consumed input. |
| RecordParser.ParseRecordRest | Lexer/Parser.cs:78-95 | After `record`: errors are only appended, and an error-free rest consumes input. |
| RecordParser.ParseRecordEnd | Lexer/Parser.cs:81-94 | An error-free close consumes input ending in `;`. Without `end` at the cursor, the first new error is the missing-'end' message. After `end`, any error recorded starts with the missing-';'-after-'end' message. |
| RecordParser.ParseRecordEndOutcome | Lexer/Parser.cs:81-94 | The record closes without error iff the keyword `end` is at the cursor and the next non-blank after it is `;`. When `end` is there but `;` is not next, the first new error is the missing-';'-after-'end' message. |
| RecordParser.ParseTypeDeclaration | Lexer/Parser.cs:35-42 | A declaration always consumes input when input remains. Without `type` at the cursor, the first new error is the missing-'type' message. |
| RecordParser.MissingNameReported | Lexer/Parser.cs:43-45 | After `type` and white space, a character that is not a letter makes the missing-identifier message the declaration's first error. |
| RecordParser.MissingEqualsReported | Lexer/Parser.cs:44-53 | After `type`, a name and white space, a character other than `=` makes the missing-'=' message the declaration's first error. |
| RecordParser.MissingRecordReported | Lexer/Parser.cs:55-63 | After `type Name =` and white space, a missing `record` keyword makes the missing-'record' message the declaration's first error. |
| RecordParser.ParseDeclarations | Lexer/Parser.cs:21-25 | The main loop consumes the whole input and only appends errors. |
| RecordParser.Parse | Lexer/Parser.cs:12-25 | The public entry point always reaches the end of the input, starting from position 0 with no errors. |
| RecordParser.ParseRecord | Lexer/Parser.cs:12-33 | The returned list holds one message per recorded error, in the order recorded. |
| RecordParser.BlankInputHasNoErrors | Lexer/Parser.cs:20-25 | Empty or all-white-space input yields no message. |
| RecordParser.MissingTypeReportedFirst | Lexer/Parser.cs:37-41 | If the first word is not `type`, the first message is the missing-'type' message. |
| RecordParser.SemicolonBeforeWordIsNoStop | Lexer/Parser.cs:104 | Recovery towards `";"` does not stop at a `;` directly followed by a letter, digit or `_`. |
| RecordSyntax.IdentListParses | Lexer/Parser.cs:126-142 | A list of identifiers written with ", " and followed by `:` is read back as exactly that list, with no error. |
| RecordSyntax.TypeParses | Lexer/Parser.cs:168-187 | A written type name followed by a non-word character is consumed exactly, with no error. |
| RecordSyntax.FieldParses | Lexer/Parser.cs:125-163 | A well-formed field is one declaration with no error. It stops after its `;`, or before `end` when the `;` is left out. |
| RecordSyntax.FieldsParse | Lexer/Parser.cs:118-165 | A well-formed field list (the last `;` optional) is parsed with no error and stops at `end`. |
| RecordSyntax.RecordEndParses | Lexer/Parser.cs:81-94 | `end;` closes a record with no error. |
| RecordSyntax.DeclParses | Lexer/Parser.cs:35-95 | A rendered well-formed declaration is parsed to its end with no error. |
| RecordSyntax.ProgramParses | Lexer/Parser.cs:21-25 | Newline-separated rendered declarations are parsed to the end of input with no error. |
| RecordSyntax.RenderedProgramHasNoErrors | Lexer/Parser.cs:12-33 | `ParseRecord(Render(ds))` is empty for every well-formed program `ds`. |
| Scanner.IndexOf | Lexer/Scanner.cs:143 | `Array.IndexOf` gives the first index holding the element, or -1 exactly when it is absent. |
| Scanner.IsOperator | Lexer/Scanner.cs:129 | True iff the character is the first character of an entry of `operators`. |
| Scanner.IsKeyword | Lexer/Scanner.cs:131 | True iff the token equals an entry of `keywords`, case-sensitively. |
| Scanner.LabelsIdentifyKinds | Lexer/Scanner.cs:141-149 | The seven `tokenType` labels are pairwise different, so switching on the label is switching on the kind. |
| Scanner.Place | Lexer/Scanner.cs:143-146 | For a listed token, the code lies in `[base, base + count)` and names that token's entry. |
| Scanner.TokenCode | Lexer/Scanner.cs:139-152 | For a listed keyword or operator, and for the other kinds, decoding the code gives back the token's kind: codes 1-9 keywords, 10 identifier, 11 space, 12-15 operators, 16 integer, 17 real, -1 invalid. |
| Scanner.MakeRow | Lexer/Scanner.cs:133-137 | The row carries the token's code, kind, token and line; its range starts at the start position and covers `endPos - startPos` columns. |
| Scanner.LineColAdvance | Lexer/Scanner.cs:29-41 | On a stretch without `'\n'` the line number stays and the column grows by the stretch's length. |
| Scanner.ScanBlanks | Lexer/Scanner.cs:37-42 | The blank loop consumes the maximal run of spaces and tabs. |
| Scanner.ScanWord | Lexer/Scanner.cs:73-77 | The word loop consumes the maximal run of letters, digits and `_`. |
| Scanner.ScanNumber | Lexer/Scanner.cs:93-105 | The number is digits, or digits-separator-digits iff it is reported real. It is not followed by a digit. An integer stops where no separator-then-digit follows. |
| Scanner.BlankToken | Lexer/Scanner.cs:35-48 | The "(пробел)" row covers the maximal blank run, with code 11. |
| Scanner.OperatorToken | Lexer/Scanner.cs:60-68 | The operator row has the code of that operator and covers one column. |
| Scanner.WordToken | Lexer/Scanner.cs:71-88 | A maximal word becomes a keyword row with the keyword's code iff it is in `keywords`, otherwise an identifier row with code 10. |
| Scanner.NumberToken | Lexer/Scanner.cs:91-116 | A maximal number becomes an unsigned-integer (16) or real (17) row whose token is that number's text. An integer row is never followed by a separator and a digit. |
| Scanner.InvalidToken | Lexer/Scanner.cs:53-57 | The invalid-character row has code -1, the one character, and covers one column. |
| Scanner.NextToken | Lexer/Scanner.cs:35-117 | One step of the scan yields a well-formed row located at the cursor. It is a space row iff the character is a blank, and then it covers only blanks. |
| Scanner.ScanToken | Lexer/Scanner.cs:35-117 | A token step adds its row, except for blanks that do not follow a keyword, which add nothing; the rows found still cover the text scanned. |
| Scanner.ScanValid | Lexer/Scanner.cs:23-117 | The loop reaches the end of the text or stops at a character that cannot start a token, having found rows that are located, cover the text scanned, and record whether the last one is a keyword. |
| Scanner.Analyze | Lexer/Scanner.cs:13-127 | Returns true iff nothing is highlighted. Rows are well formed and located in text order; a space row follows a keyword row; only the last row is invalid. Every character before the end of the scan is in a row, is a `'\n'`, or is a blank that does not follow a keyword row. A failure highlights a character that cannot start a token, at the point where the next token would start; an earlier such character may sit inside a word. Text of token-starting characters always succeeds. |

## Left out

- The user interface is out of scope: the DataGridView, RichTextBox, highlight colour (Lexer/Scanner.cs:154-159) and the `"с a по b"` range string. They become the `Row` fields and the highlight offset.
- `try`/`catch` in the public ParseRecord (Lexer/Parser.cs:18-30): no exception can occur in the modelled code, so the "Критическая ошибка" message is not modelled.
- `SkipToNextType` (Lexer/Parser.cs:211-218) is never called, so it is not modelled.
- The `separators` array (Lexer/Scanner.cs:11) is never read, so it is not modelled.
- .NET's Unicode tables for `char.IsLetter`, `char.IsDigit`, `char.IsWhiteSpace` and `char.ToLower` are approximated:
  - letters are ASCII and basic Cyrillic;
  - digits are ASCII;
  - white space is ASCII plus U+0085 and U+00A0;
  - case folding is ASCII-only.

  For the first three, text outside these ranges may be classified differently from the source.
- Case folding is a fixed, culture-invariant ASCII fold. The source's `char.ToLower(char)` (Lexer/Parser.cs:228) folds by the current culture. Under a Turkic culture (tr-TR, az-AZ) it maps `'I'` to `'ı'` (U+0131). So `INTEGER` or `STRING` written in upper case fails `PeekKeyword` there and is reported as an invalid type, while the model accepts it. The same difference applies to every case-insensitive keyword check: `type`, `record`, `end` and the type names. The model's results match the source only under a culture whose fold of ASCII letters is the invariant one.
- Lexer/Form1.cs is the caller. It uses a `RecordTypeParser` class that is not part of this model.
- Characters are Dafny `char`s, while .NET strings are UTF-16 code units. A character outside the Basic Multilingual Plane is one `char` here but two code units in the source. That changes the 50-character limit of `SkipToKeyword` (Lexer/Parser.cs:108) and the scanner's columns (Lexer/Scanner.cs:135) for such text.
- The public `ParseRecord` returns its own `errors` field (Lexer/Parser.cs:10, 16, 32), so a list returned earlier is cleared and refilled by the next call. The model returns a fresh sequence on each call and does not model this aliasing.
- RecordSyntax.RenderedProgramHasNoErrors covers one canonical layout of each well-formed program (single spaces, one declaration per line). It does not cover every spacing the parser accepts, and it does not state the converse, that an error-free input is well formed.
