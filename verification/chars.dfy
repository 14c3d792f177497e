/** Character classification shared by the record parser and the scanner.

The source relies on .NET's Unicode tables (char.IsLetter, char.IsDigit,
char.IsLetterOrDigit, char.IsWhiteSpace, char.ToLower). They are modelled
here on the characters this toy language is about: ASCII and the basic
Cyrillic alphabet for letters, ASCII for digits, ASCII blanks plus
U+0085 and U+00A0 for white space, and ASCII-only case folding.
 */
module Chars {

  predicate IsAsciiUpper(c: char) { 'A' <= c <= 'Z' }

  predicate IsAsciiLower(c: char) { 'a' <= c <= 'z' }

  /** The Russian letters the scanner rejects: 'А'..'я' (U+0410..U+044F), 'Ё' and 'ё'. */
  predicate IsCyrillic(c: char) { ('А' <= c <= 'я') || c == 'Ё' || c == 'ё' }

  predicate IsLetter(c: char) { IsAsciiUpper(c) || IsAsciiLower(c) || IsCyrillic(c) }

  predicate IsDigit(c: char) { '0' <= c <= '9' }

  predicate IsLetterOrDigit(c: char) { IsLetter(c) || IsDigit(c) }

  /** A character that may continue an identifier or keyword: letter, digit or '_'. */
  predicate IsWordChar(c: char) { IsLetterOrDigit(c) || c == '_' }

  predicate IsWhiteSpace(c: char)
  {
    c == ' ' || c == '\t' || c == '\n' || c == '\U{000B}' || c == '\U{000C}' || c == '\r'
    || c == '\U{0085}' || c == '\U{00A0}'
  }

  /** Case folding on ASCII letters, as the invariant culture folds them;
      every other character maps to itself. */
  function ToLower(c: char): char
  {
    if IsAsciiUpper(c) then (c as int + 32) as char else c
  }

  /** Folding never produces a letter from a non-letter, nor a non-letter from a letter. */
  lemma ToLowerPreservesWordChar(c: char)
    ensures IsWordChar(ToLower(c)) <==> IsWordChar(c)
    ensures IsAsciiLower(ToLower(c)) <==> IsLetter(c) && !IsCyrillic(c)
  {
  }
}
