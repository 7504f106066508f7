/** Character classes of the C locale, and the option type used for null pointers. */
module Chars {

  const NUL: char := '\0'

  predicate IsSpace(c: char) {
    c == ' ' || c == '\t' || c == '\n' || c == '\U{0B}' || c == '\U{0C}' || c == '\r'
  }

  predicate IsBlank(c: char) {
    c == ' ' || c == '\t'
  }

  predicate IsDigit(c: char) {
    '0' <= c <= '9'
  }

  predicate IsAlpha(c: char) {
    'a' <= c <= 'z' || 'A' <= c <= 'Z'
  }

  predicate IsAlnum(c: char) {
    IsAlpha(c) || IsDigit(c)
  }

  /** First characters of the shell's operators (`is_operator_start`). */
  predicate IsOperatorStart(c: char) {
    c == '&' || c == '|' || c == ';' || c == '<' || c == '>'
  }

  /** The classes by their codes in ASCII. */
  lemma ClassesByCode(c: char)
    ensures IsSpace(c) <==> 9 <= c as int <= 13 || c as int == 32
    ensures IsBlank(c) <==> c as int == 9 || c as int == 32
    ensures IsDigit(c) <==> 48 <= c as int <= 57
    ensures IsAlpha(c) <==> 65 <= c as int <= 90 || 97 <= c as int <= 122
    ensures IsOperatorStart(c) <==> c in "&;<>|"
  {
  }

  /** A C string: no NUL among its characters. */
  predicate NulFree(s: string) {
    NUL !in s
  }

  /** What a C program reads at offset `i` of the NUL-terminated string `s`. */
  function At(s: string, i: nat): char
    requires i <= |s|
  {
    if i < |s| then s[i] else NUL
  }

  datatype Option<+T> = None | Some(value: T)
}
