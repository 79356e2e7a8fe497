/**
 * Character classes and case mappings of the C locale, as used by `::isspace`,
 * `::isdigit`, `::toupper` and `::tolower` in x.hpp. A Dafny `char` stands for
 * one byte of a `std::string`; characters outside ASCII belong to no class and
 * are left unchanged by the case mappings, as the C locale does.
 */
module Chars {

  /** `::isspace` in the C locale: space, \t, \n, \v, \f, \r; none of them is a digit or a letter, and case mapping keeps them. */
  predicate IsSpace(c: char)
    ensures IsSpace(c) ==> !IsAsciiDigit(c) && !IsLetter(c)
    ensures IsSpace(c) ==> ToUpper(c) == c && ToLower(c) == c
  {
    c == ' ' || ('\t' <= c <= '\r')
  }

  /** `std::isdigit`: the ten ASCII digits only; no digit is a letter, and case mapping keeps them. */
  predicate IsAsciiDigit(c: char)
    ensures IsAsciiDigit(c) ==> !IsLetter(c)
    ensures IsAsciiDigit(c) ==> ToUpper(c) == c && ToLower(c) == c
  {
    '0' <= c <= '9'
  }

  predicate IsLowerLetter(c: char) {
    'a' <= c <= 'z'
  }

  predicate IsUpperLetter(c: char) {
    'A' <= c <= 'Z'
  }

  predicate IsLetter(c: char) {
    IsLowerLetter(c) || IsUpperLetter(c)
  }

  /** `::toupper`: lower-case ASCII letters move to upper case, everything else is kept. */
  function ToUpper(c: char): (u: char)
    ensures IsLowerLetter(c) ==> IsUpperLetter(u) && u as int == c as int - 32
    ensures !IsLowerLetter(c) ==> u == c
    ensures !IsLowerLetter(u)
  {
    if IsLowerLetter(c) then (c as int - 32) as char else c
  }

  /** `::tolower`: upper-case ASCII letters move to lower case, everything else is kept. */
  function ToLower(c: char): (l: char)
    ensures IsUpperLetter(c) ==> IsLowerLetter(l) && l as int == c as int + 32
    ensures !IsUpperLetter(c) ==> l == c
    ensures !IsUpperLetter(l)
  {
    if IsUpperLetter(c) then (c as int + 32) as char else c
  }

  /** Folding a character's case does not depend on the case it started in. */
  lemma FoldIgnoresUpper(c: char)
    ensures ToLower(ToUpper(c)) == ToLower(c)
    ensures ToUpper(ToLower(c)) == ToUpper(c)
  {
  }
}
