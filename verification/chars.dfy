/** ASCII character classes, as the bracket classes `[0-9]`, `[A-Z]` and `[a-z]` of a regular expression match them. */
module Chars {

  predicate IsDigit(c: char)
  {
    '0' <= c <= '9'
  }

  predicate IsUpper(c: char)
  {
    'A' <= c <= 'Z'
  }

  predicate IsLower(c: char)
  {
    'a' <= c <= 'z'
  }
}
