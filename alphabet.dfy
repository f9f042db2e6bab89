/** Character classes used by the cipher. Letters are the ASCII letters only. */
module Alphabet {

  /** An ASCII capital letter, 'A' to 'Z'. */
  predicate IsUpper(c: char) {
    'A' <= c <= 'Z'
  }

  /** An ASCII small letter, 'a' to 'z'. */
  predicate IsLower(c: char) {
    'a' <= c <= 'z'
  }

  /** The characters the cipher rotates; everything else passes through. */
  predicate IsAlpha(c: char) {
    IsUpper(c) || IsLower(c)
  }

  /** Upper-cases a small letter and leaves every other character alone. */
  function ToUpper(c: char): char {
    if IsLower(c) then (c as int - 'a' as int + 'A' as int) as char else c
  }

  /** Lower-cases a capital letter and leaves every other character alone. */
  function ToLower(c: char): char {
    if IsUpper(c) then (c as int - 'A' as int + 'a' as int) as char else c
  }
}
