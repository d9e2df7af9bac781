/** The text checks shared by registration and the profile editor. */
module Validation {

  /** str.isnumeric on the decimal digits: at least one character, every one a digit. */
  predicate IsNumeric(s: string)
  {
    |s| > 0 && forall i :: 0 <= i < |s| ==> '0' <= s[i] <= '9'
  }

  /** The `'@' in email` test. */
  predicate HasAt(s: string)
  {
    '@' in s
  }
}
