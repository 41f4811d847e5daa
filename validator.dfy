/** The two field checks the create and update operations apply. */
module Validator {

  predicate IsAsciiAlnum(c: char)
  {
    ('a' <= c <= 'z') || ('A' <= c <= 'Z') || ('0' <= c <= '9')
  }

  /** A resource id: 1 to 30 ASCII letters or digits. */
  predicate IsWord(s: string)
  {
    1 <= |s| <= 30 && forall k :: 0 <= k < |s| ==> IsAsciiAlnum(s[k])
  }

  /** A field counts as empty when it has no characters. */
  predicate IsEmpty(s: string)
  {
    |s| == 0
  }
}
