/** URLs and the two scheme tests of the background worker (background/worker.js:85, 271-273). */
module Urls {

  type Url = string

  /** ASCII lower-casing, the case folding of a JavaScript `/i` regular expression on ASCII letters. */
  function LowerAscii(c: char): char {
    if 'A' <= c <= 'Z' then (c as int + 32) as char else c
  }

  /** `s` begins with `lowerPrefix` when ASCII letters are compared without regard to case. */
  predicate StartsWithIgnoringCase(s: string, lowerPrefix: string) {
    |lowerPrefix| <= |s| && forall i :: 0 <= i < |lowerPrefix| ==> LowerAscii(s[i]) == lowerPrefix[i]
  }

  /** `/^chrome(|-untrusted|-extension):\/\//i`: a privileged browser page that is never recreated. */
  predicate IsInternal(u: Url) {
    || StartsWithIgnoringCase(u, "chrome://")
    || StartsWithIgnoringCase(u, "chrome-untrusted://")
    || StartsWithIgnoringCase(u, "chrome-extension://")
  }

  /** `/^https?:\/\//` or `/^file:\/\//` (case-sensitive): a page that can show the restore notice. */
  predicate CanToast(u: Url) {
    "http://" <= u || "https://" <= u || "file://" <= u
  }
}
