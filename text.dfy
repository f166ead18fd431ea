/** Optional values: the model's stand-in for JavaScript's `null`. */
module Wrappers {
  datatype Option<+T> = None | Some(value: T)
}

/**
 * JavaScript strings as the title generator sees them: sequences of UTF-16
 * code units. `length` counts code units, and `includes` searches for a
 * contiguous run of them.
 */
module Text {

  /** One UTF-16 code unit. */
  type CodeUnit = x: int | 0 <= x < 0x1_0000

  /** A JavaScript string. */
  type Str = seq<CodeUnit>

  /** The code units of a literal written with Basic Multilingual Plane characters only. */
  function Units(s: string): Str
    requires forall i :: 0 <= i < |s| ==> s[i] as int < 0x1_0000
  {
    seq(|s|, i requires 0 <= i < |s| => s[i] as int)
  }

  /** The characters `.` refuses to match in a JavaScript regular expression:
    * line feed, carriage return, line separator and paragraph separator. */
  predicate IsLineTerminator(c: CodeUnit) {
    c == 0x0A || c == 0x0D || c == 0x2028 || c == 0x2029
  }

  /** `w` occurs in `s` as the contiguous run starting at index `i`. */
  predicate OccursAt(s: Str, w: Str, i: nat) {
    i + |w| <= |s| && s[i..i + |w|] == w
  }

  /** Reference meaning of "`s` contains `w`". */
  ghost predicate Contains(s: Str, w: Str) {
    exists i: nat :: OccursAt(s, w, i)
  }

  /** The search `String.prototype.includes` performs, from index `i` on. */
  function IncludesFrom(s: Str, w: Str, i: nat): (b: bool)
    ensures b <==> exists k: nat :: i <= k && OccursAt(s, w, k)
    decreases |s| - i
  {
    if i + |w| > |s| then false
    else if OccursAt(s, w, i) then true
    else IncludesFrom(s, w, i + 1)
  }

  /** `s.includes(w)`: true exactly when `w` is a contiguous part of `s`. */
  function Includes(s: Str, w: Str): (b: bool)
    ensures b <==> Contains(s, w)
  {
    IncludesFrom(s, w, 0)
  }
}
