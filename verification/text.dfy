/** Small facts about text shared by the extractor and the file-name filter. */
module Text {

  /** Text `t` occurs in `s` at offset `a`. */
  predicate OccursAt(t: string, s: string, a: int)
  {
    0 <= a <= |s| - |t| && s[a..a + |t|] == t
  }

  /** Text `t` occurs in `s` at some offset. */
  predicate Occurs(t: string, s: string)
  {
    exists a | 0 <= a <= |s| :: OccursAt(t, s, a)
  }
}
