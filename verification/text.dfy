/** The two string operations the engine relies on: `s.split(c)[0]` and
    `s.includes(sub)`. */
module Text {

  predicate IsPrefix(p: string, s: string)
  {
    |p| <= |s| && s[..|p|] == p
  }

  /** `s.split(c)[0]`: the text before the first `c`, or all of `s` when it
      holds no `c`. */
  function BeforeFirst(s: string, c: char): (r: string)
    ensures IsPrefix(r, s)
    ensures c !in r
    ensures r == s || s[|r|] == c
  {
    if |s| == 0 then ""
    else if s[0] == c then ""
    else [s[0]] + BeforeFirst(s[1..], c)
  }

  /** `sub` occurs in `s` starting at offset `i`. */
  predicate OccursAt(s: string, sub: string, i: nat)
  {
    i + |sub| <= |s| && s[i..i + |sub|] == sub
  }

  /** `s.includes(sub)`: `sub` occurs in `s` at some offset. */
  predicate Includes(s: string, sub: string)
  {
    exists i :: 0 <= i <= |s| && OccursAt(s, sub, i)
  }

  /** A string includes each of its prefixes; in particular a root field's
      name includes its own name up to the first `(`. */
  lemma PrefixIncluded(p: string, s: string)
    requires IsPrefix(p, s)
    ensures Includes(s, p)
  {
    assert OccursAt(s, p, 0);
  }
}
