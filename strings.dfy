/** The two string operations the client's search uses: `toLowerCase` (on ASCII
    letters) and `includes`, the substring test. */
module Strings {

  function LowerChar(c: char): char
  {
    if 'A' <= c <= 'Z' then (c as int + 32) as char else c
  }

  /** `s.toLowerCase()` restricted to ASCII: every upper-case letter is lowered,
      every other character is kept. */
  function Lower(s: string): (r: string)
    ensures |r| == |s|
    ensures forall i :: 0 <= i < |s| ==> r[i] == LowerChar(s[i])
    ensures forall i :: 0 <= i < |r| ==> !('A' <= r[i] <= 'Z')
  {
    if s == [] then [] else [LowerChar(s[0])] + Lower(s[1..])
  }

  /** Reference definition of a substring: `n` occurs in `h` at index `i`. */
  predicate OccursAt(h: string, n: string, i: int)
  {
    0 <= i && i + |n| <= |h| && h[i..i + |n|] == n
  }

  /** `h.includes(n)`, scanning the start positions of `h` from left to right. */
  function Includes(h: string, n: string): (r: bool)
    ensures r <==> exists i :: OccursAt(h, n, i)
    decreases |h|
  {
    if |n| > |h| then false
    else if h[..|n|] == n then (assert OccursAt(h, n, 0); true)
    else
      var t := Includes(h[1..], n);
      assert t ==> exists i :: OccursAt(h, n, i) by {
        if t {
          var i :| OccursAt(h[1..], n, i);
          assert OccursAt(h, n, i + 1);
        }
      }
      assert (exists i :: OccursAt(h, n, i)) ==> t by {
        if exists i :: OccursAt(h, n, i) {
          var i :| OccursAt(h, n, i);
          assert i != 0;
          assert OccursAt(h[1..], n, i - 1);
        }
      }
      t
  }

  /** The empty string occurs in every string. */
  lemma EmptyIncluded(h: string)
    ensures Includes(h, "")
  {
    assert OccursAt(h, "", 0);
  }
}
