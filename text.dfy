/**
 * Python's `needle in haystack` on `str`: a contiguous-substring test.
 * The drug/title matching of the graph builder is nothing more than this.
 */
module Text {

  /** `needle in haystack`: `needle` starts at some position of `haystack`.
      As in Python, the empty string is contained in every string. */
  function Contains(needle: string, haystack: string): bool
    decreases |haystack|
  {
    needle <= haystack || (|haystack| > 0 && Contains(needle, haystack[1..]))
  }

  /** `needle` occurs in `haystack` starting at index `i`. */
  ghost predicate OccursAt(needle: string, haystack: string, i: int)
  {
    0 <= i && i + |needle| <= |haystack| && haystack[i..i + |needle|] == needle
  }

  /** The scan above agrees with the positional definition of a substring. */
  lemma {:induction false} ContainsIffOccurs(needle: string, haystack: string)
    ensures Contains(needle, haystack) <==> exists i :: OccursAt(needle, haystack, i)
    decreases |haystack|
  {
    if needle <= haystack {
      assert OccursAt(needle, haystack, 0);
    } else if |haystack| > 0 {
      var tail := haystack[1..];
      ContainsIffOccurs(needle, tail);
      if i :| OccursAt(needle, haystack, i) {
        assert i != 0;
        assert tail[i - 1..i - 1 + |needle|] == haystack[i..i + |needle|];
        assert OccursAt(needle, tail, i - 1);
      }
      if i :| OccursAt(needle, tail, i) {
        assert tail[i..i + |needle|] == haystack[i + 1..i + 1 + |needle|];
        assert OccursAt(needle, haystack, i + 1);
      }
    }
  }

  /** Containment is transitive: a string inside a string inside `s` is inside `s`. */
  lemma ContainsTransitive(a: string, b: string, c: string)
    requires Contains(a, b) && Contains(b, c)
    ensures Contains(a, c)
  {
    ContainsIffOccurs(a, b);
    ContainsIffOccurs(b, c);
    ContainsIffOccurs(a, c);
    var i :| OccursAt(a, b, i);
    var j :| OccursAt(b, c, j);
    forall t | 0 <= t < |a|
      ensures c[j + i + t] == a[t]
    {
      assert c[j..j + |b|][i + t] == b[i + t];
      assert b[i..i + |a|][t] == a[t];
    }
    assert OccursAt(a, c, j + i);
  }

  /** A needle holding a character the haystack lacks is not contained in it. */
  lemma MissingCharNotContained(needle: string, haystack: string, c: char)
    requires c in needle && c !in haystack
    ensures !Contains(needle, haystack)
  {
    ContainsIffOccurs(needle, haystack);
  }

  /** What is contained in the end of a string is contained in the string. */
  lemma {:induction false} ContainedInSuffix(needle: string, front: string, back: string)
    requires Contains(needle, back)
    ensures Contains(needle, front + back)
    decreases |front|
  {
    if |front| > 0 {
      ContainedInSuffix(needle, front[1..], back);
      assert (front + back)[1..] == front[1..] + back;
      assert Contains(needle, (front + back)[1..]);
    } else {
      assert front + back == back;
    }
  }
}
