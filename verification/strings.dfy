/** Small facts about strings as `seq<char>`: joining with a separator and
    substring containment. */
module Strings {

  /** Python's `sep.join(xs)`. */
  function Join(xs: seq<string>, sep: string): string
  {
    if |xs| == 0 then ""
    else if |xs| == 1 then xs[0]
    else xs[0] + sep + Join(xs[1..], sep)
  }

  /** `t` occurs in `s` as a contiguous substring (Python's `t in s`). */
  ghost predicate Contains(s: string, t: string)
  {
    exists k :: OccursAt(s, t, k)
  }

  /** `t` occurs in `s` starting at index `k`. */
  predicate OccursAt(s: string, t: string, k: int)
  {
    0 <= k <= |s| - |t| && s[k..k + |t|] == t
  }

  predicate EndsWith(s: string, suffix: string)
  {
    |suffix| <= |s| && s[|s| - |suffix|..] == suffix
  }

  lemma ContainsSelf(s: string)
    ensures Contains(s, s)
  {
    assert OccursAt(s, s, 0);
  }

  /** Containment is transitive: a substring of a substring is a substring. */
  lemma ContainsTransitive(a: string, b: string, c: string)
    requires Contains(a, b) && Contains(b, c)
    ensures Contains(a, c)
  {
    var k1 :| OccursAt(a, b, k1);
    var k2 :| OccursAt(b, c, k2);
    assert b == a[k1..k1 + |b|];
    forall j | 0 <= j < |c|
      ensures a[k1 + k2 + j] == c[j]
    {
      assert c[j] == b[k2 + j];
    }
    assert a[k1 + k2..k1 + k2 + |c|] == c;
    assert OccursAt(a, c, k1 + k2);
  }

  /** Both operands of a concatenation occur in it. */
  lemma ContainsConcat(a: string, b: string)
    ensures Contains(a + b, a) && Contains(a + b, b)
  {
    assert OccursAt(a + b, a, 0);
    assert OccursAt(a + b, b, |a|);
  }

  /** Every element of a joined list occurs in the joined string. */
  lemma {:induction false} JoinContains(xs: seq<string>, sep: string, i: nat)
    requires i < |xs|
    ensures Contains(Join(xs, sep), xs[i])
    decreases |xs|
  {
    if |xs| == 1 {
      ContainsSelf(xs[0]);
    } else if i == 0 {
      ContainsConcat(xs[0], sep + Join(xs[1..], sep));
      assert xs[0] + sep + Join(xs[1..], sep) == xs[0] + (sep + Join(xs[1..], sep));
    } else {
      JoinContains(xs[1..], sep, i - 1);
      ContainsConcat(xs[0] + sep, Join(xs[1..], sep));
      ContainsTransitive(Join(xs, sep), Join(xs[1..], sep), xs[i]);
    }
  }

  /** A join of `n` strings of length at most `b` is at most
      `n * b + (n - 1) * |sep|` long. */
  lemma {:induction false} JoinLength(xs: seq<string>, sep: string, b: nat)
    requires |xs| > 0
    requires forall i :: 0 <= i < |xs| ==> |xs[i]| <= b
    ensures |Join(xs, sep)| <= |xs| * b + (|xs| - 1) * |sep|
    decreases |xs|
  {
    if |xs| > 1 {
      JoinLength(xs[1..], sep, b);
    }
  }
}
