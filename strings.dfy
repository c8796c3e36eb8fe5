// The JavaScript string operations the navigation script applies to the
// location path: `includes`, `endsWith`, `split('/').length` and
// `split('/').pop()`, stated over `seq<char>`.
module Strings {

  /** `s.endsWith(suffix)`: `suffix` is a suffix of `s`. */
  predicate EndsWith(s: string, suffix: string) {
    |suffix| <= |s| && s[|s| - |suffix|..] == suffix
  }

  /** `sub` occurs in `s` starting at index `i`. */
  predicate OccursAt(s: string, sub: string, i: nat) {
    i + |sub| <= |s| && s[i..i + |sub|] == sub
  }

  /** `s.includes(sub)`: `sub` is a contiguous piece of `s`. */
  predicate Contains(s: string, sub: string) {
    exists i: nat | i <= |s| :: OccursAt(s, sub, i)
  }

  /** Number of occurrences of the character `c` in `s`. */
  function Count(s: string, c: char): (n: nat)
    ensures n == 0 <==> c !in s
    ensures n <= |s|
  {
    if |s| == 0 then 0 else (if s[0] == c then 1 else 0) + Count(s[1..], c)
  }

  /** `s.split('/').length`: splitting on a character yields one more part
      than there are occurrences of that character (also for the empty string,
      which splits into one empty part). */
  function SplitLength(s: string): nat {
    Count(s, '/') + 1
  }

  /** `s.split('/').pop()`: the part of `s` after its last `'/'`, or all of `s`
      when it has none. */
  function LastSegment(s: string): (r: string)
    ensures '/' !in r
    ensures EndsWith(s, r)
    ensures |r| < |s| ==> s[|s| - |r| - 1] == '/'
    decreases |s|
  {
    if |s| == 0 then ""
    else if s[|s| - 1] == '/' then ""
    else
      var init := s[..|s| - 1];
      var t := LastSegment(init);
      assert s[|s| - |t| - 1..] == init[|init| - |t|..] + [s[|s| - 1]];
      assert |t| < |init| ==> s[|s| - |t| - 2] == init[|init| - |t| - 1];
      t + [s[|s| - 1]]
  }

  /** The last segment of a directory, a `'/'` and a name without `'/'` is the name. */
  lemma {:induction false} LastSegmentOfName(dir: string, name: string)
    requires '/' !in name
    ensures LastSegment(dir + "/" + name) == name
    decreases |name|
  {
    var s := dir + "/" + name;
    if |name| == 0 {
      assert s[|s| - 1] == '/';
    } else {
      var init := name[..|name| - 1];
      assert s[..|s| - 1] == dir + "/" + init;
      LastSegmentOfName(dir, init);
      assert name == init + [name[|name| - 1]];
    }
  }

  lemma {:induction false} CountConcat(a: string, b: string, c: char)
    ensures Count(a + b, c) == Count(a, c) + Count(b, c)
    decreases |a|
  {
    if |a| == 0 {
      assert a + b == b;
    } else {
      assert (a + b)[1..] == a[1..] + b;
      CountConcat(a[1..], b, c);
    }
  }

  /** A string containing `sub` has at least as many of each character as `sub`. */
  lemma CountOfOccurrence(s: string, sub: string, i: nat, c: char)
    requires OccursAt(s, sub, i)
    ensures Count(s, c) >= Count(sub, c)
  {
    assert s == s[..i] + sub + s[i + |sub|..];
    CountConcat(s[..i] + sub, s[i + |sub|..], c);
    CountConcat(s[..i], sub, c);
  }

  /** A suffix without `'/'` is also a suffix of the last segment. */
  lemma SuffixOfLastSegment(s: string, p: string)
    requires EndsWith(s, p)
    requires '/' !in p
    ensures EndsWith(LastSegment(s), p)
  {
  }

  /** Every string ends with itself. */
  lemma EndsWithSelf(s: string)
    ensures EndsWith(s, s)
  {
    assert s[0..] == s;
  }

  /** A string ends with what was appended to it. */
  lemma EndsWithAppended(a: string, b: string)
    ensures EndsWith(a + b, b)
  {
    assert (a + b)[|a|..] == b;
  }

  lemma SuffixTransitive(a: string, b: string, c: string)
    requires EndsWith(a, b) && EndsWith(b, c)
    ensures EndsWith(a, c)
  {
    assert a[|a| - |c|..] == a[|a| - |b|..][|b| - |c|..];
  }

  lemma SuffixAntisymmetric(a: string, b: string)
    requires EndsWith(a, b) && EndsWith(b, a)
    ensures a == b
  {
    assert a == a[|a| - |b|..];
  }

  /** `sub` is absent from `s` when its first three characters never appear
      there in a row. */
  lemma AbsentByPrefix(s: string, sub: string)
    requires |sub| >= 3
    requires forall i :: 0 <= i <= |s| - |sub| ==> s[i] != sub[0] || s[i + 1] != sub[1] || s[i + 2] != sub[2]
    ensures !Contains(s, sub)
  {
    forall i: nat | i <= |s| ensures !OccursAt(s, sub, i) {
      if i + |sub| <= |s| {
        var w := s[i..i + |sub|];
        assert w[0] == s[i] && w[1] == s[i + 1] && w[2] == s[i + 2];
      }
    }
  }
}
