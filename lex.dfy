/**
 * Byte-wise lexicographic order on keys, the order in which the engine's
 * iterators visit keys (Go's bytes.Compare). Keys are Dafny strings; the
 * order of Unicode scalar values agrees with the order of their UTF-8
 * encodings, so comparing characters is comparing bytes.
 * Prefix is Dafny's built-in `p <= s` on sequences (Go's bytes.HasPrefix).
 */
module Lex {

  /** Strict lexicographic order: a proper prefix is smaller; otherwise the first differing character decides. */
  predicate Less(a: string, b: string)
    decreases |a|
  {
    if |a| == 0 then |b| > 0
    else if |b| == 0 then false
    else if a[0] != b[0] then a[0] < b[0]
    else Less(a[1..], b[1..])
  }

  predicate LessEq(a: string, b: string)
  {
    a == b || Less(a, b)
  }

  /** Every pair of keys in `s` is in strictly ascending order, so no key repeats. */
  ghost predicate StrictlySorted(s: seq<string>)
  {
    forall i, j :: 0 <= i < j < |s| ==> Less(s[i], s[j])
  }

  lemma {:induction false} Irreflexive(a: string)
    ensures !Less(a, a)
    decreases |a|
  {
    if |a| > 0 {
      Irreflexive(a[1..]);
    }
  }

  lemma {:induction false} Transitive(a: string, b: string, c: string)
    requires Less(a, b) && Less(b, c)
    ensures Less(a, c)
    decreases |a|
  {
    if |a| > 0 && a[0] == b[0] && b[0] == c[0] {
      Transitive(a[1..], b[1..], c[1..]);
    }
  }

  lemma {:induction false} Total(a: string, b: string)
    ensures a == b || Less(a, b) || Less(b, a)
    decreases |a|
  {
    if |a| > 0 && |b| > 0 && a[0] == b[0] {
      Total(a[1..], b[1..]);
      if a[1..] == b[1..] {
        assert a == [a[0]] + a[1..] && b == [b[0]] + b[1..];
      }
    }
  }

  lemma Asymmetric(a: string, b: string)
    requires Less(a, b)
    ensures !Less(b, a) && a != b
  {
    Irreflexive(a);
    if Less(b, a) {
      Transitive(a, b, a);
    }
  }

  lemma LessEqTransitive(a: string, b: string, c: string)
    requires LessEq(a, b) && LessEq(b, c)
    ensures LessEq(a, c)
  {
    if a != b && b != c {
      Transitive(a, b, c);
    }
  }

  /** A string is never smaller than any of its prefixes. */
  lemma {:induction false} PrefixIsLessEq(p: string, s: string)
    requires p <= s
    ensures LessEq(p, s)
    decreases |p|
  {
    if |p| > 0 {
      PrefixIsLessEq(p[1..], s[1..]);
      if p[1..] == s[1..] {
        assert p == [p[0]] + p[1..] && s == [s[0]] + s[1..];
      }
    }
  }

  /**
   * The keys that start with `p` form one contiguous run: once a key at or
   * after `p` does not start with `p`, no larger key does.
   */
  lemma {:induction false} PrefixRunEnds(p: string, b: string, c: string)
    requires LessEq(p, b) && !(p <= b) && Less(b, c)
    ensures !(p <= c)
    decreases |p|
  {
    assert |p| > 0;
    if b == p {
    } else if b[0] == p[0] && |c| > 0 && c[0] == b[0] {
      assert !(p[1..] <= b[1..]);
      PrefixRunEnds(p[1..], b[1..], c[1..]);
    }
  }

  /** Prepending a common prefix preserves and reflects the order. */
  lemma {:induction false} PrefixedLess(p: string, a: string, b: string)
    ensures Less(p + a, p + b) <==> Less(a, b)
    decreases |p|
  {
    if |p| > 0 {
      assert (p + a)[1..] == p[1..] + a;
      assert (p + b)[1..] == p[1..] + b;
      PrefixedLess(p[1..], a, b);
    } else {
      assert p + a == a && p + b == b;
    }
  }

  /** A key between two bounds that share the prefix `p` also starts with `p`. */
  lemma {:induction false} BetweenHasPrefix(p: string, a: string, b: string, k: string)
    requires LessEq(p + a, k) && LessEq(k, p + b)
    ensures p <= k
    decreases |p|
  {
    if |p| > 0 {
      if k == p + a || k == p + b {
      } else {
        assert (p + a)[1..] == p[1..] + a;
        assert (p + b)[1..] == p[1..] + b;
        assert |k| > 0 && k[0] == p[0];
        BetweenHasPrefix(p[1..], a, b, k[1..]);
      }
    }
  }
}
