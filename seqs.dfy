/** Sequence helpers shared by the scans: filtering, and the skip/take window of a page. */
module Seqs {
  import opened Wrappers
  import opened Lex

  /** The keys of `s` that satisfy `keep`, in their original order. */
  function Filter(s: seq<string>, keep: string -> bool): (r: seq<string>)
    ensures forall x :: x in r <==> x in s && keep(x)
    ensures |r| <= |s|
    decreases |s|
  {
    if s == [] then []
    else Filter(s[..|s| - 1], keep) + (if keep(s[|s| - 1]) then [s[|s| - 1]] else [])
  }

  lemma FilterSnoc(s: seq<string>, x: string, keep: string -> bool)
    ensures Filter(s + [x], keep) == Filter(s, keep) + (if keep(x) then [x] else [])
  {
    assert (s + [x])[..|s + [x]| - 1] == s;
  }

  lemma {:induction false} FilterConcat(a: seq<string>, b: seq<string>, keep: string -> bool)
    ensures Filter(a + b, keep) == Filter(a, keep) + Filter(b, keep)
    decreases |b|
  {
    if b == [] {
      assert a + b == a;
    } else {
      var init, last := b[..|b| - 1], b[|b| - 1];
      var x := if keep(last) then [last] else [];
      assert b == init + [last];
      assert a + b == (a + init) + [last];
      calc {
        Filter(a + b, keep);
        == { FilterSnoc(a + init, last, keep); }
        Filter(a + init, keep) + x;
        == { FilterConcat(a, init, keep); }
        (Filter(a, keep) + Filter(init, keep)) + x;
        == { assert (Filter(a, keep) + Filter(init, keep)) + x == Filter(a, keep) + (Filter(init, keep) + x); }
        Filter(a, keep) + (Filter(init, keep) + x);
        == { FilterSnoc(init, last, keep); }
        Filter(a, keep) + Filter(b, keep);
      }
    }
  }

  /** A sequence whose filter keeps exactly its middle part. */
  lemma FilterSplit(s: seq<string>, a: nat, b: nat, keep: string -> bool)
    requires a <= b <= |s|
    requires Filter(s[..a], keep) == [] && Filter(s[a..b], keep) == s[a..b] && Filter(s[b..], keep) == []
    ensures Filter(s, keep) == s[a..b]
  {
    var x, y, z := s[..a], s[a..b], s[b..];
    SplitThree(s, a, b);
    FilterConcat(x + y, z, keep);
    FilterConcat(x, y, keep);
    assert [] + y + [] == y;
  }

  lemma SplitThree<T>(s: seq<T>, a: nat, b: nat)
    requires a <= b <= |s|
    ensures s == (s[..a] + s[a..b]) + s[b..]
  {
  }

  /** Filtering keeps everything when every element qualifies, and nothing when none does. */
  lemma {:induction false} FilterAll(s: seq<string>, keep: string -> bool)
    requires forall i :: 0 <= i < |s| ==> keep(s[i])
    ensures Filter(s, keep) == s
    decreases |s|
  {
    if s != [] {
      var init := s[..|s| - 1];
      assert forall i :: 0 <= i < |init| ==> keep(init[i]) by {
        forall i | 0 <= i < |init| ensures keep(init[i]) { assert init[i] == s[i]; }
      }
      FilterAll(init, keep);
      assert s == init + [s[|s| - 1]];
    }
  }

  lemma {:induction false} FilterNone(s: seq<string>, keep: string -> bool)
    requires forall i :: 0 <= i < |s| ==> !keep(s[i])
    ensures Filter(s, keep) == []
    decreases |s|
  {
    if s != [] {
      var init := s[..|s| - 1];
      assert forall i :: 0 <= i < |init| ==> !keep(init[i]) by {
        forall i | 0 <= i < |init| ensures !keep(init[i]) { assert init[i] == s[i]; }
      }
      FilterNone(init, keep);
    }
  }

  /** A filtered ascending key sequence is still ascending. */
  lemma {:induction false} FilterSorted(s: seq<string>, keep: string -> bool)
    requires StrictlySorted(s)
    ensures StrictlySorted(Filter(s, keep))
    decreases |s|
  {
    if s != [] {
      var init, last := s[..|s| - 1], s[|s| - 1];
      FilterSorted(init, keep);
      var f := Filter(init, keep);
      forall x | x in f ensures Less(x, last) {
        var i :| 0 <= i < |init| && init[i] == x;
      }
    }
  }

  /** A slice grown by its next element. */
  lemma SliceSnoc(keys: seq<string>, a: nat, b: nat)
    requires a <= b < |keys|
    ensures keys[a..b + 1] == keys[a..b] + [keys[b]]
  {
  }

  /** A position clamped to 0 .. n. */
  function Clamp(x: int, n: nat): (r: nat)
    ensures r <= n
    ensures 0 <= x <= n ==> r == x
  {
    if x < 0 then 0 else if x > n then n else x
  }

  /**
   * The elements of `s` at the 0-based positions c with lo <= c < hi: the page
   * of a counting loop that keeps the element at count c exactly when
   * lo <= c < hi. Positions outside `s` contribute nothing.
   */
  function Window<T>(s: seq<T>, lo: int, hi: int): seq<T>
  {
    var a, b := Clamp(lo, |s|), Clamp(hi, |s|);
    if b <= a then [] else s[a..b]
  }

  /** A page holds at most hi - lo elements, none when hi <= lo. */
  lemma WindowLength<T>(s: seq<T>, lo: int, hi: int)
    ensures |Window(s, lo, hi)| <= if lo < hi then hi - lo else 0
  {
  }

  /** For a non-negative lo, the page's j-th element is the element at position lo + j. */
  lemma WindowAt<T>(s: seq<T>, lo: int, hi: int, j: nat)
    requires 0 <= lo && j < |Window(s, lo, hi)|
    ensures lo + j < |s| && lo + j < hi && Window(s, lo, hi)[j] == s[lo + j]
  {
  }

  /** Extending the counted sequence by one element adds it to the page exactly when its count is inside the window. */
  lemma WindowSnoc<T>(s: seq<T>, n: nat, lo: int, hi: int)
    requires n < |s|
    ensures Window(s[..n + 1], lo, hi) ==
            Window(s[..n], lo, hi) + (if lo <= n < hi then [s[n]] else [])
  {
    var t := s[..n + 1];
    assert s[..n] == t[..n];
    if lo <= n < hi {
      var a := Clamp(lo, n);
      assert t[a..n + 1] == t[a..n] + [s[n]];
    }
  }

  /** The page of a counted prefix is a prefix of the page of the whole sequence. */
  lemma WindowOfPrefix<T>(s: seq<T>, n: nat, lo: int, hi: int)
    requires n <= |s|
    ensures Window(s[..n], lo, hi) <= Window(s, lo, hi)
  {
    var a, b := Clamp(lo, |s|), Clamp(hi, |s|);
    var a', b' := Clamp(lo, n), Clamp(hi, n);
    if a' < b' {
      assert a' == a;
      assert b' <= b;
      assert s[..n][a'..b'] == s[a..b'];
      assert s[a..b][..b' - a] == s[a..b'];
    }
  }

  /** Every element of a page is an element of the counted sequence. */
  lemma WindowWithin<T>(s: seq<T>, lo: int, hi: int)
    ensures forall x :: x in Window(s, lo, hi) ==> x in s
  {
  }

  // ---- First failure of a loop that stops at the first error ----

  /**
   * The first `Some` that `check` gives along `ks`: the error of a loop that
   * runs `check` on each element in turn and returns at the first failure.
   */
  function FirstSome<E>(ks: seq<string>, check: string -> Option<E>): (r: Option<E>)
    ensures r.None? <==> forall i :: 0 <= i < |ks| ==> check(ks[i]).None?
    ensures r.Some? ==> exists i :: 0 <= i < |ks| && check(ks[i]) == r
    decreases |ks|
  {
    if ks == [] then None
    else
      var init := ks[..|ks| - 1];
      assert forall i :: 0 <= i < |init| ==> init[i] == ks[i];
      var first := FirstSome(init, check);
      if first.Some? then first else check(ks[|ks| - 1])
  }

  /** Once a prefix of the loop has failed, the rest of `ks` does not matter. */
  lemma {:induction false} FirstSomePrefix<E>(ks: seq<string>, n: nat, check: string -> Option<E>)
    requires n <= |ks| && FirstSome(ks[..n], check).Some?
    ensures FirstSome(ks, check) == FirstSome(ks[..n], check)
    decreases |ks| - n
  {
    if n < |ks| {
      FirstSomePrefix(ks, n + 1, check);
      assert ks[..n + 1][..n] == ks[..n];
    } else {
      assert ks[..n] == ks;
    }
  }

  /** One more step of a loop that has not failed yet. */
  lemma FirstSomeStep<E>(ks: seq<string>, n: nat, check: string -> Option<E>)
    requires n < |ks| && FirstSome(ks[..n], check).None?
    ensures FirstSome(ks[..n + 1], check) == check(ks[n])
  {
    assert ks[..n + 1][..n] == ks[..n];
  }
}
