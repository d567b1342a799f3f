/**
 * The storage engine as the access layer sees it: a finite map from string
 * keys to entries, read through ordered iterators and written through
 * transactions. A read-write transaction works on a copy of the committed map
 * and the copy replaces the committed map only when the body reports no error
 * and the commit succeeds.
 */
module Engine {
  import opened Wrappers
  import opened Errors
  import opened Lex
  import opened Seqs
  import Json

  /** A stored item: the encoded value and its expiry time (0: never expires). */
  datatype Entry = Entry(doc: Json.Doc, expiresAt: nat)

  type Store = map<string, Entry>

  /**
   * badger.NewEntry, with WithTTL applied when ttl > 0. `now` is the
   * caller's clock reading; all times are naturals in one unit.
   */
  function NewEntry(doc: Json.Doc, ttl: int, now: nat): (e: Entry)
    ensures e.doc == doc
    ensures e.expiresAt != 0 <==> ttl > 0
    ensures ttl > 0 ==> e.expiresAt == now + ttl
  {
    Entry(doc, if ttl > 0 then now + ttl else 0)
  }

  /**
   * The engine's own write and commit failures (a transaction grown too
   * large, a conflict at commit, an I/O fault). The access layer only passes
   * them on, so they enter the model as a parameter: writes of the keys in
   * `refused` fail, and the commit fails when `commitFails` holds.
   */
  datatype Faults = Faults(refused: set<string>, commitFails: bool)

  /** txn.Get */
  function Lookup(s: Store, k: string): Result<Entry, Error>
  {
    if k in s then Ok(s[k]) else Err(KeyNotFound)
  }

  /** txn.Set / txn.SetEntry on the transaction's copy. */
  function Put(txn: Store, k: string, e: Entry, faults: Faults): Result<Store, Error>
  {
    if k in faults.refused then Err(WriteRefused(k)) else Ok(txn[k := e])
  }

  /** txn.Delete on the transaction's copy; deleting an absent key is not an error. */
  function Remove(txn: Store, k: string, faults: Faults): Result<Store, Error>
  {
    if k in faults.refused then Err(WriteRefused(k)) else Ok(txn - {k})
  }

  /** The error of a transaction whose body writes the one key `k` and then commits. */
  function WriteOutcome(k: string, faults: Faults): Option<Error>
  {
    if k in faults.refused then Some(WriteRefused(k))
    else if faults.commitFails then Some(CommitFailed)
    else None
  }

  // ---- Key order of iteration ----

  lemma {:induction false} LeastExists(s: set<string>)
    requires s != {}
    ensures exists k :: k in s && forall j :: j in s ==> LessEq(k, j)
    decreases |s|
  {
    var x :| x in s;
    if s != {x} {
      var rest := s - {x};
      LeastExists(rest);
      var m :| m in rest && forall j :: j in rest ==> LessEq(m, j);
      assert s == rest + {x};
      LeastOfAdded(rest, m, x);
    } else {
      Irreflexive(x);
      assert forall j :: j in s ==> j == x;
    }
  }

  /** Adding one key to a set whose least key is m: the least key is m or the new key. */
  lemma LeastOfAdded(rest: set<string>, m: string, x: string)
    requires m in rest && forall j :: j in rest ==> LessEq(m, j)
    ensures exists k :: k in rest + {x} && forall j :: j in rest + {x} ==> LessEq(k, j)
  {
    Total(m, x);
    if Less(x, m) {
      forall j | j in rest + {x} ensures LessEq(x, j) {
        if j != x { LessEqTransitive(x, m, j); }
      }
      assert x in rest + {x};
    } else {
      assert m in rest + {x} && forall j :: j in rest + {x} ==> LessEq(m, j);
    }
  }

  lemma LeastUnique(s: set<string>, a: string, b: string)
    requires a in s && forall j :: j in s ==> LessEq(a, j)
    requires b in s && forall j :: j in s ==> LessEq(b, j)
    ensures a == b
  {
    if a != b {
      assert Less(a, b) && Less(b, a);
      Asymmetric(a, b);
    }
  }

  /** The smallest key of a non-empty set. */
  ghost function Least(s: set<string>): (m: string)
    requires s != {}
    ensures m in s && forall j :: j in s ==> LessEq(m, j)
  {
    LeastExists(s);
    var k :| k in s && forall j :: j in s ==> LessEq(k, j);
    k
  }

  /** The keys of `s` in the order an iterator visits them: the least key first, each once. */
  ghost function SortedKeys(s: set<string>): (r: seq<string>)
    ensures forall k :: k in r <==> k in s
    ensures |r| == |s|
    decreases |s|
  {
    if s == {} then []
    else
      var m := Least(s);
      [m] + SortedKeys(s - {m})
  }

  /** The listing is strictly ascending. */
  lemma {:induction false} SortedKeysSorted(s: set<string>)
    ensures StrictlySorted(SortedKeys(s))
    decreases |s|
  {
    if s != {} {
      var m := Least(s);
      var rest := SortedKeys(s - {m});
      SortedKeysSorted(s - {m});
      var r := SortedKeys(s);
      assert r == [m] + rest;
      forall i, j | 0 <= i < j < |r| ensures Less(r[i], r[j]) {
        if i == 0 {
          assert r[j] == rest[j - 1];
          assert rest[j - 1] in rest;
        } else {
          assert r[i] == rest[i - 1] && r[j] == rest[j - 1];
        }
      }
    }
  }

  /** An ascending listing of a set is unique: it is SortedKeys. */
  lemma {:induction false} SortedKeysUnique(s: set<string>, r: seq<string>)
    requires StrictlySorted(r)
    requires forall k :: k in r <==> k in s
    ensures r == SortedKeys(s)
    decreases |s|
  {
    if s != {} {
      ListingHead(s, r);
      ListingTail(s, r);
      var m, tail := r[0], r[1..];
      SortedKeysUnique(s - {m}, tail);
      assert SortedKeys(s) == [m] + SortedKeys(s - {m});
      assert r == [m] + tail;
    }
  }

  /** The first key of an ascending listing of a non-empty set is its least key. */
  lemma ListingHead(s: set<string>, r: seq<string>)
    requires StrictlySorted(r)
    requires forall k :: k in r <==> k in s
    requires s != {}
    ensures r != [] && r[0] == Least(s)
  {
    assert r != [] by { var x :| x in s; assert x in r; }
    forall j | j in s ensures LessEq(r[0], j) {
      var i :| 0 <= i < |r| && r[i] == j;
      if i > 0 { assert Less(r[0], r[i]); }
    }
    LeastUnique(s, r[0], Least(s));
  }

  /** The rest of an ascending listing is an ascending listing of the rest of the set. */
  lemma ListingTail(s: set<string>, r: seq<string>)
    requires StrictlySorted(r) && r != []
    requires forall k :: k in r <==> k in s
    ensures StrictlySorted(r[1..])
    ensures forall k :: k in r[1..] <==> k in s - {r[0]}
  {
    var tail := r[1..];
    assert forall i, j :: 0 <= i < j < |tail| ==> tail[i] == r[i + 1] && tail[j] == r[j + 1];
    forall k ensures k in tail <==> k in s - {r[0]} {
      if k in tail {
        var i :| 0 <= i < |tail| && tail[i] == k;
        assert Less(r[0], r[i + 1]);
        Irreflexive(r[0]);
      }
      if k in s - {r[0]} {
        var i :| 0 <= i < |r| && r[i] == k;
        assert tail[i - 1] == k;
      }
    }
  }

  /** The engine's ordering of a key set, computed by repeatedly taking the least remaining key. */
  method SortKeys(s: set<string>) returns (r: seq<string>)
    ensures r == SortedKeys(s)
  {
    r := [];
    var rest := s;
    while rest != {}
      invariant r + SortedKeys(rest) == SortedKeys(s)
      decreases |rest|
    {
      LeastExists(rest);
      var k :| k in rest && forall j :: j in rest ==> LessEq(k, j);
      LeastUnique(rest, k, Least(rest));
      ghost var tail := SortedKeys(rest - {k});
      assert SortedKeys(rest) == [k] + tail;
      Associative(r, [k], tail);
      r := r + [k];
      rest := rest - {k};
    }
  }

  lemma Associative(a: seq<string>, b: seq<string>, c: seq<string>)
    ensures a + (b + c) == (a + b) + c
  {
  }

  /** The order of a full scan, the one every iterator follows. */
  ghost function Scan(s: Store): seq<string>
  {
    SortedKeys(s.Keys)
  }

  function StartsWith(p: string): string -> bool
  {
    k => p <= k
  }

  function Between(lo: string, hi: string): string -> bool
  {
    k => LessEq(lo, k) && LessEq(k, hi)
  }

  function AtLeast(lo: string): string -> bool
  {
    k => LessEq(lo, k)
  }

  /** The keys of `s` that start with `p`, ascending. */
  ghost function PrefixScan(s: Store, p: string): (r: seq<string>)
    ensures forall k :: k in r <==> k in s && p <= k
  {
    Filter(Scan(s), StartsWith(p))
  }

  /** The keys k of `s` with lo <= k <= hi, ascending. */
  ghost function RangeScan(s: Store, lo: string, hi: string): (r: seq<string>)
    ensures forall k :: k in r <==> k in s && LessEq(lo, k) && LessEq(k, hi)
  {
    Filter(Scan(s), Between(lo, hi))
  }

  /** The keys of `s` at or after `lo`, ascending: a scan seeked to `lo` and run to the end. */
  ghost function ScanFrom(s: Store, lo: string): (r: seq<string>)
    ensures forall k :: k in r <==> k in s && LessEq(lo, k)
  {
    Filter(Scan(s), AtLeast(lo))
  }

  /** A prefix scan depends only on the keys that carry the prefix. */
  lemma PrefixScanSameKeys(s: Store, t: Store, p: string)
    requires forall k :: p <= k ==> (k in s <==> k in t)
    ensures PrefixScan(s, p) == PrefixScan(t, p)
  {
    var x := set k | k in s && p <= k;
    ScansSorted(s, p, p, p);
    ScansSorted(t, p, p, p);
    SortedKeysUnique(x, PrefixScan(s, p));
    SortedKeysUnique(x, PrefixScan(t, p));
  }

  /** Every scan is ascending. */
  lemma ScansSorted(s: Store, p: string, lo: string, hi: string)
    ensures StrictlySorted(Scan(s))
    ensures StrictlySorted(PrefixScan(s, p))
    ensures StrictlySorted(RangeScan(s, lo, hi))
    ensures StrictlySorted(ScanFrom(s, lo))
  {
    SortedKeysSorted(s.Keys);
    FilterSorted(Scan(s), StartsWith(p));
    FilterSorted(Scan(s), Between(lo, hi));
    FilterSorted(Scan(s), AtLeast(lo));
  }

  // ---- Where a seeked iterator stops ----

  /** Keys below `p` do not start with `p`. */
  lemma BelowPrefix(before: seq<string>, p: string)
    requires forall i :: 0 <= i < |before| ==> Less(before[i], p)
    ensures Filter(before, StartsWith(p)) == []
  {
    forall i | 0 <= i < |before| ensures !StartsWith(p)(before[i]) {
      if p <= before[i] {
        PrefixIsLessEq(p, before[i]);
        Asymmetric(before[i], p);
      }
    }
    FilterNone(before, StartsWith(p));
  }

  /** After the first key at or above `p` that does not start with `p`, no key starts with `p`. */
  lemma PastPrefix(after: seq<string>, p: string)
    requires StrictlySorted(after)
    requires after != [] ==> LessEq(p, after[0]) && !(p <= after[0])
    ensures Filter(after, StartsWith(p)) == []
  {
    forall i | 0 <= i < |after| ensures !StartsWith(p)(after[i]) {
      if i > 0 { PrefixRunEnds(p, after[0], after[i]); }
    }
    FilterNone(after, StartsWith(p));
  }

  lemma SortedSlice(keys: seq<string>, a: nat, b: nat)
    requires StrictlySorted(keys) && a <= b <= |keys|
    ensures StrictlySorted(keys[a..b])
  {
    forall i, j | 0 <= i < j < b - a ensures Less(keys[a..b][i], keys[a..b][j]) {
      assert keys[a..b][i] == keys[a + i] && keys[a..b][j] == keys[a + j];
    }
  }

  /**
   * An iterator seeked to `p` and advanced while its key starts with `p`
   * has visited exactly the keys that start with `p`.
   */
  lemma PrefixBlock(keys: seq<string>, p: string, start: nat, stop: nat)
    requires StrictlySorted(keys) && start <= stop <= |keys|
    requires forall i :: 0 <= i < start ==> Less(keys[i], p)
    requires start < |keys| ==> LessEq(p, keys[start])
    requires forall i :: start <= i < stop ==> p <= keys[i]
    requires stop < |keys| ==> !(p <= keys[stop])
    ensures Filter(keys, StartsWith(p)) == keys[start..stop]
  {
    var f := StartsWith(p);
    var before, run, after := keys[..start], keys[start..stop], keys[stop..];
    BelowPrefix(before, p);
    assert forall i :: 0 <= i < |run| ==> f(run[i]) by {
      forall i | 0 <= i < |run| ensures f(run[i]) { assert run[i] == keys[start + i]; }
    }
    FilterAll(run, f);
    SortedSlice(keys, stop, |keys|);
    if stop < |keys| {
      assert LessEq(p, keys[stop]) by {
        if stop > start { LessEqTransitive(p, keys[start], keys[stop]); }
      }
    }
    PastPrefix(after, p);
    FilterSplit(keys, start, stop, f);
  }

  /** Keys below `lo` are outside every interval that starts at `lo`. */
  lemma BelowBound(before: seq<string>, lo: string, keep: string -> bool)
    requires forall i :: 0 <= i < |before| ==> Less(before[i], lo)
    requires forall k :: keep(k) ==> LessEq(lo, k)
    ensures Filter(before, keep) == []
  {
    forall i | 0 <= i < |before| ensures !keep(before[i]) {
      Asymmetric(before[i], lo);
    }
    FilterNone(before, keep);
  }

  /** In an ascending run that starts at or above `lo`, every key is at or above `lo`. */
  lemma AboveBound(run: seq<string>, lo: string)
    requires StrictlySorted(run)
    requires run != [] ==> LessEq(lo, run[0])
    ensures forall i :: 0 <= i < |run| ==> LessEq(lo, run[i])
  {
    forall i | 0 < i < |run| ensures LessEq(lo, run[i]) {
      LessEqTransitive(lo, run[0], run[i]);
    }
  }

  /** After the first key above `hi`, no key is at most `hi`. */
  lemma PastBound(after: seq<string>, lo: string, hi: string)
    requires StrictlySorted(after)
    requires after != [] ==> Less(hi, after[0])
    ensures Filter(after, Between(lo, hi)) == []
  {
    forall i | 0 <= i < |after| ensures !Between(lo, hi)(after[i]) {
      if i > 0 { Transitive(hi, after[0], after[i]); }
      Asymmetric(hi, after[i]);
    }
    FilterNone(after, Between(lo, hi));
  }

  /**
   * An iterator seeked to `lo` and advanced while its key is at most `hi`
   * has visited exactly the keys between the two bounds.
   */
  lemma RangeBlock(keys: seq<string>, lo: string, hi: string, start: nat, stop: nat)
    requires StrictlySorted(keys) && start <= stop <= |keys|
    requires forall i :: 0 <= i < start ==> Less(keys[i], lo)
    requires start < |keys| ==> LessEq(lo, keys[start])
    requires forall i :: start <= i < stop ==> LessEq(keys[i], hi)
    requires stop < |keys| ==> Less(hi, keys[stop])
    ensures Filter(keys, Between(lo, hi)) == keys[start..stop]
  {
    var f := Between(lo, hi);
    var before, run, after := keys[..start], keys[start..stop], keys[stop..];
    BelowBound(before, lo, f);
    SortedSlice(keys, start, stop);
    AboveBound(run, lo);
    assert forall i :: 0 <= i < |run| ==> f(run[i]) by {
      forall i | 0 <= i < |run| ensures f(run[i]) { assert run[i] == keys[start + i]; }
    }
    FilterAll(run, f);
    SortedSlice(keys, stop, |keys|);
    PastBound(after, lo, hi);
    FilterSplit(keys, start, stop, f);
  }

  /** An iterator seeked to `lo` and run to the end visits exactly the keys at or after `lo`. */
  lemma FromBlock(keys: seq<string>, lo: string, start: nat)
    requires StrictlySorted(keys) && start <= |keys|
    requires forall i :: 0 <= i < start ==> Less(keys[i], lo)
    requires start < |keys| ==> LessEq(lo, keys[start])
    ensures Filter(keys, AtLeast(lo)) == keys[start..]
  {
    var f := AtLeast(lo);
    var before, run := keys[..start], keys[start..];
    BelowBound(before, lo, f);
    SortedSlice(keys, start, |keys|);
    AboveBound(run, lo);
    FilterAll(run, f);
    FilterNone(keys[|keys|..], f);
    assert keys[start..|keys|] == run;
    FilterSplit(keys, start, |keys|, f);
  }

  /** A run of keys with prefix `p` that has been seen so far ends somewhere at or after `n`. */
  lemma {:induction false} PrefixRunStop(keys: seq<string>, p: string, start: nat, n: nat) returns (stop: nat)
    requires start <= n <= |keys|
    requires forall i :: start <= i < n ==> p <= keys[i]
    ensures n <= stop <= |keys|
    ensures forall i :: start <= i < stop ==> p <= keys[i]
    ensures stop < |keys| ==> !(p <= keys[stop])
    decreases |keys| - n
  {
    if n < |keys| && p <= keys[n] {
      stop := PrefixRunStop(keys, p, start, n + 1);
    } else {
      stop := n;
    }
  }

  /** The keys a prefix-bounded loop has visited so far are the beginning of the prefix scan. */
  lemma PrefixSeen(keys: seq<string>, p: string, start: nat, n: nat)
    requires StrictlySorted(keys) && start <= n <= |keys|
    requires forall i :: 0 <= i < start ==> Less(keys[i], p)
    requires start < |keys| ==> LessEq(p, keys[start])
    requires forall i :: start <= i < n ==> p <= keys[i]
    ensures keys[start..n] <= Filter(keys, StartsWith(p))
  {
    var stop := PrefixRunStop(keys, p, start, n);
    PrefixBlock(keys, p, start, stop);
    assert keys[start..n] == keys[start..stop][..n - start];
  }

  /** A seeked prefix loop runs over exactly the prefix scan, which ends at `stop`. */
  lemma PrefixRun(s: Store, keys: seq<string>, p: string, first: nat) returns (stop: nat)
    requires keys == Scan(s) && first <= |keys|
    requires forall i :: 0 <= i < first ==> Less(keys[i], p)
    requires first < |keys| ==> LessEq(p, keys[first])
    ensures first <= stop <= |keys| && PrefixScan(s, p) == keys[first..stop]
    ensures forall i :: first <= i < stop ==> p <= keys[i]
    ensures stop < |keys| ==> !(p <= keys[stop])
  {
    SortedKeysSorted(s.Keys);
    stop := PrefixRunStop(keys, p, first, first);
    PrefixBlock(keys, p, first, stop);
  }

  /** Inside the run the prefix test holds exactly before `stop`. */
  lemma InRun(s: Store, keys: seq<string>, p: string, first: nat, stop: nat, n: nat)
    requires first <= n <= stop <= |keys| && (stop < |keys| ==> !(p <= keys[stop]))
    requires n < |keys| && p <= keys[n]
    ensures n < stop
  {
  }

  lemma PastRun(s: Store, keys: seq<string>, p: string, first: nat, stop: nat, n: nat)
    requires first <= n <= stop <= |keys| && (forall i :: first <= i < stop ==> p <= keys[i])
    requires !(n < |keys| && p <= keys[n])
    ensures n == stop
  {
  }

  /**
   * A loop seeked to prefix `p`, which stopped at `start`, after visiting
   * keys[start..n], every one of which carries the prefix.
   */
  ghost predicate SeekLoop(s: Store, keys: seq<string>, p: string, start: nat, n: nat)
  {
    keys == Scan(s) && start <= n <= |keys|
    && (forall i :: 0 <= i < start ==> Less(keys[i], p))
    && (start < |keys| ==> LessEq(p, keys[start]))
    && (forall i :: start <= i < n ==> p <= keys[i])
  }

  lemma SeekLoopStep(s: Store, keys: seq<string>, p: string, start: nat, n: nat)
    requires SeekLoop(s, keys, p, start, n) && n < |keys| && p <= keys[n]
    ensures SeekLoop(s, keys, p, start, n + 1)
  {
  }

  /** Where a prefix-bounded loop stops, it has visited exactly the prefix scan. */
  lemma SeekLoopEnds(s: Store, keys: seq<string>, p: string, start: nat, n: nat)
    requires SeekLoop(s, keys, p, start, n) && !(n < |keys| && p <= keys[n])
    ensures PrefixScan(s, p) == keys[start..n]
  {
    SortedKeysSorted(s.Keys);
    PrefixBlock(keys, p, start, n);
  }

  /** The error of a transaction whose body failed with `body`, or else of its commit. */
  function Outcome(body: Option<Error>, faults: Faults): (r: Option<Error>)
    ensures r == None <==> body == None && !faults.commitFails
    ensures body.Some? ==> r == body
  {
    if body.Some? then body else if faults.commitFails then Some(CommitFailed) else None
  }

  // ---- The engine objects ----

  /** badger.DB: the committed map. */
  class DB {
    var data: Store

    constructor (initial: Store)
      ensures data == initial
    {
      data := initial;
    }

    /** The end of db.Update: the transaction's copy becomes the committed map unless the commit fails. */
    method Commit(txn: Store, faults: Faults) returns (err: Option<Error>)
      modifies this
      ensures err == (if faults.commitFails then Some(CommitFailed) else None)
      ensures data == (if err == None then txn else old(data))
    {
      if faults.commitFails {
        err := Some(CommitFailed);
      } else {
        data := txn;
        err := None;
      }
    }
  }

  /** badger.Iterator over a snapshot of the map, visiting its keys in ascending order. */
  class Iterator {
    const snapshot: Store
    const keys: seq<string>
    var pos: nat

    ghost predicate Inv()
      reads this
    {
      keys == Scan(snapshot) && pos <= |keys|
    }

    constructor (snapshot: Store)
      ensures this.snapshot == snapshot && Inv() && pos == 0
    {
      var ordered := SortKeys(snapshot.Keys);
      this.snapshot := snapshot;
      keys := ordered;
      pos := 0;
    }

    /** Positions the iterator at the first key. */
    method Rewind()
      modifies this`pos
      ensures pos == 0
    {
      pos := 0;
    }

    /** Positions the iterator at the first key that is at least `k`. */
    method Seek(k: string)
      requires Inv()
      modifies this`pos
      ensures Inv()
      ensures forall i :: 0 <= i < pos ==> Less(keys[i], k)
      ensures pos < |keys| ==> LessEq(k, keys[pos])
    {
      pos := 0;
      while pos < |keys| && Less(keys[pos], k)
        invariant pos <= |keys|
        invariant forall i :: 0 <= i < pos ==> Less(keys[i], k)
      {
        pos := pos + 1;
      }
      if pos < |keys| {
        Total(k, keys[pos]);
      }
    }

    function Valid(): bool
      reads this
    {
      pos < |keys|
    }

    function ValidForPrefix(p: string): bool
      reads this
    {
      pos < |keys| && p <= keys[pos]
    }

    function Key(): string
      reads this
      requires Valid()
    {
      keys[pos]
    }

    function Item(): Entry
      reads this
      requires Inv() && Valid()
    {
      snapshot[keys[pos]]
    }

    method Next()
      requires Inv() && Valid()
      modifies this`pos
      ensures Inv() && pos == old(pos) + 1
    {
      pos := pos + 1;
    }
  }
}
