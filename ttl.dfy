/**
 * The TTL management of ttl_management.go: a sweep that deletes the expired
 * entries in one transaction, and a read-only scan for the entries close to
 * expiring. The clock is the parameter `now`, in the same unit as the
 * entries' expiry times.
 */
module Ttl {
  import opened Wrappers
  import opened Errors
  import opened Lex
  import opened Seqs
  import opened Engine

  /** An entry with an expiry whose time has passed. */
  predicate Expired(e: Entry, now: nat)
  {
    e.expiresAt != 0 && now > e.expiresAt
  }

  /** The keys among `ks` whose entries in `s` have expired. */
  function ExpiredAmong(s: Store, now: nat, ks: seq<string>): (r: set<string>)
    ensures forall k :: k in r <==> k in ks && k in s && Expired(s[k], now)
  {
    set k | k in ks && k in s && Expired(s[k], now)
  }

  lemma ExpiredAmongSnoc(s: Store, now: nat, ks: seq<string>, n: nat)
    requires n < |ks|
    ensures ExpiredAmong(s, now, ks[..n + 1]) ==
            ExpiredAmong(s, now, ks[..n]) + (if ks[n] in s && Expired(s[ks[n]], now) then {ks[n]} else {})
  {
    assert ks[..n + 1] == ks[..n] + [ks[n]];
  }

  /** The committed map after a successful sweep: the expired entries are gone, every other entry is kept as it was. */
  function Swept(s: Store, now: nat): (r: Store)
    ensures forall k :: k in r <==> k in s && !Expired(s[k], now)
    ensures forall k :: k in r ==> r[k] == s[k]
  {
    s - (set k | k in s && Expired(s[k], now))
  }

  /** Why the sweep stops at key `k`: deleting an expired entry failed. The error is returned unwrapped. */
  function SweepFailure(s: Store, now: nat, faults: Faults, k: string): Option<Error>
  {
    if k in s && Expired(s[k], now) && k in faults.refused then Some(WriteRefused(k)) else None
  }

  function SweepCheck(s: Store, now: nat, faults: Faults): string -> Option<Error>
  {
    k => SweepFailure(s, now, faults, k)
  }

  /**
   * The body of CleanupExpiredRecords' transaction: walk every key from the
   * start and delete each expired entry, stopping at the first failure.
   */
  method SweepBody(s: Store, now: nat, faults: Faults) returns (txn: Store, err: Option<Error>)
    ensures err == FirstSome(Scan(s), SweepCheck(s, now, faults))
    ensures err == None ==> txn == Swept(s, now)
  {
    var it := new Iterator(s);
    it.Rewind();
    ghost var keys := it.keys;
    txn := s;
    SweepLoopBegins(s, keys, now, faults);
    while it.Valid()
      invariant it.Inv() && it.snapshot == s && it.keys == keys
      invariant SweepLoop(s, keys, now, faults, it.pos, txn)
      decreases |keys| - it.pos
    {
      var item := it.Item();
      SweepLoopStep(s, keys, now, faults, it.pos, txn);
      if item.expiresAt != 0 && now > item.expiresAt {
        var removed := Remove(txn, it.Key(), faults);
        if removed.Err? {
          return txn, Some(removed.error);
        }
        txn := removed.value;
      }
      it.Next();
    }
    SweepLoopEnds(s, keys, now, faults, it.pos, txn);
    err := None;
  }

  /** The state of the sweep after the first n keys: nothing failed, and the expired ones among them are deleted. */
  ghost predicate SweepLoop(s: Store, keys: seq<string>, now: nat, faults: Faults, n: nat, txn: Store)
  {
    keys == Scan(s) && n <= |keys|
    && FirstSome(keys[..n], SweepCheck(s, now, faults)) == None
    && txn == s - ExpiredAmong(s, now, keys[..n])
  }

  lemma SweepLoopBegins(s: Store, keys: seq<string>, now: nat, faults: Faults)
    requires keys == Scan(s)
    ensures SweepLoop(s, keys, now, faults, 0, s)
  {
    assert keys[..0] == [];
  }

  /** One step of the sweep: a kept key, a deleted key, or the failed delete that ends the sweep. */
  lemma SweepLoopStep(s: Store, keys: seq<string>, now: nat, faults: Faults, n: nat, txn: Store)
    requires SweepLoop(s, keys, now, faults, n, txn) && n < |keys|
    ensures keys[n] in s
    ensures var e := s[keys[n]];
      if e.expiresAt != 0 && now > e.expiresAt then
        if keys[n] in faults.refused then FirstSome(Scan(s), SweepCheck(s, now, faults)) == Some(WriteRefused(keys[n]))
        else SweepLoop(s, keys, now, faults, n + 1, txn - {keys[n]})
      else SweepLoop(s, keys, now, faults, n + 1, txn)
  {
    if !Expired(s[keys[n]], now) {
      SweepLoopKeeps(s, keys, now, faults, n, txn);
    } else if keys[n] in faults.refused {
      SweepLoopStops(s, keys, now, faults, n, txn);
    } else {
      SweepLoopDeletes(s, keys, now, faults, n, txn);
    }
  }

  lemma SweepLoopKeeps(s: Store, keys: seq<string>, now: nat, faults: Faults, n: nat, txn: Store)
    requires SweepLoop(s, keys, now, faults, n, txn) && n < |keys|
    requires keys[n] in s ==> !Expired(s[keys[n]], now)
    ensures SweepLoop(s, keys, now, faults, n + 1, txn)
  {
    FirstSomeStep(keys, n, SweepCheck(s, now, faults));
    ExpiredAmongSnoc(s, now, keys, n);
  }

  lemma SweepLoopDeletes(s: Store, keys: seq<string>, now: nat, faults: Faults, n: nat, txn: Store)
    requires SweepLoop(s, keys, now, faults, n, txn) && n < |keys|
    requires keys[n] in s && Expired(s[keys[n]], now) && keys[n] !in faults.refused
    ensures SweepLoop(s, keys, now, faults, n + 1, txn - {keys[n]})
  {
    FirstSomeStep(keys, n, SweepCheck(s, now, faults));
    ExpiredAmongSnoc(s, now, keys, n);
  }

  lemma SweepLoopStops(s: Store, keys: seq<string>, now: nat, faults: Faults, n: nat, txn: Store)
    requires SweepLoop(s, keys, now, faults, n, txn) && n < |keys|
    requires keys[n] in s && Expired(s[keys[n]], now) && keys[n] in faults.refused
    ensures FirstSome(Scan(s), SweepCheck(s, now, faults)) == Some(WriteRefused(keys[n]))
  {
    FirstSomeStep(keys, n, SweepCheck(s, now, faults));
    FirstSomePrefix(keys, n + 1, SweepCheck(s, now, faults));
  }

  lemma SweepLoopEnds(s: Store, keys: seq<string>, now: nat, faults: Faults, n: nat, txn: Store)
    requires SweepLoop(s, keys, now, faults, n, txn) && n == |keys|
    ensures FirstSome(Scan(s), SweepCheck(s, now, faults)) == None && txn == Swept(s, now)
  {
    assert keys[..n] == keys;
    ExpiredAmongScan(s, now);
  }

  lemma ExpiredAmongScan(s: Store, now: nat)
    ensures s - ExpiredAmong(s, now, Scan(s)) == Swept(s, now)
  {
    assert ExpiredAmong(s, now, Scan(s)) == set k | k in s && Expired(s[k], now);
  }

  /** CleanupExpiredRecords: one transaction that deletes every expired entry, of any table. */
  method CleanupExpiredRecords(db: DB, now: nat, faults: Faults) returns (err: Option<Error>)
    modifies db
    ensures err == Outcome(FirstSome(Scan(old(db.data)), SweepCheck(old(db.data), now, faults)), faults)
    ensures db.data == if err == None then Swept(old(db.data), now) else old(db.data)
  {
    var m := db.data;
    var txn, bodyErr := SweepBody(m, now, faults);
    if bodyErr.Some? {
      return bodyErr;
    }
    err := db.Commit(txn, faults);
  }

  /** An entry with an expiry that ends, relative to `now`, before `threshold` (already expired ones included). */
  function NearExpiry(s: Store, now: nat, threshold: int): string -> bool
  {
    k => k in s && s[k].expiresAt != 0 && s[k].expiresAt - now < threshold
  }

  /** QueryRecordsNearExpiration: a read-only walk over every key, keeping the keys whose entry is near expiry. */
  method QueryRecordsNearExpiration(db: DB, now: nat, threshold: int) returns (keys: seq<string>)
    ensures keys == Filter(Scan(db.data), NearExpiry(db.data, now, threshold))
  {
    var m := db.data;
    var it := new Iterator(m);
    it.Rewind();
    ghost var all := it.keys;
    keys := [];
    NearLoopBegins(m, all, now, threshold);
    while it.Valid()
      invariant it.Inv() && it.snapshot == m && it.keys == all
      invariant NearLoop(m, all, now, threshold, it.pos, keys)
      decreases |all| - it.pos
    {
      var item := it.Item();
      NearLoopStep(m, all, now, threshold, it.pos, keys);
      if item.expiresAt != 0 {
        if item.expiresAt - now < threshold {
          keys := keys + [it.Key()];
        }
      }
      it.Next();
    }
    NearLoopEnds(m, all, now, threshold, it.pos, keys);
  }

  /** The near-expiry walk after the first n keys. */
  ghost predicate NearLoop(s: Store, all: seq<string>, now: nat, threshold: int, n: nat, keys: seq<string>)
  {
    all == Scan(s) && n <= |all| && keys == Filter(all[..n], NearExpiry(s, now, threshold))
  }

  lemma NearLoopBegins(s: Store, all: seq<string>, now: nat, threshold: int)
    requires all == Scan(s)
    ensures NearLoop(s, all, now, threshold, 0, [])
  {
    assert all[..0] == [];
  }

  lemma NearLoopStep(s: Store, all: seq<string>, now: nat, threshold: int, n: nat, keys: seq<string>)
    requires NearLoop(s, all, now, threshold, n, keys) && n < |all|
    ensures all[n] in s
    ensures var e := s[all[n]];
      NearLoop(s, all, now, threshold, n + 1, if e.expiresAt != 0 && e.expiresAt - now < threshold then keys + [all[n]] else keys)
  {
    assert all[..n + 1] == all[..n] + [all[n]];
    FilterSnoc(all[..n], all[n], NearExpiry(s, now, threshold));
  }

  lemma NearLoopEnds(s: Store, all: seq<string>, now: nat, threshold: int, n: nat, keys: seq<string>)
    requires NearLoop(s, all, now, threshold, n, keys) && n == |all|
    ensures keys == Filter(Scan(s), NearExpiry(s, now, threshold))
  {
    assert all[..n] == all;
  }

  // ---- Properties ----

  /** The sweep fails exactly when the delete of some expired entry fails, whatever the key order. */
  lemma SweepFailsIff(s: Store, now: nat, faults: Faults)
    ensures FirstSome(Scan(s), SweepCheck(s, now, faults)).None? <==>
            forall k :: k in s && Expired(s[k], now) ==> k !in faults.refused
  {
    var keys, check := Scan(s), SweepCheck(s, now, faults);
    if FirstSome(keys, check).None? {
      forall k | k in s && Expired(s[k], now) ensures k !in faults.refused {
        var i :| 0 <= i < |keys| && keys[i] == k;
        assert check(keys[i]).None?;
      }
    }
  }

  /** Entries without an expiry survive every sweep unchanged. */
  lemma NoExpiryKept(s: Store, now: nat, k: string)
    requires k in s && s[k].expiresAt == 0
    ensures k in Swept(s, now) && Swept(s, now)[k] == s[k]
  {
  }

  /** A second sweep at the same time removes nothing more. */
  lemma SweepIdempotent(s: Store, now: nat)
    ensures Swept(Swept(s, now), now) == Swept(s, now)
  {
    var a, b := Swept(Swept(s, now), now), Swept(s, now);
    assert a.Keys == b.Keys;
  }

  /** A later sweep keeps no more than an earlier one. */
  lemma SweepMonotone(s: Store, earlier: nat, later: nat)
    requires earlier <= later
    ensures Swept(s, later).Keys <= Swept(s, earlier).Keys
  {
  }

  /** With a non-negative threshold every expired entry is reported as near expiry; entries without an expiry never are. */
  lemma NearExpiryCoversExpired(s: Store, now: nat, threshold: int, k: string)
    requires k in s
    ensures Expired(s[k], now) && threshold >= 0 ==> k in Filter(Scan(s), NearExpiry(s, now, threshold))
    ensures s[k].expiresAt == 0 ==> k !in Filter(Scan(s), NearExpiry(s, now, threshold))
  {
  }

  /** The reported keys are ascending, and a larger threshold reports a superset. */
  lemma NearExpiryOrdered(s: Store, now: nat, small: int, large: int)
    requires small <= large
    ensures StrictlySorted(Filter(Scan(s), NearExpiry(s, now, small)))
    ensures forall k :: k in Filter(Scan(s), NearExpiry(s, now, small)) ==> k in Filter(Scan(s), NearExpiry(s, now, large))
  {
    SortedKeysSorted(s.Keys);
    FilterSorted(Scan(s), NearExpiry(s, now, small));
  }
}
