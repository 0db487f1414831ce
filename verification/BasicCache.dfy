/** The positive credential cache: a capped recency list of successful verifications, each with an expiry. The
    digest of a credential is an opaque key. */
module BasicCache {
  import opened Machine
  import opened Lru

  datatype Entry = Entry(digest: string, userID: int, isAdmin: bool, expires: real)

  /** A successful verification, as put records it. */
  datatype Verified = Verified(userID: int, isAdmin: bool, at: real)

  class Cache {
    const ttl: real
    const max: nat
    var entries: map<string, Entry>
    var lru: seq<string>
    ghost var puts: map<string, Verified>   // the last successful verification of each credential
    ghost var stamp: map<string, nat>       // when each resident credential was last used
    ghost var tick: nat

    ghost predicate Valid()
      reads this
    {
      max >= 1 && |lru| <= max && Linked()
    }

    /** Same keys in map and list, ordered by last use, every entry from its last put. */
    ghost predicate Linked()
      reads this
    {
      && Distinct(lru)
      && (forall k :: k in entries <==> k in lru)
      && (forall k :: k in entries ==> FromPut(k, entries[k]))
      && Ordered(lru, stamp)
      && (forall k :: k in lru ==> stamp[k] < tick)
    }

    /** Later keys in the list were used earlier. */
    static ghost predicate Ordered(s: seq<string>, stamp: map<string, nat>) {
      (forall x :: x in s ==> x in stamp) && forall i, j :: 0 <= i < j < |s| ==> stamp[s[i]] > stamp[s[j]]
    }

    ghost predicate FromPut(k: string, e: Entry)
      reads this`puts
    {
      k in puts && e == Entry(k, puts[k].userID, puts[k].isAdmin, puts[k].at + ttl)
    }

    constructor (ttl: real, maxEntries: int)
      ensures Valid() && entries == map[] && puts == map[] && this.ttl == ttl
      ensures max == if maxEntries < 1 then 1 else maxEntries
    {
      this.ttl := ttl;
      max := if maxEntries < 1 then 1 else maxEntries;
      entries, lru, puts, stamp, tick := map[], [], map[], map[], 0;
    }

    /** Mark a resident key as just used. */
    method MoveToFront(key: string)
      requires Valid() && key in lru
      modifies this`lru, this`stamp, this`tick
      ensures Valid() && lru == ToFront(old(lru), key)
    {
      ToFrontFacts(lru, key);
      RemoveFacts(lru, key);
      OrderAfterRemoval(lru, key, stamp);
      OrderedInFront(Remove(lru, key), stamp, key, tick);
      hide Ordered;
      lru := ToFront(lru, key);
      stamp := stamp[key := tick];
      tick := tick + 1;
    }

    /** Removing a key keeps the order of the others. */
    static lemma {:induction false} OrderAfterRemoval(s: seq<string>, k: string, stamp: map<string, nat>)
      requires Distinct(s) && Ordered(s, stamp)
      ensures Ordered(Remove(s, k), stamp)
    {
      RemoveFacts(s, k);
      if s != [] && s[0] != k {
        OrderAfterRemoval(s[1..], k, stamp);
        RemoveFacts(s[1..], k);
        assert forall x :: x in s[1..] ==> stamp[s[0]] > stamp[x];
      }
    }

    method RemoveLocked(key: string)
      requires Linked()
      modifies this`entries, this`lru
      ensures Linked() && entries == old(entries) - {key} && lru == Remove(old(lru), key) && |lru| <= |old(lru)|
    {
      hide Remove;
      if key !in entries {
        RemoveAbsent(lru, key);
        return;
      }
      RemoveFacts(lru, key);
      OrderAfterRemoval(lru, key, stamp);
      lru := Remove(lru, key);
      entries := entries - {key};
    }

    /** A hit is the last verification of exactly this credential, no older than the time to live; an expired
        entry is removed. */
    method Get(digest: string, now: real) returns (hit: Option<Entry>)
      requires Valid()
      modifies this`entries, this`lru, this`stamp, this`tick
      ensures Valid()
      ensures hit.Some? <==> ttl > 0.0 && digest in old(entries) && now <= old(entries)[digest].expires
      ensures hit.Some? ==> digest in puts && hit.value.userID == puts[digest].userID && hit.value.isAdmin == puts[digest].isAdmin
      ensures hit.Some? ==> now <= puts[digest].at + ttl && lru == ToFront(old(lru), digest)
      ensures entries == if ttl > 0.0 && digest in old(entries) && now > old(entries)[digest].expires then old(entries) - {digest} else old(entries)
    {
      if ttl <= 0.0 { return None; }
      if digest !in entries { return None; }
      var e := entries[digest];
      if now > e.expires {
        RemoveLocked(digest);
        return None;
      }
      if e.digest != digest { return None; }
      MoveToFront(digest);
      hit := Some(e);
    }

    /** Store or refresh; over the cap, the entry whose last use is oldest goes. */
    method Put(digest: string, userID: int, isAdmin: bool, now: real)
      requires Valid()
      modifies this
      ensures Valid()
      ensures ttl <= 0.0 ==> entries == old(entries) && lru == old(lru)
      ensures ttl > 0.0 ==> puts == old(puts)[digest := Verified(userID, isAdmin, now)]
      ensures ttl > 0.0 ==> digest in entries && lru == Use(old(lru), digest, max)
      ensures forall k :: k in old(entries) && k !in entries ==>
        k in old(stamp) && forall j :: j in entries && j != digest ==> j in old(stamp) && old(stamp)[k] < old(stamp)[j]
    {
      hide Remove, ToFront;
      if ttl <= 0.0 { return; }
      if digest in entries {
        Refresh(digest, userID, isAdmin, now);
        return;
      }
      InsertCapped(digest, userID, isAdmin, now);
    }

    method InsertCapped(digest: string, userID: int, isAdmin: bool, now: real)
      requires Valid() && digest !in entries
      modifies this
      ensures Valid() && puts == old(puts)[digest := Verified(userID, isAdmin, now)]
      ensures lru == Cap([digest] + old(lru), max) && lru[0] == digest
      ensures stamp == old(stamp)[digest := old(tick)]
      ensures OldestCut([digest] + old(lru), lru, stamp)
    {
      hide Linked, FromPut, OldestCut;
      Insert(digest, userID, isAdmin, now);
      ghost var full := lru;
      LinkedOrdered();
      CutIsOldest(full, if |full| <= max then |full| else max, stamp);
      EvictOver();
      assert full[..|full|] == full;
    }

    lemma LinkedOrdered()
      requires Linked()
      ensures Distinct(lru) && Ordered(lru, stamp)
    {
    }

    method Refresh(digest: string, userID: int, isAdmin: bool, now: real)
      requires Valid() && digest in entries
      modifies this
      ensures Valid() && puts == old(puts)[digest := Verified(userID, isAdmin, now)]
      ensures entries.Keys == old(entries).Keys && lru == ToFront(old(lru), digest)
    {
      hide Remove, ToFront;
      puts := puts[digest := Verified(userID, isAdmin, now)];
      entries := entries[digest := entries[digest].(userID := userID, isAdmin := isAdmin, expires := now + ttl)];
      MoveToFront(digest);
    }

    /** Remove from the back while the list is over the cap. */
    method EvictOver()
      requires Linked() && max >= 1
      modifies this`entries, this`lru
      ensures Valid() && lru == Cap(old(lru), max)
    {
      hide Remove, Linked;
      while |lru| > max
        invariant Linked() && |lru| <= |old(lru)| && (|lru| < |old(lru)| ==> |lru| >= max) && lru == old(lru)[..|lru|]
        decreases |lru|
      {
        var back := lru[|lru| - 1];
        assert Distinct(lru) by { LinkedOrdered(); }
        RemoveBack(lru);
        RemoveLocked(back);
      }
    }

    /** Every key cut from the list was last used before every key kept. */
    static ghost predicate OldestCut(full: seq<string>, kept: seq<string>, stamp: map<string, nat>) {
      forall k, j :: k in full && k !in kept && j in kept ==> k in stamp && j in stamp && stamp[k] < stamp[j]
    }

    static lemma CutIsOldest(s: seq<string>, n: nat, stamp: map<string, nat>)
      requires n <= |s| && Ordered(s, stamp)
      ensures OldestCut(s, s[..n], stamp)
    {
      assert forall i :: 0 <= i < n ==> s[i] in s[..n];
      forall k, j | k in s && k !in s[..n] && j in s[..n]
        ensures k in stamp && j in stamp && stamp[k] < stamp[j]
      {
        var a :| 0 <= a < |s| && s[a] == k;
        var b :| 0 <= b < n && s[..n][b] == j;
        assert s[b] == j;
      }
    }

    static lemma OrderedInFront(s: seq<string>, stamp: map<string, nat>, k: string, t: nat)
      requires k !in s && Ordered(s, stamp) && (forall x :: x in s ==> stamp[x] < t)
      ensures Ordered([k] + s, stamp[k := t])
    {
      forall i, j | 0 <= i < j < |[k] + s|
        ensures stamp[k := t][([k] + s)[i]] > stamp[k := t][([k] + s)[j]]
      {
        assert ([k] + s)[j] == s[j - 1];
      }
    }

    /** Put a new key in front. */
    method Insert(digest: string, userID: int, isAdmin: bool, now: real)
      requires Linked() && digest !in entries
      modifies this
      ensures Linked() && lru == [digest] + old(lru) && digest in entries
      ensures puts == old(puts)[digest := Verified(userID, isAdmin, now)]
      ensures stamp == old(stamp)[digest := old(tick)]
    {
      OrderedInFront(lru, stamp, digest, tick);
      hide Ordered;
      puts := puts[digest := Verified(userID, isAdmin, now)];
      lru := [digest] + lru;
      entries := entries[digest := Entry(digest, userID, isAdmin, now + ttl)];
      stamp := stamp[digest := tick];
      tick := tick + 1;
    }

    static lemma {:induction false} RemoveBack(s: seq<string>)
      requires Distinct(s) && s != []
      ensures Remove(s, s[|s| - 1]) == s[..|s| - 1]
    {
      if |s| > 1 {
        RemoveBack(s[1..]);
        assert s[1..][..|s| - 2] == s[..|s| - 1][1..];
      }
    }
  }
}
