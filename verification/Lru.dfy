/** Recency lists, most recently used first, and what a capped one remembers of its history. */
module Lru {

  ghost predicate Distinct<K>(s: seq<K>) {
    forall i, j :: 0 <= i < j < |s| ==> s[i] != s[j]
  }

  function Remove<K(==)>(s: seq<K>, k: K): seq<K> {
    if s == [] then [] else if s[0] == k then s[1..] else [s[0]] + Remove(s[1..], k)
  }

  /** Move a key to the front, or put it there. */
  function ToFront<K(==)>(s: seq<K>, k: K): seq<K> {
    [k] + Remove(s, k)
  }

  lemma {:induction false} RemoveFacts<K(!new)>(s: seq<K>, k: K)
    requires Distinct(s)
    ensures Distinct(Remove(s, k)) && k !in Remove(s, k)
    ensures forall x :: x in Remove(s, k) <==> x in s && x != k
    ensures |Remove(s, k)| == if k in s then |s| - 1 else |s|
  {
    if s != [] {
      RemoveFacts(s[1..], k);
      assert forall x :: x in s <==> x == s[0] || x in s[1..];
      assert s[0] !in s[1..];
    }
  }

  lemma ToFrontFacts<K(!new)>(s: seq<K>, k: K)
    requires Distinct(s)
    ensures Distinct(ToFront(s, k))
    ensures forall x :: x in ToFront(s, k) <==> x in s || x == k
    ensures |ToFront(s, k)| == if k in s then |s| else |s| + 1
  {
    RemoveFacts(s, k);
  }

  lemma {:induction false} RemoveAbsent<K(!new)>(s: seq<K>, k: K)
    requires k !in s
    ensures Remove(s, k) == s
  {
    if s != [] {
      RemoveAbsent(s[1..], k);
      assert s == [s[0]] + s[1..];
    }
  }

  /** Removing from a prefix that holds the key is the prefix of the removal. */
  lemma {:induction false} RemoveInPrefix<K(!new)>(s: seq<K>, n: nat, k: K)
    requires n <= |s| && k in s[..n]
    ensures |Remove(s, k)| == |s| - 1 && Remove(s[..n], k) == Remove(s, k)[..n - 1]
  {
    if s[0] != k {
      assert s[..n][1..] == s[1..][..n - 1] && s[..n][0] == s[0];
      assert k in s[1..][..n - 1];
      RemoveInPrefix(s[1..], n - 1, k);
    } else {
      assert s[..n][1..] == s[1..][..n - 1];
    }
  }

  lemma {:induction false} RemoveBeyondPrefix<K(!new)>(s: seq<K>, n: nat, k: K)
    requires n <= |s| && k !in s[..n]
    ensures |Remove(s, k)| >= |s| - 1 && |Remove(s, k)| >= n && Remove(s, k)[..n] == s[..n]
  {
    if n == 0 {
      RemoveLength(s, k);
    } else {
      assert s[0] == s[..n][0] && s[1..][..n - 1] == s[..n][1..];
      RemoveBeyondPrefix(s[1..], n - 1, k);
      assert s[..n] == [s[0]] + s[1..][..n - 1];
    }
  }

  lemma {:induction false} RemoveLength<K(!new)>(s: seq<K>, k: K)
    ensures |s| - 1 <= |Remove(s, k)| <= |s|
  {
    if s != [] && s[0] != k {
      RemoveLength(s[1..], k);
    }
  }

  /** All keys of a history, latest use first. */
  function Recent<K(==)>(uses: seq<K>): seq<K> {
    if uses == [] then [] else ToFront(Recent(uses[..|uses| - 1]), uses[|uses| - 1])
  }

  lemma {:induction false} RecentFacts<K(!new)>(uses: seq<K>)
    ensures Distinct(Recent(uses)) && forall x :: x in Recent(uses) <==> x in uses
  {
    if uses != [] {
      var n := |uses| - 1;
      RecentFacts(uses[..n]);
      ToFrontFacts(Recent(uses[..n]), uses[n]);
      assert uses == uses[..n] + [uses[n]];
    }
  }

  function Cap<K>(s: seq<K>, max: nat): seq<K> {
    if |s| <= max then s else s[..max]
  }

  /** One use of a key on a capped list: move it, or insert it and cut the tail. */
  function Use<K(==)>(lru: seq<K>, k: K, max: nat): seq<K> {
    if k in lru then ToFront(lru, k) else Cap([k] + lru, max)
  }

  /** A list capped at `max` after every use is the first `max` of all keys by latest use: what was cut off
      was always the least recently used. */
  lemma UseTracksRecency<K(!new)>(lru: seq<K>, uses: seq<K>, k: K, max: nat)
    requires max >= 1 && lru == Cap(Recent(uses), max)
    ensures Use(lru, k, max) == Cap(Recent(uses + [k]), max)
  {
    var all := Recent(uses);
    assert (uses + [k])[..|uses|] == uses;
    RemoveLength(all, k);
    if k in lru {
      RemoveInPrefix(all, |lru|, k);
      assert all[..|lru|] == lru;
    } else {
      assert all[..|lru|] == lru;
      RemoveBeyondPrefix(all, |lru|, k);
      if |all| <= max {
        RemoveAbsent(all, k);
      } else {
        assert ([k] + lru)[..max] == [k] + lru[..max - 1];
        assert ([k] + Remove(all, k))[..max] == [k] + Remove(all, k)[..max - 1];
        assert Remove(all, k)[..max - 1] == Remove(all, k)[..max][..max - 1];
      }
    }
  }

  // ---------------------------------------------------------------- who stays

  /** The keys in front of a key. */
  ghost function Ahead<K>(s: seq<K>, k: K): set<K> {
    if s == [] || s[0] == k then {} else {s[0]} + Ahead(s[1..], k)
  }

  lemma {:induction false} AheadFacts<K(!new)>(s: seq<K>, k: K)
    requires Distinct(s) && k in s
    ensures (forall x :: x in Ahead(s, k) ==> x in s && x != k)
    ensures |Ahead(s, k)| < |s| && s[|Ahead(s, k)|] == k
  {
    if s[0] != k {
      DistinctTail(s);
      hide Distinct;
      AheadFacts(s[1..], k);
      var rest := Ahead(s[1..], k);
      assert s[0] !in rest;
      assert |{s[0]} + rest| == 1 + |rest|;
    }
  }

  lemma DistinctTail<K(!new)>(s: seq<K>)
    requires Distinct(s) && s != []
    ensures Distinct(s[1..]) && s[0] !in s[1..]
  {
  }

  lemma {:induction false} AheadOfPrefix<K(!new)>(s: seq<K>, n: nat, k: K)
    requires n <= |s| && k in s[..n]
    ensures Ahead(s[..n], k) == Ahead(s, k)
  {
    if s[0] != k {
      assert s[..n][1..] == s[1..][..n - 1] && s[..n][0] == s[0];
      AheadOfPrefix(s[1..], n - 1, k);
    }
  }

  lemma {:induction false} AheadOfRemove<K(!new)>(s: seq<K>, x: K, k: K)
    requires Distinct(s) && x != k && k in s
    ensures k in Remove(s, x) && Ahead(Remove(s, x), k) == Ahead(s, k) - {x}
  {
    DistinctTail(s);
    hide Distinct;
    if s[0] == x {
      assert k in s[1..];
      AheadInside(s[1..], k);
    } else if s[0] != k {
      AheadOfRemove(s[1..], x, k);
      assert Remove(s, x)[1..] == Remove(s[1..], x);
    }
  }

  lemma {:induction false} AheadInside<K(!new)>(s: seq<K>, k: K)
    ensures forall x :: x in Ahead(s, k) ==> x in s
  {
    if s != [] && s[0] != k {
      AheadInside(s[1..], k);
    }
  }

  /** A use of another key puts exactly that key in front as well, if the key stays; and the key stays if that
      leaves fewer than `max` keys in front of it. */
  lemma UseKeeps<K(!new)>(lru: seq<K>, j: K, k: K, max: nat)
    requires Distinct(lru) && j != k && k in lru
    ensures k in Use(lru, j, max) ==> Ahead(Use(lru, j, max), k) == Ahead(lru, k) + {j}
    ensures |Ahead(lru, k) + {j}| < max ==> k in Use(lru, j, max)
  {
    if j in lru {
      AheadOfRemove(lru, j, k);
      assert ToFront(lru, j)[1..] == Remove(lru, j);
    } else {
      var s := [j] + lru;
      assert s[1..] == lru && Distinct(s);
      AheadFacts(s, k);
      assert Ahead(s, k) == Ahead(lru, k) + {j};
      if |s| > max {
        if |Ahead(s, k)| < max {
          assert s[..max][|Ahead(s, k)|] == k;
        }
        if k in s[..max] {
          AheadOfPrefix(s, max, k);
        }
      }
    }
  }
}
