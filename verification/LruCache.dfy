/** The payload cache: a retriever's values for the most recently used keys. */
module LruCache {

  // ----- Sequences of keys -----

  function Without<K(==)>(s: seq<K>, k: K): seq<K> {
    if s == [] then [] else (if s[0] == k then [] else [s[0]]) + Without(s[1..], k)
  }

  ghost predicate NoDup<K>(s: seq<K>) {
    forall i, j :: 0 <= i < j < |s| ==> s[i] != s[j]
  }

  ghost function Elements<K>(s: seq<K>): set<K> {
    set k | k in s
  }

  lemma {:induction false} WithoutConcat<K>(a: seq<K>, b: seq<K>, k: K)
    ensures Without(a + b, k) == Without(a, k) + Without(b, k)
    decreases |a|
  {
    if a == [] {
      assert a + b == b;
    } else {
      assert (a + b)[1..] == a[1..] + b;
      WithoutConcat(a[1..], b, k);
    }
  }

  lemma {:induction false} WithoutAbsent<K>(s: seq<K>, k: K)
    requires k !in s
    ensures Without(s, k) == s
  {
    if s != [] {
      assert k !in s[1..];
      WithoutAbsent(s[1..], k);
    }
  }

  function Splice<K>(s: seq<K>, i: nat): seq<K>
    requires i < |s|
  {
    s[..i] + s[i + 1..]
  }

  lemma SpliceSound<K>(s: seq<K>, i: nat)
    requires NoDup(s) && i < |s|
    ensures NoDup(Splice(s, i)) && Elements(Splice(s, i)) == Elements(s) - {s[i]}
  {
    forall x | x in s && x != s[i]
      ensures x in Splice(s, i)
    {
      var j :| 0 <= j < |s| && s[j] == x;
      assert Splice(s, i)[if j < i then j else j - 1] == x;
    }
    forall x | x in Splice(s, i)
      ensures x in s && x != s[i]
    {
      var j :| 0 <= j < |s| - 1 && Splice(s, i)[j] == x;
      assert s[if j < i then j else j + 1] == x;
    }
  }

  // Removing the one occurrence of a key.
  lemma {:induction false} WithoutAt<K>(s: seq<K>, i: nat)
    requires NoDup(s) && i < |s|
    ensures Without(s, s[i]) == Splice(s, i)
    ensures NoDup(Splice(s, i)) && Elements(Splice(s, i)) == Elements(s) - {s[i]}
    decreases |s|
  {
    SpliceSound(s, i);
    if i == 0 {
      WithoutAbsent(s[1..], s[0]);
    } else {
      WithoutAt(s[1..], i - 1);
      assert s[1..][i - 1] == s[i];
      assert Splice(s, i) == [s[0]] + Splice(s[1..], i - 1);
    }
  }

  // The keys that stay keep their order.
  lemma WithoutKeepsOrder<K>(s: seq<K>, k: K, i: nat, j: nat) returns (p: nat, q: nat)
    requires NoDup(s) && i < j < |Without(s, k)|
    ensures p < q < |s| && s[p] == Without(s, k)[i] && s[q] == Without(s, k)[j]
  {
    hide Without;
    p, q := i, j;
    if k in s {
      var n := PlaceOf(s, k);
      WithoutAt(s, n);
      p, q := if i < n then i else i + 1, if j < n then j else j + 1;
    } else {
      WithoutAbsent(s, k);
    }
  }

  lemma WithoutSound<K>(s: seq<K>, k: K)
    requires NoDup(s)
    ensures NoDup(Without(s, k)) && Elements(Without(s, k)) == Elements(s) - {k}
  {
    hide Without;
    if k in s {
      var n := PlaceOf(s, k);
      WithoutAt(s, n);
    } else {
      WithoutAbsent(s, k);
    }
  }

  // A new key at the end.
  lemma AppendSound<K>(s: seq<K>, k: K)
    requires NoDup(s) && k !in s
    ensures NoDup(s + [k]) && Elements(s + [k]) == Elements(s) + {k} && Without(s + [k], k) == s
  {
    hide Without;
    assert NoDup(s + [k]);
    WithoutAt(s + [k], |s|);
  }

  // A key's place in a sequence.
  lemma PlaceOf<K>(s: seq<K>, k: K) returns (i: nat)
    requires k in s
    ensures i < |s| && s[i] == k
  {
    i :| 0 <= i < |s| && s[i] == k;
  }

  lemma {:induction false} DistinctCount<K>(s: seq<K>)
    requires NoDup(s)
    ensures |Elements(s)| == |s|
  {
    if s != [] {
      var n := |s| - 1;
      DistinctCount(s[..n]);
      assert Elements(s) == Elements(s[..n]) + {s[n]};
    }
  }

  // ----- What an access does to the history, most recent key last -----

  function Touch<K(==)>(tracker: seq<K>, k: K, capacity: nat): seq<K>
    requires capacity > 0
  {
    (if k in tracker then Without(tracker, k) else WithRoom(tracker, capacity)) + [k]
  }

  // The oldest key goes if there is no room for one more.
  function WithRoom<K>(tracker: seq<K>, capacity: nat): seq<K>
    requires capacity > 0
  {
    if |tracker| >= capacity then tracker[1..] else tracker
  }

  class PayloadLRUCache<K(==), V> {
    const capacity: nat
    const retriever: K -> V
    var keyTracker: seq<K>
    var keyToValue: map<K, V>

    ghost predicate Valid()
      reads this
    {
      && 0 < capacity && |keyTracker| <= capacity && NoDup(keyTracker)
      && keyToValue.Keys == Elements(keyTracker)
      && (forall k :: k in keyToValue ==> keyToValue[k] == retriever(k))
    }

    constructor (retriever: K -> V, capacity: nat)
      requires capacity != 0
      ensures Valid() && keyTracker == [] && this.retriever == retriever && this.capacity == capacity
    {
      this.retriever, this.capacity := retriever, capacity;
      keyTracker, keyToValue := [], map[];
    }

    /** Hit or miss, the value is the retriever's, and the key becomes the most
        recent one. */
    method Get(k: K) returns (v: V)
      requires Valid()
      modifies this
      ensures Valid() && v == retriever(k)
      ensures keyTracker == Touch(old(keyTracker), k, capacity)
      ensures |keyToValue| == |keyTracker|
    {
      hide Without;
      if k !in keyToValue {
        Insert(k, retriever(k));
        AppendSound(WithRoom(old(keyTracker), capacity), k);
      }
      MoveToBack(k);
      v := keyToValue[k];
      DistinctCount(keyTracker);
    }

    // Splices the accessed key to the back of the list.
    method MoveToBack(k: K)
      requires Valid() && k in keyTracker
      modifies this`keyTracker
      ensures Valid() && keyTracker == Without(old(keyTracker), k) + [k]
    {
      var i :| 0 <= i < |keyTracker| && keyTracker[i] == k;
      WithoutAt(keyTracker, i);
      keyTracker := Splice(keyTracker, i) + [k];
      assert Elements(keyTracker) == Elements(Splice(old(keyTracker), i)) + {k};
    }

    method Insert(k: K, v: V)
      requires Valid() && k !in keyToValue && v == retriever(k)
      modifies this
      ensures Valid() && k in keyToValue
      ensures keyTracker == WithRoom(old(keyTracker), capacity) + [k]
    {
      DistinctCount(keyTracker);
      if |keyToValue| == capacity {
        Evict();
      }
      Record(k, v);
    }

    method Record(k: K, v: V)
      requires Valid() && k !in keyToValue && v == retriever(k) && |keyTracker| < capacity
      modifies this
      ensures Valid() && keyTracker == old(keyTracker) + [k] && keyToValue == old(keyToValue)[k := v]
    {
      AppendSound(keyTracker, k);
      keyTracker := keyTracker + [k];
      keyToValue := keyToValue[k := v];
    }

    method Evict()
      requires Valid() && keyTracker != []
      modifies this
      ensures Valid() && keyTracker == old(keyTracker)[1..]
      ensures keyToValue == old(keyToValue) - {old(keyTracker)[0]}
    {
      WithoutAt(keyTracker, 0);
      keyToValue := keyToValue - {keyTracker[0]};
      keyTracker := keyTracker[1..];
    }

    method Drop(k: K) returns (found: bool)
      requires Valid()
      modifies this
      ensures Valid() && found == old(k in keyToValue)
      ensures keyTracker == Without(old(keyTracker), k) && keyToValue == old(keyToValue) - {k}
    {
      found := k in keyToValue;
      if !found {
        WithoutAbsent(keyTracker, k);
        return;
      }
      var i :| 0 <= i < |keyTracker| && keyTracker[i] == k;
      WithoutAt(keyTracker, i);
      keyTracker := Splice(keyTracker, i);
      keyToValue := keyToValue - {k};
    }
  }

  // ----- Runs of accesses -----

  function Tracked<K(==)>(accesses: seq<K>, capacity: nat): seq<K>
    requires capacity > 0
  {
    if accesses == [] then [] else
    Touch(Tracked(accesses[..|accesses| - 1], capacity), accesses[|accesses| - 1], capacity)
  }

  // All keys ever accessed, by last access.
  function Recent<K(==)>(accesses: seq<K>): seq<K> {
    if accesses == [] then [] else
    Without(Recent(accesses[..|accesses| - 1]), accesses[|accesses| - 1]) + [accesses[|accesses| - 1]]
  }

  // The last access to x is before the last access to y.
  ghost predicate Older<K>(accesses: seq<K>, x: K, y: K) {
    exists j :: 0 <= j < |accesses| && accesses[j] == y && x !in accesses[j..]
  }

  /** The reference order: every key accessed, once, by time of last access. */
  lemma {:induction false} RecentMeaning<K>(accesses: seq<K>)
    ensures NoDup(Recent(accesses)) && Elements(Recent(accesses)) == Elements(accesses)
    ensures forall i, j :: 0 <= i < j < |Recent(accesses)| ==> Older(accesses, Recent(accesses)[i], Recent(accesses)[j])
  {
    hide Without;
    if accesses != [] {
      var n := |accesses| - 1;
      var k := accesses[n];
      var r, s := Recent(accesses[..n]), Recent(accesses);
      RecentMeaning(accesses[..n]);
      WithoutSound(r, k);
      assert k !in Elements(Without(r, k));
      AppendSound(Without(r, k), k);
      assert Elements(accesses) == Elements(accesses[..n]) + {k};
      forall i, j | 0 <= i < j < |s|
        ensures Older(accesses, s[i], s[j])
      {
        if j == |s| - 1 {
          assert accesses[n] == s[j] && s[i] !in accesses[n..];
        } else {
          var p, q := WithoutKeepsOrder(r, k, i, j);
          assert s[i] in Elements(Without(r, k));
          OlderGrows(accesses, r[p], r[q]);
        }
      }
    }
  }

  lemma OlderGrows<K>(accesses: seq<K>, x: K, y: K)
    requires accesses != [] && Older(accesses[..|accesses| - 1], x, y) && x != accesses[|accesses| - 1]
    ensures Older(accesses, x, y)
  {
    var was := accesses[..|accesses| - 1];
    var t :| 0 <= t < |was| && was[t] == y && x !in was[t..];
    assert accesses[t..] == was[t..] + [accesses[|accesses| - 1]];
    assert accesses[t] == y && x !in accesses[t..];
  }

  ghost function LastOf<K>(s: seq<K>, n: nat): seq<K> {
    if |s| <= n then s else s[|s| - n..]
  }

  /** After any run of accesses the resident keys are exactly the most recently
      accessed ones, as many as fit, in order of last access. */
  lemma {:induction false} ResidentAreMostRecent<K>(accesses: seq<K>, capacity: nat)
    requires capacity > 0
    ensures Tracked(accesses, capacity) == LastOf(Recent(accesses), capacity)
    decreases |accesses|
  {
    if accesses != [] {
      var n := |accesses| - 1;
      ResidentAreMostRecent(accesses[..n], capacity);
      RecentMeaning(accesses[..n]);
      TouchLast(Recent(accesses[..n]), accesses[n], capacity);
    }
  }

  lemma TouchLast<K>(r: seq<K>, k: K, capacity: nat)
    requires capacity > 0 && NoDup(r)
    ensures Touch(LastOf(r, capacity), k, capacity) == LastOf(Without(r, k) + [k], capacity)
  {
    hide Without, LastOf;
    var t := LastOf(r, capacity);
    var early := EarlyKeys(r, capacity);
    LastSplits(r, capacity);
    WithoutConcat(early, t, k);
    if k in t {
      var i := PlaceOf(t, k);
      WithoutAt(t, i);
      WithoutAbsent(early, k);
      TouchResident(early, t, Without(t, k), k, capacity);
    } else {
      WithoutAbsent(t, k);
      WithoutShrinks(early, k);
      TouchNew(Without(early, k), t, k, capacity);
    }
  }

  function EarlyKeys<K>(r: seq<K>, capacity: nat): seq<K> {
    if |r| <= capacity then [] else r[..|r| - capacity]
  }

  lemma LastSplits<K>(r: seq<K>, capacity: nat)
    ensures r == EarlyKeys(r, capacity) + LastOf(r, capacity)
    ensures |LastOf(r, capacity)| <= capacity
    ensures EarlyKeys(r, capacity) != [] ==> |LastOf(r, capacity)| == capacity
    ensures NoDup(r) ==> NoDup(LastOf(r, capacity)) && forall k :: k in LastOf(r, capacity) ==> k !in EarlyKeys(r, capacity)
  {
  }

  lemma {:induction false} WithoutShrinks<K>(s: seq<K>, k: K)
    ensures |Without(s, k)| <= |s|
  {
    if s != [] {
      WithoutShrinks(s[1..], k);
    }
  }

  lemma TouchResident<K>(early: seq<K>, t: seq<K>, rest: seq<K>, k: K, capacity: nat)
    requires |t| == |rest| + 1 <= capacity && (early != [] ==> |t| == capacity)
    ensures rest + [k] == LastOf(early + rest + [k], capacity)
  {
  }

  lemma TouchNew<K>(early: seq<K>, t: seq<K>, k: K, capacity: nat)
    requires 0 < capacity && |t| <= capacity && (early != [] ==> |t| == capacity)
    ensures WithRoom(t, capacity) + [k] == LastOf(early + t + [k], capacity)
  {
  }
}
