/** A byte-bounded cache of the most recently used entries. */
module LruCaches {
  import opened Prelude

  datatype Entry<K, V> = Entry(key: K, value: V, bytes: nat)

  function TotalBytes<K, V>(entries: seq<Entry<K, V>>, n: nat): nat
    requires n <= |entries|
  {
    if n == 0 then 0 else TotalBytes(entries, n - 1) + entries[n - 1].bytes
  }

  /** The entries but the one under `key`. */
  function Except<K(==,!new), V(!new)>(entries: seq<Entry<K, V>>, key: K): (r: seq<Entry<K, V>>)
    ensures |r| <= |entries|
    ensures forall e :: e in r <==> e in entries && e.key != key
  {
    if entries == [] then []
    else if entries[0].key == key then Except(entries[1..], key)
    else [entries[0]] + Except(entries[1..], key)
  }

  lemma {:induction false} ExceptUnique<K(!new), V(!new)>(entries: seq<Entry<K, V>>, key: K)
    requires UniqueKeys(entries)
    ensures UniqueKeys(Except(entries, key))
  {
    if entries != [] {
      var rest := entries[1..];
      ExceptUnique(rest, key);
      var r := Except(rest, key);
      forall i | 0 <= i < |r| ensures r[i].key != entries[0].key {
        assert r[i] in rest;
      }
    }
  }

  ghost predicate UniqueKeys<K(!new), V(!new)>(entries: seq<Entry<K, V>>) {
    forall i, j :: 0 <= i < j < |entries| ==> entries[i].key != entries[j].key
  }

  lemma {:induction false} BytesGrow<K(!new), V(!new)>(entries: seq<Entry<K, V>>, i: nat, j: nat)
    requires i <= j <= |entries|
    ensures TotalBytes(entries, i) <= TotalBytes(entries, j)
  {
    if i < j {
      BytesGrow(entries, i, j - 1);
    }
  }

  /** `kept` are the most recent of `all` that fit: no more of them would. */
  ghost predicate MostThatFit<K(!new), V(!new)>(all: seq<Entry<K, V>>, kept: seq<Entry<K, V>>, capacity: nat,
                                                budget: nat)
  {
    && |kept| <= |all| && kept == all[..|kept|]
    && |kept| <= capacity && TotalBytes(all, |kept|) <= budget
    && forall n :: |kept| < n <= |all| ==> n > capacity || TotalBytes(all, n) > budget
  }

  lemma {:induction false} BytesOfPrefix<K(!new), V(!new)>(entries: seq<Entry<K, V>>, n: nat, m: nat)
    requires n <= m <= |entries|
    ensures TotalBytes(entries[..m], n) == TotalBytes(entries, n)
  {
    if n > 0 {
      BytesOfPrefix(entries, n - 1, m);
    }
  }

  /** The newest entry and as many of the others, most recent first, as fit with it. */
  method DropOldest<K(!new), V(!new)>(newest: Entry<K, V>, others: seq<Entry<K, V>>, capacity: nat, budget: nat)
    returns (kept: seq<Entry<K, V>>)
    requires newest.bytes <= budget && capacity > 0
    ensures MostThatFit([newest] + others, kept, capacity, budget)
    ensures kept != [] && kept[0] == newest && AllBytes(kept) <= budget
  {
    var all := [newest] + others;
    assert TotalBytes(all, 0) == 0 && TotalBytes(all, 1) == newest.bytes;
    var n: nat := Min(|all|, capacity);
    while TotalBytes(all, n) > budget
      invariant 1 <= n <= |all| && n <= capacity
      invariant forall m :: n < m <= |all| ==> m > capacity || TotalBytes(all, m) > budget
      decreases n
    {
      n := n - 1;
    }
    kept := all[..n];
    BytesOfPrefix(all, n, n);
  }

  lemma NewestUnique<K(!new), V(!new)>(newest: Entry<K, V>, others: seq<Entry<K, V>>, n: nat)
    requires UniqueKeys(others) && (forall e :: e in others ==> e.key != newest.key) && n <= |others| + 1
    ensures UniqueKeys(([newest] + others)[..n])
  {
    var all := [newest] + others;
    forall i, j | 0 <= i < j < n ensures all[i].key != all[j].key {
      assert all[j] == others[j - 1];
      assert i > 0 ==> all[i] == others[i - 1];
    }
  }

  class LruCache<K(==,!new), V(!new)> {
    const capacity: nat
    const budget: nat
    /** Most recently used first. */
    var entries: seq<Entry<K, V>>

    ghost predicate Valid()
      reads this
    {
      && capacity > 0 && UniqueKeys(entries) && |entries| <= capacity
      && AllBytes(entries) <= budget
    }

    constructor (capacity: nat, budget: nat)
      requires capacity > 0
      ensures Valid() && this.capacity == capacity && this.budget == budget && entries == []
    {
      this.capacity, this.budget, entries := capacity, budget, [];
    }

    /** Puts an entry that fits by itself, then drops the least recently used while the rest do
        not; a larger entry is not kept at all. */
    method PutBounded(key: K, value: V, bytes: nat)
      requires Valid()
      modifies this
      ensures Valid()
      ensures bytes > budget ==> entries == old(entries)
      ensures bytes <= budget ==>
                && MostThatFit([Entry(key, value, bytes)] + Except(old(entries), key), entries, capacity, budget)
                && entries != [] && entries[0] == Entry(key, value, bytes)
    {
      if bytes > budget {
        return;
      }
      var newest := Entry(key, value, bytes);
      ExceptUnique(entries, key);
      ghost var others := Except(entries, key);
      entries := DropOldest(newest, Except(entries, key), capacity, budget);
      NewestUnique(newest, others, |entries|);
    }

    /** Looks an entry up, which makes it the most recent. */
    method Get(key: K) returns (found: Option<V>)
      requires Valid()
      modifies this
      ensures Valid()
      ensures found.None? ==> entries == old(entries) && forall e :: e in entries ==> e.key != key
      ensures found.Some? ==>
                && (exists e :: e in old(entries) && e.key == key && e.value == found.value
                                && entries == [e] + Except(old(entries), key))
    {
      for i := 0 to |entries|
        invariant entries == old(entries)
        invariant forall j :: 0 <= j < i ==> entries[j].key != key
      {
        if entries[i].key == key {
          var e := entries[i];
          assert e in old(entries);
          MovedToFront(entries, i);
          entries := [e] + Except(entries, key);
          return Some(e.value);
        }
      }
      found := None;
    }
  }

  lemma {:induction false} ExceptAbsent<K(!new), V(!new)>(entries: seq<Entry<K, V>>, key: K)
    requires forall e :: e in entries ==> e.key != key
    ensures Except(entries, key) == entries
  {
    if entries != [] {
      assert entries[0] in entries;
      ExceptAbsent(entries[1..], key);
    }
  }

  lemma {:induction false} BytesOfBoth<K(!new), V(!new)>(a: seq<Entry<K, V>>, b: seq<Entry<K, V>>, n: nat)
    requires n <= |b|
    ensures TotalBytes(a + b, |a| + n) == TotalBytes(a, |a|) + TotalBytes(b, n)
  {
    if n > 0 {
      BytesOfBoth(a, b, n - 1);
    } else {
      BytesOfPrefix(a + b, |a|, |a|);
      assert (a + b)[..|a|] == a;
    }
  }

  lemma {:induction false} ExceptAt<K(!new), V(!new)>(entries: seq<Entry<K, V>>, i: nat)
    requires UniqueKeys(entries) && i < |entries|
    ensures Except(entries, entries[i].key) == entries[..i] + entries[i + 1..]
  {
    var rest := entries[1..];
    if i == 0 {
      ExceptAbsent(rest, entries[0].key);
    } else {
      ExceptAt(rest, i - 1);
      WithoutAt(entries, i);
    }
  }

  lemma WithoutAt<T>(s: seq<T>, i: nat)
    requires 0 < i < |s|
    ensures s[..i] + s[i + 1..] == [s[0]] + (s[1..][..i - 1] + s[1..][i..])
  {
    assert s[..i] == [s[0]] + s[1..][..i - 1];
    assert s[i + 1..] == s[1..][i..];
  }

  function AllBytes<K, V>(entries: seq<Entry<K, V>>): nat {
    TotalBytes(entries, |entries|)
  }

  lemma BytesAdd<K(!new), V(!new)>(a: seq<Entry<K, V>>, b: seq<Entry<K, V>>)
    ensures AllBytes(a + b) == AllBytes(a) + AllBytes(b)
  {
    BytesOfBoth(a, b, |b|);
  }

  lemma BytesInAnyOrder<K(!new), V(!new)>(a: seq<Entry<K, V>>, b: seq<Entry<K, V>>, c: seq<Entry<K, V>>)
    ensures AllBytes(a + (b + c)) == AllBytes(b + (a + c))
  {
    BytesAdd(a, b + c);
    BytesAdd(b, c);
    BytesAdd(b, a + c);
    BytesAdd(a, c);
  }

  lemma KeysInAnyOrder<K(!new), V(!new)>(entries: seq<Entry<K, V>>, i: nat)
    requires UniqueKeys(entries) && i < |entries|
    ensures UniqueKeys([entries[i]] + (entries[..i] + entries[i + 1..]))
  {
  }

  /** Using an entry changes neither the keys nor the bytes kept. */
  lemma MovedToFront<K(!new), V(!new)>(entries: seq<Entry<K, V>>, i: nat)
    requires UniqueKeys(entries) && i < |entries|
    ensures var moved := [entries[i]] + Except(entries, entries[i].key);
            && UniqueKeys(moved) && |moved| == |entries| && AllBytes(moved) == AllBytes(entries)
  {
    ExceptAt(entries, i);
    KeysInAnyOrder(entries, i);
    BytesInAnyOrder(entries[..i], [entries[i]], entries[i + 1..]);
    assert entries == entries[..i] + ([entries[i]] + entries[i + 1..]);
  }
}
