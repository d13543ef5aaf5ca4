/**
 * The part of the embedded key-value store the history engine relies on: one
 * bucket holding entries in byte-lexicographic key order (the order its
 * cursors visit them), its persistent sequence counter, and `get`, `put`,
 * `delete` and `next_sequence` on it. The B-tree and the pages behind it are
 * not modelled; a bucket is its ordered contents.
 */
module Nut {
  import opened Errors
  import opened Common

  datatype Entry = Entry(key: seq<uint8>, value: seq<uint8>)

  /** Keys strictly increase along s, as a forward cursor visits them. */
  predicate Sorted(s: seq<Entry>) {
    forall i, j :: 0 <= i < j < |s| ==> LexLess(s[i].key, s[j].key)
  }

  /** Every key is an 8-byte id that the sequence counter has already handed out. */
  predicate KeysIssued(s: seq<Entry>, sequence: uint64) {
    forall e :: e in s ==> |e.key| == 8 && Btoi(e.key) <= sequence
  }

  function Keys(s: seq<Entry>): (ks: seq<seq<uint8>>)
    ensures |ks| == |s| && forall i :: 0 <= i < |s| ==> ks[i] == s[i].key
  {
    seq(|s|, i requires 0 <= i < |s| => s[i].key)
  }

  /** s without the entries whose key is one of ks, in the same order. */
  function RemoveKeys(s: seq<Entry>, ks: seq<seq<uint8>>): seq<Entry>
  {
    if s == [] then []
    else (if s[0].key in ks then [] else [s[0]]) + RemoveKeys(s[1..], ks)
  }

  /** Deleting keys keeps exactly the entries whose key is not among them. */
  lemma {:induction false} RemoveKeysMembers(s: seq<Entry>, ks: seq<seq<uint8>>)
    ensures forall e :: e in RemoveKeys(s, ks) <==> e in s && e.key !in ks
  {
    if s != [] {
      RemoveKeysMembers(s[1..], ks);
      assert s == [s[0]] + s[1..];
    }
  }

  /** `Bucket::get` on the bucket's contents: the value stored under key, if any. */
  function Lookup(s: seq<Entry>, key: seq<uint8>): (r: Option<seq<uint8>>)
    ensures r.Some? ==> Entry(key, r.value) in s
    ensures r.None? ==> forall e :: e in s ==> e.key != key
  {
    if s == [] then None
    else if s[0].key == key then Some(s[0].value)
    else
      assert s == [s[0]] + s[1..];
      Lookup(s[1..], key)
  }

  /** The contents after `Bucket::put(key, value)`: key now maps to value, in key order. */
  function Upsert(s: seq<Entry>, key: seq<uint8>, value: seq<uint8>): seq<Entry>
  {
    if s == [] then [Entry(key, value)]
    else if LexLess(key, s[0].key) then [Entry(key, value)] + s
    else if key == s[0].key then [Entry(key, value)] + s[1..]
    else [s[0]] + Upsert(s[1..], key, value)
  }

  // ---------------------------------------------------------------------------
  // Sorted contents
  // ---------------------------------------------------------------------------

  /** In sorted contents a key occurs at one position only. */
  lemma SortedKeyUnique(s: seq<Entry>, i: nat, j: nat)
    requires Sorted(s) && i < |s| && j < |s| && s[i].key == s[j].key
    ensures i == j
  {
    LexIrreflexive(s[i].key);
  }

  lemma SortedSlice(s: seq<Entry>, lo: nat, hi: nat)
    requires Sorted(s) && lo <= hi <= |s|
    ensures Sorted(s[lo..hi])
  {
    forall i, j | 0 <= i < j < hi - lo
      ensures LexLess(s[lo..hi][i].key, s[lo..hi][j].key)
    {
      assert s[lo..hi][i] == s[lo + i] && s[lo..hi][j] == s[lo + j];
    }
  }

  /** Every entry of s has a key above k. */
  predicate Above(k: seq<uint8>, s: seq<Entry>) {
    forall e :: e in s ==> LexLess(k, e.key)
  }

  lemma SortedHead(s: seq<Entry>)
    requires Sorted(s) && s != []
    ensures Sorted(s[1..]) && Above(s[0].key, s[1..])
  {
    SortedSlice(s, 1, |s|);
    forall e | e in s[1..]
      ensures LexLess(s[0].key, e.key)
    {
      var k :| 0 <= k < |s| - 1 && s[1..][k] == e;
      assert s[k + 1] == e;
    }
  }

  lemma SortedCons(x: Entry, s: seq<Entry>)
    requires Sorted(s) && Above(x.key, s)
    ensures Sorted([x] + s)
  {
    var r := [x] + s;
    forall i, j | 0 <= i < j < |r|
      ensures LexLess(r[i].key, r[j].key)
    {
      assert r[j] == s[j - 1];
      if i > 0 {
        assert r[i] == s[i - 1];
      } else {
        assert r[j] in s;
      }
    }
  }

  /** An entry of sorted contents other than the first is in the tail, and the first is not. */
  lemma HeadNotInTail(s: seq<Entry>, e: Entry)
    requires Sorted(s) && s != []
    ensures e in s[1..] <==> e in s && e != s[0]
  {
    assert s == [s[0]] + s[1..];
    SortedHead(s);
    LexIrreflexive(s[0].key);
  }

  /** Two sorted sequences with the same entries are equal. */
  lemma {:induction false} SortedUnique(a: seq<Entry>, b: seq<Entry>)
    requires Sorted(a) && Sorted(b)
    requires forall e :: e in a <==> e in b
    ensures a == b
    decreases |a|
  {
    if a != [] {
      assert a[0] in b;
    }
    if b != [] {
      assert b[0] in a;
    }
    if a != [] {
      var i :| 0 <= i < |a| && a[i] == b[0];
      var j :| 0 <= j < |b| && b[j] == a[0];
      LexAsymmetric(a[0].key, b[0].key);
      LexIrreflexive(a[0].key);
      assert a[0] == b[0];
      SortedHead(a);
      SortedHead(b);
      forall e
        ensures e in a[1..] <==> e in b[1..]
      {
        HeadNotInTail(a, e);
        HeadNotInTail(b, e);
      }
      SortedUnique(a[1..], b[1..]);
      assert a == [a[0]] + a[1..] && b == [b[0]] + b[1..];
    }
  }

  lemma {:induction false} RemoveKeysSorted(s: seq<Entry>, ks: seq<seq<uint8>>)
    requires Sorted(s)
    ensures Sorted(RemoveKeys(s, ks))
  {
    if s != [] {
      SortedHead(s);
      RemoveKeysSorted(s[1..], ks);
      RemoveKeysMembers(s[1..], ks);
      if s[0].key !in ks {
        SortedCons(s[0], RemoveKeys(s[1..], ks));
      }
    }
  }

  lemma {:induction false} RemoveKeysNone(s: seq<Entry>)
    ensures RemoveKeys(s, []) == s
  {
    if s != [] {
      RemoveKeysNone(s[1..]);
      assert s == [s[0]] + s[1..];
    }
  }

  lemma {:induction false} RemoveKeysAppend(a: seq<Entry>, b: seq<Entry>, ks: seq<seq<uint8>>)
    ensures RemoveKeys(a + b, ks) == RemoveKeys(a, ks) + RemoveKeys(b, ks)
  {
    if a == [] {
      assert a + b == b;
    } else {
      var head := if a[0].key in ks then [] else [a[0]];
      var ab := a + b;
      assert ab[0] == a[0] && ab[1..] == a[1..] + b;
      RemoveKeysAppend(a[1..], b, ks);
      var ra, rb := RemoveKeys(a[1..], ks), RemoveKeys(b, ks);
      assert RemoveKeys(ab, ks) == head + (ra + rb);
      assert RemoveKeys(a, ks) == head + ra;
      assert head + (ra + rb) == (head + ra) + rb;
    }
  }

  lemma RemoveKeysSingle(x: Entry, ks: seq<seq<uint8>>)
    ensures RemoveKeys([x], ks) == if x.key in ks then [] else [x]
  {
    assert [x][1..] == [];
  }

  /** Deleting one more key after a batch is deleting the batch extended by that key. */
  lemma {:induction false} RemoveKeysSnoc(s: seq<Entry>, ks: seq<seq<uint8>>, k: seq<uint8>)
    ensures RemoveKeys(RemoveKeys(s, ks), [k]) == RemoveKeys(s, ks + [k])
  {
    if s != [] {
      var head := if s[0].key in ks then [] else [s[0]];
      assert RemoveKeys(s, ks) == head + RemoveKeys(s[1..], ks);
      RemoveKeysAppend(head, RemoveKeys(s[1..], ks), [k]);
      RemoveKeysSnoc(s[1..], ks, k);
      RemoveKeysSingle(s[0], [k]);
      assert s[0].key in ks + [k] <==> s[0].key in ks || s[0].key == k;
      assert RemoveKeys(s, ks + [k]) == (if s[0].key in ks + [k] then [] else [s[0]]) + RemoveKeys(s[1..], ks + [k]);
    }
  }

  /** Deleting the same keys a second time changes nothing. */
  lemma RemoveKeysIdempotent(s: seq<Entry>, ks: seq<seq<uint8>>)
    requires Sorted(s)
    ensures RemoveKeys(RemoveKeys(s, ks), ks) == RemoveKeys(s, ks)
  {
    RemoveKeysSorted(s, ks);
    RemoveKeysSorted(RemoveKeys(s, ks), ks);
    RemoveKeysMembers(s, ks);
    RemoveKeysMembers(RemoveKeys(s, ks), ks);
    SortedUnique(RemoveKeys(RemoveKeys(s, ks), ks), RemoveKeys(s, ks));
  }

  /** Deleting exactly the keys outside positions lo..hi leaves the slice s[lo..hi]. */
  lemma {:induction false} RemoveKeysOutside(s: seq<Entry>, ks: seq<seq<uint8>>, lo: nat, hi: nat)
    requires lo <= hi <= |s|
    requires forall i :: 0 <= i < |s| ==> (s[i].key in ks <==> i < lo || hi <= i)
    ensures RemoveKeys(s, ks) == s[lo..hi]
  {
    if s != [] {
      var lo', hi' := if lo > 0 then lo - 1 else 0, if hi > 0 then hi - 1 else 0;
      forall i | 0 <= i < |s| - 1
        ensures s[1..][i].key in ks <==> i < lo' || hi' <= i
      {
        assert s[1..][i] == s[i + 1];
      }
      RemoveKeysOutside(s[1..], ks, lo', hi');
      var head := if s[0].key in ks then [] else [s[0]];
      assert RemoveKeys(s, ks) == head + s[1..][lo'..hi'];
      if lo > 0 {
        assert s[1..][lo'..hi'] == s[lo..hi];
      } else if hi > 0 {
        assert s[..hi] == [s[0]] + s[1..][..hi'];
      }
    }
  }

  lemma PrefixKeyAt(s: seq<Entry>, t: nat, i: nat)
    requires Sorted(s) && t <= |s| && i < |s|
    ensures s[i].key in Keys(s[..t]) <==> i < t
  {
    var ks := Keys(s[..t]);
    if s[i].key in ks {
      var m :| 0 <= m < t && ks[m] == s[i].key;
      SortedKeyUnique(s, m, i);
    }
    if i < t {
      assert ks[i] == s[i].key;
    }
  }

  /** Deleting the keys of the first t entries of sorted contents leaves exactly the rest. */
  lemma RemovePrefixKeys(s: seq<Entry>, t: nat)
    requires Sorted(s) && t <= |s|
    ensures RemoveKeys(s, Keys(s[..t])) == s[t..]
  {
    forall i | 0 <= i < |s|
      ensures s[i].key in Keys(s[..t]) <==> i < t || |s| <= i
    {
      PrefixKeyAt(s, t, i);
    }
    RemoveKeysOutside(s, Keys(s[..t]), t, |s|);
  }

  lemma LastKeyAt(s: seq<Entry>, i: nat)
    requires Sorted(s) && i < |s|
    ensures s[i].key in [s[|s| - 1].key] <==> |s| - 1 <= i
  {
    if s[i].key == s[|s| - 1].key {
      SortedKeyUnique(s, i, |s| - 1);
    }
  }

  /** A sorted sequence loses its last entry when that entry's key is deleted. */
  lemma RemoveLastKey(s: seq<Entry>)
    requires Sorted(s) && s != []
    ensures RemoveKeys(s, [s[|s| - 1].key]) == s[..|s| - 1]
  {
    forall i | 0 <= i < |s|
      ensures s[i].key in [s[|s| - 1].key] <==> i < 0 || |s| - 1 <= i
    {
      LastKeyAt(s, i);
    }
    RemoveKeysOutside(s, [s[|s| - 1].key], 0, |s| - 1);
  }

  /** In sorted contents, Lookup returns the value stored under the key. */
  lemma LookupSorted(s: seq<Entry>, key: seq<uint8>, value: seq<uint8>)
    requires Sorted(s) && Entry(key, value) in s
    ensures Lookup(s, key) == Some(value)
  {
    var r := Lookup(s, key);
    var i :| 0 <= i < |s| && s[i] == Entry(key, value);
    var j :| 0 <= j < |s| && s[j] == Entry(key, r.value);
    SortedKeyUnique(s, i, j);
  }

  /** After `put`, key holds value and every entry under another key is kept. */
  lemma {:induction false} UpsertMembers(s: seq<Entry>, key: seq<uint8>, value: seq<uint8>)
    requires Sorted(s)
    ensures forall e :: e in Upsert(s, key, value) <==> e == Entry(key, value) || (e in s && e.key != key)
  {
    LexIrreflexive(key);
    if s == [] {
    } else if LexLess(key, s[0].key) {
      SortedHead(s);
      forall e | e in s[1..]
        ensures e.key != key
      {
        LexTransitive(key, s[0].key, e.key);
      }
      assert s == [s[0]] + s[1..];
    } else if key == s[0].key {
      SortedHead(s);
      forall e
        ensures e in s[1..] <==> e in s && e.key != key
      {
        HeadNotInTail(s, e);
      }
    } else {
      SortedHead(s);
      UpsertMembers(s[1..], key, value);
      forall e
        ensures e in s[1..] <==> e in s && e != s[0]
      {
        HeadNotInTail(s, e);
      }
    }
  }

  /** `put` keeps the contents in key order. */
  lemma {:induction false} UpsertSorted(s: seq<Entry>, key: seq<uint8>, value: seq<uint8>)
    requires Sorted(s)
    ensures Sorted(Upsert(s, key, value))
  {
    if s == [] {
    } else if LexLess(key, s[0].key) {
      SortedHead(s);
      forall e | e in s
        ensures LexLess(key, e.key)
      {
        if e != s[0] {
          HeadNotInTail(s, e);
          LexTransitive(key, s[0].key, e.key);
        }
      }
      SortedCons(Entry(key, value), s);
    } else if key == s[0].key {
      SortedHead(s);
      SortedCons(Entry(key, value), s[1..]);
    } else {
      LexTotal(key, s[0].key);
      SortedHead(s);
      UpsertSorted(s[1..], key, value);
      UpsertMembers(s[1..], key, value);
      SortedCons(s[0], Upsert(s[1..], key, value));
    }
  }

  /** A key above every key present is appended at the end. */
  lemma {:induction false} UpsertAppend(s: seq<Entry>, key: seq<uint8>, value: seq<uint8>)
    requires forall e :: e in s ==> LexLess(e.key, key)
    ensures Upsert(s, key, value) == s + [Entry(key, value)]
  {
    if s != [] {
      assert s[0] in s;
      LexAsymmetric(s[0].key, key);
      LexIrreflexive(key);
      forall e | e in s[1..]
        ensures LexLess(e.key, key)
      {
        assert e in s;
      }
      UpsertAppend(s[1..], key, value);
      assert s == [s[0]] + s[1..];
    }
  }

  // ---------------------------------------------------------------------------
  // The bucket
  // ---------------------------------------------------------------------------

  class Bucket {
    /** The bucket's entries, in cursor order. */
    var items: seq<Entry>
    /** The bucket's sequence counter: the last id `next_sequence` handed out. */
    var sequence: uint64

    /** Entries in key order, every key an id already issued by the counter. */
    ghost predicate Valid()
      reads this
    {
      Sorted(items) && KeysIssued(items, sequence)
    }

    /** A freshly created bucket: no entries, counter at zero. */
    constructor ()
      ensures Valid() && items == [] && sequence == 0
    {
      items := [];
      sequence := 0;
    }

    /** `Bucket::put`: store value under key, replacing what was there. */
    method Put(key: seq<uint8>, value: seq<uint8>)
      requires Valid() && |key| == 8 && Btoi(key) <= sequence
      modifies this
      ensures Valid() && sequence == old(sequence)
      ensures items == Upsert(old(items), key, value)
    {
      UpsertSorted(items, key, value);
      UpsertMembers(items, key, value);
      items := Upsert(items, key, value);
    }

    /** `Bucket::delete`: remove the entry under key; an absent key is no error. */
    method Delete(key: seq<uint8>)
      requires Valid()
      modifies this
      ensures Valid() && sequence == old(sequence)
      ensures items == RemoveKeys(old(items), [key])
    {
      RemoveKeysSorted(items, [key]);
      RemoveKeysMembers(items, [key]);
      items := RemoveKeys(items, [key]);
    }

    /**
     * `Bucket::next_sequence`: advance the counter and return its new value.
     * A counter already at the largest u64 reports a backend error.
     */
    method NextSequence() returns (r: Result<uint64>)
      requires Valid()
      modifies this
      ensures Valid() && items == old(items)
      ensures old(sequence) < U64_MAX ==> r == Ok(old(sequence) + 1) && sequence == old(sequence) + 1
      ensures old(sequence) == U64_MAX ==> r.Err? && sequence == old(sequence)
    {
      if sequence == U64_MAX {
        return Err(Db("sequence overflow"));
      }
      sequence := sequence + 1;
      r := Ok(sequence);
    }

    /** Abandon a write transaction: the bucket returns to the state it began from. */
    method Rollback(savedItems: seq<Entry>, savedSequence: uint64)
      requires Sorted(savedItems) && KeysIssued(savedItems, savedSequence)
      modifies this
      ensures Valid() && items == savedItems && sequence == savedSequence
    {
      items, sequence := savedItems, savedSequence;
    }
  }

  /** Delete each of keys in turn: the loop every writer ends with. */
  method DeleteKeys(db: Bucket, keys: seq<seq<uint8>>)
    requires db.Valid()
    modifies db
    ensures db.Valid() && db.sequence == old(db.sequence)
    ensures db.items == RemoveKeys(old(db.items), keys)
  {
    RemoveKeysNone(db.items);
    for j := 0 to |keys|
      invariant db.Valid() && db.sequence == old(db.sequence)
      invariant db.items == RemoveKeys(old(db.items), keys[..j])
    {
      RemoveKeysSnoc(old(db.items), keys[..j], keys[j]);
      assert keys[..j + 1] == keys[..j] + [keys[j]];
      db.Delete(keys[j]);
    }
    assert keys[..|keys|] == keys;
  }
}
