/**
 * Storing one clipboard entry: the size and whitespace filters, deduplication
 * against the newest entries, allocation of the next id, the write, and
 * trimming the history to its maximum length, all inside one write
 * transaction of the bucket.
 */
module Store {
  import opened Errors
  import opened Common
  import opened Nut

  /** `u8::is_ascii_whitespace`: tab, line feed, form feed, carriage return, space. */
  predicate IsAsciiWhitespace(b: uint8) {
    b == 9 || b == 10 || b == 12 || b == 13 || b == 32
  }

  predicate AllAsciiWhitespace(input: seq<uint8>) {
    forall i :: 0 <= i < |input| ==> IsAsciiWhitespace(input[i])
  }

  /** Inputs `store` accepts without touching the history: too large, or nothing but whitespace. */
  predicate Skipped(input: seq<uint8>) {
    |input| > MAX_SIZE || AllAsciiWhitespace(input)
  }

  /**
   * The filters at the start of `store`: an empty input and one over the
   * 5 MB limit are skipped, an input within the limit holding some byte that
   * is not ASCII whitespace is stored, and a vertical tab (11) does not count
   * as ASCII whitespace.
   */
  lemma SkippedSpec(input: seq<uint8>)
    ensures Skipped([])
    ensures |input| > MAX_SIZE ==> Skipped(input)
    ensures |input| <= MAX_SIZE && (exists i :: 0 <= i < |input| && !IsAsciiWhitespace(input[i])) ==> !Skipped(input)
    ensures !IsAsciiWhitespace(11) && IsAsciiWhitespace(12)
  {
  }

  /** The entries the deduplication scan visits: the newest m + 1 (or all, if fewer). */
  function Window(s: seq<Entry>, m: nat): seq<Entry> {
    s[|s| - Min(|s|, m + 1)..]
  }

  /** The keys of the entries of s holding value v, newest first. */
  function KeysWithValue(s: seq<Entry>, v: seq<uint8>): seq<seq<uint8>> {
    if s == [] then []
    else KeysWithValue(s[1..], v) + (if s[0].value == v then [s[0].key] else [])
  }

  /** The contents after `deduplicate`: entries of the window equal to the input are gone. */
  function Deduped(s: seq<Entry>, v: seq<uint8>, m: nat): seq<Entry> {
    RemoveKeys(s, KeysWithValue(Window(s, m), v))
  }

  /** The newest m entries of t (all of them when there are fewer). */
  function Newest(t: seq<Entry>, m: nat): seq<Entry> {
    t[|t| - Min(|t|, m)..]
  }

  /** The contents after `trim_length`: the keys of the oldest entries beyond m are deleted. */
  function Trimmed(s: seq<Entry>, m: nat): seq<Entry> {
    if |s| <= m then s else RemoveKeys(s, Keys(s[..|s| - m]))
  }

  /** The key `store` writes under: the counter's next value, big-endian. */
  function NewKey(sequence: uint64): seq<uint8>
    requires sequence < U64_MAX
  {
    U64ToBeBytes(sequence + 1)
  }

  /** The contents after a successful `store` of input into contents s with counter sequence. */
  function Stored(s: seq<Entry>, sequence: uint64, input: seq<uint8>, maxDedupeSearch: nat, maxItems: nat): seq<Entry>
    requires sequence < U64_MAX
  {
    Trimmed(Upsert(Deduped(s, input, maxDedupeSearch), NewKey(sequence), input), maxItems)
  }

  // ---------------------------------------------------------------------------
  // Properties of the specification functions
  // ---------------------------------------------------------------------------

  /** The scan visits min(len, m + 1) entries, the newest ones, and nothing else. */
  lemma WindowShape(s: seq<Entry>, m: nat)
    ensures |Window(s, m)| == Min(|s|, m + 1) <= m + 1
    ensures s == s[..|s| - |Window(s, m)|] + Window(s, m)
    ensures forall e :: e in Window(s, m) ==> e in s
  {
    var w := Window(s, m);
    assert s == s[..|s| - |w|] + w;
  }

  /** A key is collected exactly when an entry under it holds the value. */
  lemma {:induction false} KeysWithValueMembers(s: seq<Entry>, v: seq<uint8>, k: seq<uint8>)
    ensures k in KeysWithValue(s, v) <==> exists e :: e in s && e.key == k && e.value == v
  {
    if s != [] {
      KeysWithValueMembers(s[1..], v, k);
      assert s == [s[0]] + s[1..];
      if k in KeysWithValue(s[1..], v) {
        var e :| e in s[1..] && e.key == k && e.value == v;
        assert e in s;
      }
    }
  }

  /**
   * `deduplicate` removes exactly the inspected entries equal to the input:
   * every other entry, older or with a different value, stays.
   */
  lemma DedupedMembers(s: seq<Entry>, v: seq<uint8>, m: nat)
    requires Sorted(s)
    ensures Sorted(Deduped(s, v, m))
    ensures forall e :: e in Deduped(s, v, m) <==> e in s && !(e in Window(s, m) && e.value == v)
  {
    var w := Window(s, m);
    var ks := KeysWithValue(w, v);
    WindowShape(s, m);
    RemoveKeysSorted(s, ks);
    RemoveKeysMembers(s, ks);
    forall e | e in s
      ensures e.key in ks <==> e in w && e.value == v
    {
      KeysWithValueMembers(w, v, e.key);
      if e.key in ks {
        var e' :| e' in w && e'.key == e.key && e'.value == v;
        var i :| 0 <= i < |s| && s[i] == e;
        var j :| 0 <= j < |s| && s[j] == e';
        SortedKeyUnique(s, i, j);
      }
    }
  }

  /** Trimming sorted contents keeps exactly the newest m entries. */
  lemma TrimmedKeepsNewest(s: seq<Entry>, m: nat)
    requires Sorted(s)
    ensures Trimmed(s, m) == Newest(s, m)
    ensures |Trimmed(s, m)| == Min(|s|, m)
  {
    if |s| > m {
      RemovePrefixKeys(s, |s| - m);
    }
  }

  /** Every key already issued sorts before the key of the next id. */
  lemma NewKeyIsLargest(s: seq<Entry>, sequence: uint64)
    requires KeysIssued(s, sequence) && sequence < U64_MAX
    ensures |NewKey(sequence)| == 8 && Btoi(NewKey(sequence)) == sequence + 1
    ensures forall e :: e in s ==> LexLess(e.key, NewKey(sequence)) && Btoi(e.key) < Btoi(NewKey(sequence))
  {
    ItobIsBeBytes(sequence + 1);
    ItobRoundTrip(sequence + 1);
    forall e | e in s
      ensures LexLess(e.key, NewKey(sequence))
    {
      BtoiRoundTrip(e.key);
      ItobOrder(Btoi(e.key), sequence + 1);
    }
  }

  /**
   * A successful `store` leaves the deduplicated history with the new entry
   * appended as the newest, cut down to its newest maxItems entries.
   */
  lemma StoredIsNewest(s: seq<Entry>, sequence: uint64, input: seq<uint8>, maxDedupeSearch: nat, maxItems: nat)
    requires Sorted(s) && KeysIssued(s, sequence) && sequence < U64_MAX
    ensures Stored(s, sequence, input, maxDedupeSearch, maxItems)
         == Newest(Deduped(s, input, maxDedupeSearch) + [Entry(NewKey(sequence), input)], maxItems)
  {
    var d := Deduped(s, input, maxDedupeSearch);
    DedupedMembers(s, input, maxDedupeSearch);
    NewKeyIsLargest(s, sequence);
    UpsertAppend(d, NewKey(sequence), input);
    UpsertSorted(d, NewKey(sequence), input);
    TrimmedKeepsNewest(d + [Entry(NewKey(sequence), input)], maxItems);
  }

  lemma NewestMember(t: seq<Entry>, m: nat, e: Entry)
    requires e in Newest(t, m)
    ensures e in t
  {
    var k :| 0 <= k < |Newest(t, m)| && Newest(t, m)[k] == e;
    assert t[|t| - Min(|t|, m) + k] == e;
  }

  /** The newest m entries of sorted contents are sorted, at most m, drawn from t, and end where t ends. */
  lemma NewestProps(t: seq<Entry>, m: nat)
    requires Sorted(t)
    ensures Sorted(Newest(t, m)) && |Newest(t, m)| == Min(|t|, m)
    ensures forall e :: e in Newest(t, m) ==> e in t
    ensures m >= 1 && t != [] ==> |Newest(t, m)| >= 1 && Last(Newest(t, m)) == Last(t)
  {
    SortedSlice(t, |t| - Min(|t|, m), |t|);
  }

  /**
   * After a successful `store` the contents stay sorted, hold at most maxItems
   * entries and end with the new entry (unless maxItems is 0).
   */
  lemma StoredShape(s: seq<Entry>, sequence: uint64, input: seq<uint8>, maxDedupeSearch: nat, maxItems: nat)
    requires Sorted(s) && KeysIssued(s, sequence) && sequence < U64_MAX
    ensures Sorted(Stored(s, sequence, input, maxDedupeSearch, maxItems))
    ensures |Stored(s, sequence, input, maxDedupeSearch, maxItems)| <= maxItems
    ensures maxItems >= 1 ==>
      (|Stored(s, sequence, input, maxDedupeSearch, maxItems)| >= 1
       && Last(Stored(s, sequence, input, maxDedupeSearch, maxItems)) == Entry(NewKey(sequence), input))
  {
    var t := Deduped(s, input, maxDedupeSearch) + [Entry(NewKey(sequence), input)];
    StoredIsNewest(s, sequence, input, maxDedupeSearch, maxItems);
    AppendedSorted(s, sequence, input, maxDedupeSearch);
    NewestProps(t, maxItems);
    assert Last(t) == Entry(NewKey(sequence), input);
  }

  /**
   * After a successful `store` every entry is the new one or an entry the
   * scan did not find equal to the input, and every key is an issued id.
   */
  lemma StoredMembers(s: seq<Entry>, sequence: uint64, input: seq<uint8>, maxDedupeSearch: nat, maxItems: nat)
    requires Sorted(s) && KeysIssued(s, sequence) && sequence < U64_MAX
    ensures KeysIssued(Stored(s, sequence, input, maxDedupeSearch, maxItems), sequence + 1)
    ensures forall e :: e in Stored(s, sequence, input, maxDedupeSearch, maxItems) ==>
      e == Entry(NewKey(sequence), input) || (e in s && !(e in Window(s, maxDedupeSearch) && e.value == input))
  {
    var d := Deduped(s, input, maxDedupeSearch);
    var x := Entry(NewKey(sequence), input);
    var t := d + [x];
    var r := Stored(s, sequence, input, maxDedupeSearch, maxItems);
    StoredIsNewest(s, sequence, input, maxDedupeSearch, maxItems);
    DedupedMembers(s, input, maxDedupeSearch);
    ItobIsBeBytes(sequence + 1);
    ItobRoundTrip(sequence + 1);
    forall e | e in r
      ensures e == x || (e in s && !(e in Window(s, maxDedupeSearch) && e.value == input))
      ensures |e.key| == 8 && Btoi(e.key) <= sequence + 1
    {
      NewestMember(t, maxItems, e);
      assert e in d || e == x;
    }
  }

  /** The deduplicated history with the new entry appended is sorted, old entries first. */
  lemma AppendedSorted(s: seq<Entry>, sequence: uint64, input: seq<uint8>, maxDedupeSearch: nat)
    requires Sorted(s) && KeysIssued(s, sequence) && sequence < U64_MAX
    ensures Sorted(Deduped(s, input, maxDedupeSearch) + [Entry(NewKey(sequence), input)])
    ensures forall e :: e in Deduped(s, input, maxDedupeSearch) <==> e in s && !(e in Window(s, maxDedupeSearch) && e.value == input)
  {
    var d := Deduped(s, input, maxDedupeSearch);
    DedupedMembers(s, input, maxDedupeSearch);
    NewKeyIsLargest(s, sequence);
    UpsertAppend(d, NewKey(sequence), input);
    UpsertSorted(d, NewKey(sequence), input);
  }

  function Last(s: seq<Entry>): Entry
    requires |s| >= 1
  {
    s[|s| - 1]
  }

  /** With the scan covering the whole history, the input is stored exactly once afterwards. */
  lemma StoredOnce(s: seq<Entry>, sequence: uint64, input: seq<uint8>, maxDedupeSearch: nat, maxItems: nat)
    requires Sorted(s) && KeysIssued(s, sequence) && sequence < U64_MAX
    requires |s| <= maxDedupeSearch + 1
    ensures forall e :: e in Stored(s, sequence, input, maxDedupeSearch, maxItems) && e.value == input ==>
      e == Entry(NewKey(sequence), input)
  {
    StoredMembers(s, sequence, input, maxDedupeSearch, maxItems);
    assert Window(s, maxDedupeSearch) == s;
  }

  // ---------------------------------------------------------------------------
  // The operations
  // ---------------------------------------------------------------------------

  /** `deduplicate`: walk back from the newest entry, inspecting at most maxDedupeSearch + 1. */
  method Deduplicate(db: Bucket, input: seq<uint8>, maxDedupeSearch: uint64)
    requires db.Valid()
    modifies db
    ensures db.Valid() && db.sequence == old(db.sequence)
    ensures db.items == Deduped(old(db.items), input, maxDedupeSearch)
  {
    var i := |db.items|;
    var seen: nat := 0;
    var toRemove: seq<seq<uint8>> := [];
    while i > 0 && seen <= maxDedupeSearch
      invariant 0 <= i <= |db.items|
      invariant seen == |db.items| - i && seen <= maxDedupeSearch + 1
      invariant toRemove == KeysWithValue(db.items[i..], input)
    {
      var e := db.items[i - 1];
      assert db.items[i - 1..][1..] == db.items[i..];
      if e.value == input {
        toRemove := toRemove + [e.key];
      }
      i := i - 1;
      seen := seen + 1;
    }
    assert db.items[i..] == Window(db.items, maxDedupeSearch);
    DeleteKeys(db, toRemove);
  }

  /** `trim_length`: count the entries, then delete the oldest ones beyond maxItems. */
  method TrimLength(db: Bucket, maxItems: uint64)
    requires db.Valid()
    modifies db
    ensures db.Valid() && db.sequence == old(db.sequence)
    ensures db.items == Trimmed(old(db.items), maxItems)
  {
    var count: nat := 0;
    while count < |db.items|
      invariant count <= |db.items|
    {
      count := count + 1;
    }
    if count <= maxItems {
      return;
    }
    var toRemove := count - maxItems;
    var removed := 0;
    var keys: seq<seq<uint8>> := [];
    while removed < toRemove && removed < |db.items|
      invariant removed <= toRemove
      invariant keys == Keys(db.items[..removed])
    {
      assert db.items[..removed + 1] == db.items[..removed] + [db.items[removed]];
      keys := keys + [db.items[removed].key];
      removed := removed + 1;
    }
    DeleteKeys(db, keys);
  }

  /**
   * `store`: skip inputs that are too large or only whitespace; otherwise, in
   * one transaction, deduplicate, take the next id, write the input under it
   * and trim. A failure to take an id abandons the transaction.
   */
  method Store(db: Bucket, input: seq<uint8>, maxDedupeSearch: uint64, maxItems: uint64) returns (r: Result<()>)
    requires db.Valid()
    modifies db
    ensures db.Valid()
    ensures Skipped(input) ==> r == Ok(()) && db.items == old(db.items) && db.sequence == old(db.sequence)
    ensures !Skipped(input) && old(db.sequence) == U64_MAX ==>
      r.Err? && db.items == old(db.items) && db.sequence == old(db.sequence)
    ensures !Skipped(input) && old(db.sequence) < U64_MAX ==>
      r == Ok(()) && db.sequence == old(db.sequence) + 1
      && db.items == Stored(old(db.items), old(db.sequence), input, maxDedupeSearch, maxItems)
  {
    if |input| > MAX_SIZE {
      return Ok(());
    }
    if AllAsciiWhitespace(input) {
      return Ok(());
    }
    var savedItems, savedSequence := db.items, db.sequence;
    Deduplicate(db, input, maxDedupeSearch);
    var id := db.NextSequence();
    if id.Err? {
      db.Rollback(savedItems, savedSequence);
      return Err(id.error);
    }
    ItobIsBeBytes(id.value);
    ItobRoundTrip(id.value);
    db.Put(U64ToBeBytes(id.value), input);
    TrimLength(db, maxItems);
    r := Ok(());
  }
}
