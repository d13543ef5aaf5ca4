/**
 * The mutators besides `store`: deleting the newest entry, deleting the
 * entries named by id lines, wiping every entry, and deleting every entry
 * whose payload contains a byte string. Each runs in one write transaction.
 */
module Delete {
  import opened Errors
  import opened Common
  import opened Nut
  import opened List

  const NO_QUERY: string := "please provide a query"

  /** What `extract_id` makes of each line. */
  function Extracted(lines: seq<string>): (rs: seq<Result<uint64>>)
    ensures |rs| == |lines|
  {
    seq(|lines|, i requires 0 <= i < |lines| => ExtractId(lines[i]))
  }

  /** The values of results taken in order, or the first error among them. */
  function Collect(rs: seq<Result<uint64>>): Result<seq<uint64>>
  {
    if rs == [] then Ok([])
    else
      var ids :- Collect(rs[..|rs| - 1]);
      var id :- rs[|rs| - 1];
      Ok(ids + [id])
  }

  /** The ids named by lines, in order, or the error of the first line that names none. */
  function ParseIds(lines: seq<string>): Result<seq<uint64>>
  {
    Collect(Extracted(lines))
  }

  /** The keys `delete` uses for ids. */
  function ItobAll(ids: seq<uint64>): (ks: seq<seq<uint8>>)
    ensures |ks| == |ids| && forall i :: 0 <= i < |ids| ==> ks[i] == Itob(ids[i])
  {
    seq(|ids|, i requires 0 <= i < |ids| => Itob(ids[i]))
  }

  /** The keys of one more id are the keys so far plus its key. */
  lemma ItobAllSnoc(ids: seq<uint64>, id: uint64)
    ensures ItobAll(ids + [id]) == ItobAll(ids) + [Itob(id)]
  {
  }

  /** `needle` occurs in `v` starting at position i. */
  predicate OccursAt(v: seq<uint8>, needle: seq<uint8>, i: int) {
    0 <= i && i + |needle| <= |v| && v[i..i + |needle|] == needle
  }

  /**
   * `v.windows(needle.len()).any(|w| w == needle)`: some window of v equals
   * needle. A payload shorter than the query has no window; one that starts
   * or ends with the query matches.
   */
  function HasWindow(v: seq<uint8>, needle: seq<uint8>): (r: bool)
    requires |needle| > 0
    ensures |v| < |needle| ==> !r
    ensures |needle| <= |v| && (v[..|needle|] == needle || v[|v| - |needle|..] == needle) ==> r
    decreases |v|
  {
    if |v| < |needle| then false
    else
      assert |needle| < |v| ==> v[1..][|v| - 1 - |needle|..] == v[|v| - |needle|..];
      v[..|needle|] == needle || HasWindow(v[1..], needle)
  }

  /** The keys of the entries whose payload contains query, in cursor order. */
  function MatchKeys(s: seq<Entry>, query: seq<uint8>): seq<seq<uint8>>
    requires |query| > 0
  {
    if s == [] then []
    else MatchKeys(s[..|s| - 1], query) + (if HasWindow(s[|s| - 1].value, query) then [s[|s| - 1].key] else [])
  }

  // ---------------------------------------------------------------------------
  // Properties of the specification functions
  // ---------------------------------------------------------------------------

  /** One more result that holds a value extends the collected values by it. */
  lemma CollectSnoc(front: seq<Result<uint64>>, r: Result<uint64>, ids: seq<uint64>)
    requires Collect(front) == Ok(ids) && r.Ok?
    ensures Collect(front + [r]) == Ok(ids + [r.value])
  {
    assert (front + [r])[..|front|] == front;
  }

  /** One more result after a failing prefix keeps the prefix's error. */
  lemma CollectErrStep(front: seq<Result<uint64>>, r: Result<uint64>)
    requires Collect(front).Err?
    ensures Collect(front + [r]) == Collect(front)
  {
    assert (front + [r])[..|front|] == front;
  }

  /** The first error after values becomes the error of the collection. */
  lemma CollectBad(front: seq<Result<uint64>>, r: Result<uint64>, ids: seq<uint64>)
    requires Collect(front) == Ok(ids) && r.Err?
    ensures Collect(front + [r]) == Err(r.error)
  {
    assert (front + [r])[..|front|] == front;
  }

  /** The first n results, all values, collect to those values. */
  lemma {:induction false} CollectPrefix(rs: seq<Result<uint64>>, n: nat)
    requires n <= |rs| && forall i :: 0 <= i < n ==> rs[i].Ok?
    ensures Collect(rs[..n]).Ok? && |Collect(rs[..n]).value| == n
    ensures forall i :: 0 <= i < n ==> Collect(rs[..n]).value[i] == rs[i].value
  {
    if n > 0 {
      CollectPrefix(rs, n - 1);
      CollectSnoc(rs[..n - 1], rs[n - 1], Collect(rs[..n - 1]).value);
      PrefixSnoc(rs, n);
    }
  }

  /** A failing prefix fixes the error of every longer prefix. */
  lemma {:induction false} CollectErrExtends(rs: seq<Result<uint64>>, j: nat, k: nat)
    requires j <= k <= |rs| && Collect(rs[..j]).Err?
    ensures Collect(rs[..k]) == Collect(rs[..j])
    decreases k
  {
    if k > j {
      CollectErrExtends(rs, j, k - 1);
      CollectErrStep(rs[..k - 1], rs[k - 1]);
      PrefixSnoc(rs, k);
    }
  }

  /** When result j is the first error, it is the error of the whole collection. */
  lemma CollectFailsAt(rs: seq<Result<uint64>>, j: nat, ids: seq<uint64>)
    requires j < |rs| && Collect(rs[..j]) == Ok(ids) && rs[j].Err?
    ensures Collect(rs) == Err(rs[j].error)
  {
    CollectBad(rs[..j], rs[j], ids);
    PrefixSnoc(rs, j + 1);
    CollectErrExtends(rs, j + 1, |rs|);
    FullPrefix(rs);
  }

  /** Line i of the input is what `extract_id` makes of line i. */
  lemma ExtractedAt(lines: seq<string>, i: nat)
    requires i < |lines|
    ensures Extracted(lines)[i] == ExtractId(lines[i])
  {
  }

  /**
   * When every line before line j names an id and line j names none, `delete`
   * fails with line j's error: later lines are never looked at.
   */
  lemma ParseIdsFirstError(lines: seq<string>, j: nat)
    requires j < |lines| && forall i :: 0 <= i < j ==> ExtractId(lines[i]).Ok?
    requires ExtractId(lines[j]).Err?
    ensures ParseIds(lines) == Err(ExtractId(lines[j]).error)
  {
    var rs := Extracted(lines);
    forall i | 0 <= i < j
      ensures rs[i].Ok?
    {
      ExtractedAt(lines, i);
    }
    CollectPrefix(rs, j);
    ExtractedAt(lines, j);
    CollectFailsAt(rs, j, Collect(rs[..j]).value);
  }

  /** Lines that each yield their id parse as the sequence of those ids. */
  lemma ParseIdsAll(lines: seq<string>, ids: seq<uint64>)
    requires |ids| == |lines|
    requires forall i :: 0 <= i < |lines| ==> ExtractId(lines[i]) == Ok(ids[i])
    ensures ParseIds(lines) == Ok(ids)
  {
    var rs := Extracted(lines);
    forall i | 0 <= i < |rs|
      ensures rs[i] == Ok(ids[i])
    {
      ExtractedAt(lines, i);
    }
    CollectPrefix(rs, |rs|);
    FullPrefix(rs);
    assert Collect(rs).value == ids;
  }

  /** The lines of the listing parse as the listed ids, newest first. */
  lemma ParseListing(s: seq<Entry>, sequence: uint64, width: nat, o: Oracles)
    requires Sorted(s) && KeysIssued(s, sequence)
    ensures ParseIds(ListLines(s, width, o)) == Ok(ListIds(s))
  {
    ListLinesIds(s, sequence, width, o);
    ParseIdsAll(ListLines(s, width, o), ListIds(s));
  }

  /** A sequence of entries with no member is empty. */
  lemma MembersEmpty(r: seq<Entry>)
    ensures (forall e :: e !in r) ==> r == []
  {
    if r != [] {
      assert r[0] in r;
    }
  }

  /** Deleting every listed id empties the bucket. */
  lemma RemoveListedIds(s: seq<Entry>, sequence: uint64)
    requires Sorted(s) && KeysIssued(s, sequence)
    ensures RemoveKeys(s, ItobAll(ListIds(s))) == []
  {
    var ids := ListIds(s);
    DeletedMembers(s, sequence, ids);
    forall e | e in s
      ensures Btoi(e.key) in ids
    {
      var k :| 0 <= k < |s| && s[k] == e;
      ListIdAt(s, |s| - 1 - k);
    }
    MembersEmpty(RemoveKeys(s, ItobAll(ids)));
  }

  /** Feeding the whole listing back to `delete` deletes every entry. */
  lemma DeleteListing(s: seq<Entry>, sequence: uint64, width: nat, o: Oracles)
    requires Sorted(s) && KeysIssued(s, sequence)
    ensures ParseIds(ListLines(s, width, o)).Ok?
    ensures RemoveKeys(s, ItobAll(ParseIds(ListLines(s, width, o)).value)) == []
  {
    ParseListing(s, sequence, width, o);
    RemoveListedIds(s, sequence);
  }

  /**
   * The output `list` writes, split into lines as `delete` reads it, parses
   * as ids, and deleting them empties the bucket.
   */
  lemma DeleteWrittenListing(s: seq<Entry>, sequence: uint64, width: nat, o: Oracles)
    requires Sorted(s) && KeysIssued(s, sequence) && ValidOracles(o)
    ensures ParseIds(SplitLines(Written(ListLines(s, width, o)))).Ok?
    ensures RemoveKeys(s, ItobAll(ParseIds(SplitLines(Written(ListLines(s, width, o)))).value)) == []
  {
    ListLinesRead(s, sequence, width, o);
    DeleteListing(s, sequence, width, o);
  }

  /** The key of an entry is among the keys for ids exactly when its id is among them. */
  lemma ItobAllMembers(ids: seq<uint64>, key: seq<uint8>)
    requires |key| == 8
    ensures key in ItobAll(ids) <==> Btoi(key) in ids
  {
    BtoiRoundTrip(key);
    if key in ItobAll(ids) {
      var i :| 0 <= i < |ids| && ItobAll(ids)[i] == key;
      ItobRoundTrip(ids[i]);
    }
    if Btoi(key) in ids {
      var i :| 0 <= i < |ids| && ids[i] == Btoi(key);
      assert ItobAll(ids)[i] == key;
    }
  }

  /** Deleting ids keeps exactly the entries whose id is not among them. */
  lemma DeletedMembers(s: seq<Entry>, sequence: uint64, ids: seq<uint64>)
    requires Sorted(s) && KeysIssued(s, sequence)
    ensures Sorted(RemoveKeys(s, ItobAll(ids)))
    ensures forall e :: e in RemoveKeys(s, ItobAll(ids)) <==> e in s && Btoi(e.key) !in ids
  {
    RemoveKeysSorted(s, ItobAll(ids));
    RemoveKeysMembers(s, ItobAll(ids));
    forall e | e in s
      ensures e.key in ItobAll(ids) <==> Btoi(e.key) in ids
    {
      ItobAllMembers(ids, e.key);
    }
  }

  /** An occurrence at position i makes some window equal to needle. */
  lemma {:induction false} HasWindowAt(v: seq<uint8>, needle: seq<uint8>, i: nat)
    requires |needle| > 0 && OccursAt(v, needle, i)
    ensures HasWindow(v, needle)
    decreases i
  {
    if i > 0 {
      assert v[1..][i - 1..i - 1 + |needle|] == v[i..i + |needle|];
      HasWindowAt(v[1..], needle, i - 1);
    }
  }

  /** A window equal to needle is an occurrence at some position. */
  lemma {:induction false} HasWindowFound(v: seq<uint8>, needle: seq<uint8>) returns (i: nat)
    requires |needle| > 0 && HasWindow(v, needle)
    ensures OccursAt(v, needle, i)
    decreases |v|
  {
    if v[..|needle|] == needle {
      i := 0;
    } else {
      var j := HasWindowFound(v[1..], needle);
      assert v[1..][j..j + |needle|] == v[j + 1..j + 1 + |needle|];
      i := j + 1;
    }
  }

  /** HasWindow is the substring test: some position of v starts needle. */
  lemma HasWindowSpec(v: seq<uint8>, needle: seq<uint8>)
    requires |needle| > 0
    ensures HasWindow(v, needle) <==> exists i :: OccursAt(v, needle, i)
    ensures |v| < |needle| ==> !HasWindow(v, needle)
  {
    if HasWindow(v, needle) {
      var i := HasWindowFound(v, needle);
    }
    if exists i :: OccursAt(v, needle, i) {
      var i :| OccursAt(v, needle, i);
      HasWindowAt(v, needle, i);
    }
  }

  /** A key is collected exactly when an entry under it holds a payload containing query. */
  lemma {:induction false} MatchKeysMembers(s: seq<Entry>, query: seq<uint8>, k: seq<uint8>)
    requires |query| > 0
    ensures k in MatchKeys(s, query) <==> exists e :: e in s && e.key == k && HasWindow(e.value, query)
  {
    if s != [] {
      var n := |s| - 1;
      MatchKeysMembers(s[..n], query, k);
      assert s == s[..n] + [s[n]];
      if k in MatchKeys(s[..n], query) {
        var e :| e in s[..n] && e.key == k && HasWindow(e.value, query);
        assert e in s;
      }
    }
  }

  /**
   * `delete_query` keeps exactly the entries whose payload does not contain
   * query; in particular every payload shorter than query is kept.
   */
  lemma QueryMembers(s: seq<Entry>, query: seq<uint8>)
    requires Sorted(s) && |query| > 0
    ensures Sorted(RemoveKeys(s, MatchKeys(s, query)))
    ensures forall e :: e in RemoveKeys(s, MatchKeys(s, query)) <==>
      e in s && !(exists i :: OccursAt(e.value, query, i))
    ensures forall e :: e in s && |e.value| < |query| ==> e in RemoveKeys(s, MatchKeys(s, query))
  {
    var ks := MatchKeys(s, query);
    RemoveKeysSorted(s, ks);
    RemoveKeysMembers(s, ks);
    forall e | e in s
      ensures e.key in ks <==> HasWindow(e.value, query)
    {
      MatchKeysMembers(s, query, e.key);
      if e.key in ks {
        var e' :| e' in s && e'.key == e.key && HasWindow(e'.value, query);
        var i :| 0 <= i < |s| && s[i] == e;
        var j :| 0 <= j < |s| && s[j] == e';
        SortedKeyUnique(s, i, j);
      }
    }
    forall e: Entry
      ensures HasWindow(e.value, query) <==> exists i :: OccursAt(e.value, query, i)
      ensures |e.value| < |query| ==> !HasWindow(e.value, query)
    {
      HasWindowSpec(e.value, query);
    }
  }

  /** Deleting keys none of the entries carries changes nothing. */
  lemma {:induction false} RemoveKeysAbsent(s: seq<Entry>, ks: seq<seq<uint8>>)
    requires forall e :: e in s ==> e.key !in ks
    ensures RemoveKeys(s, ks) == s
  {
    if s != [] {
      assert s[0] in s;
      forall e | e in s[1..]
        ensures e.key !in ks
      {
        assert e in s;
      }
      RemoveKeysAbsent(s[1..], ks);
      assert s == [s[0]] + s[1..];
    }
  }

  /** Running `delete_query` a second time with the same query changes nothing. */
  lemma QueryIdempotent(s: seq<Entry>, query: seq<uint8>)
    requires Sorted(s) && |query| > 0
    ensures RemoveKeys(RemoveKeys(s, MatchKeys(s, query)), MatchKeys(RemoveKeys(s, MatchKeys(s, query)), query))
         == RemoveKeys(s, MatchKeys(s, query))
  {
    var r := RemoveKeys(s, MatchKeys(s, query));
    QueryMembers(s, query);
    forall e | e in r
      ensures e.key !in MatchKeys(r, query)
    {
      MatchKeysMembers(r, query, e.key);
      if e.key in MatchKeys(r, query) {
        var e' :| e' in r && e'.key == e.key && HasWindow(e'.value, query);
        HasWindowSpec(e'.value, query);
      }
    }
    RemoveKeysAbsent(r, MatchKeys(r, query));
  }

  // ---------------------------------------------------------------------------
  // The operations
  // ---------------------------------------------------------------------------

  /** `delete_last`: delete the entry the cursor finds last, if there is one. */
  method DeleteLast(db: Bucket)
    requires db.Valid()
    modifies db
    ensures db.Valid() && db.sequence == old(db.sequence)
    ensures old(db.items) == [] ==> db.items == []
    ensures old(db.items) != [] ==> db.items == old(db.items)[..|old(db.items)| - 1]
  {
    var key: Option<seq<uint8>> := None;
    if |db.items| > 0 {
      key := Some(db.items[|db.items| - 1].key);
    }
    if key.Some? {
      RemoveLastKey(db.items);
      db.Delete(key.value);
    }
  }

  /**
   * `delete`: delete the key of the id on each line. A line without a valid id
   * ends the transaction uncommitted, so none of the batch takes effect.
   */
  method DeleteLines(db: Bucket, lines: seq<string>) returns (r: Result<()>)
    requires db.Valid()
    modifies db
    ensures db.Valid() && db.sequence == old(db.sequence)
    ensures ParseIds(lines).Ok? ==> r == Ok(()) && db.items == RemoveKeys(old(db.items), ItobAll(ParseIds(lines).value))
    ensures ParseIds(lines).Err? ==> r == Err(ParseIds(lines).error) && db.items == old(db.items)
  {
    var savedItems, savedSequence := db.items, db.sequence;
    ghost var rs := Extracted(lines);
    ghost var ids: seq<uint64> := [];
    RemoveKeysNone(db.items);
    assert rs[..0] == [];
    for j := 0 to |lines|
      invariant db.Valid() && db.sequence == savedSequence
      invariant Collect(rs[..j]) == Ok(ids)
      invariant db.items == RemoveKeys(savedItems, ItobAll(ids))
    {
      var id := ExtractId(lines[j]);
      ExtractedAt(lines, j);
      if id.Err? {
        CollectFailsAt(rs, j, ids);
        db.Rollback(savedItems, savedSequence);
        return Err(id.error);
      }
      CollectSnoc(rs[..j], rs[j], ids);
      PrefixSnoc(rs, j + 1);
      RemoveKeysSnoc(savedItems, ItobAll(ids), Itob(id.value));
      ItobAllSnoc(ids, id.value);
      db.Delete(Itob(id.value));
      ids := ids + [id.value];
    }
    FullPrefix(rs);
    r := Ok(());
  }

  /** `wipe`: collect every key in cursor order, then delete them all; the counter stays. */
  method Wipe(db: Bucket)
    requires db.Valid()
    modifies db
    ensures db.Valid() && db.sequence == old(db.sequence)
    ensures db.items == []
  {
    var keys: seq<seq<uint8>> := [];
    var i := 0;
    while i < |db.items|
      invariant i <= |db.items|
      invariant keys == Keys(db.items[..i])
    {
      assert db.items[..i + 1] == db.items[..i] + [db.items[i]];
      keys := keys + [db.items[i].key];
      i := i + 1;
    }
    RemovePrefixKeys(db.items, |db.items|);
    DeleteKeys(db, keys);
  }

  /**
   * `delete_query`: refuse an empty query; otherwise collect, in cursor order,
   * the key of every entry whose payload contains the query bytes, then delete them.
   */
  method DeleteQuery(db: Bucket, query: seq<uint8>) returns (r: Result<()>)
    requires db.Valid()
    modifies db
    ensures db.Valid() && db.sequence == old(db.sequence)
    ensures query == [] ==> r == Err(Custom(NO_QUERY)) && db.items == old(db.items)
    ensures query != [] ==> r == Ok(()) && db.items == RemoveKeys(old(db.items), MatchKeys(old(db.items), query))
  {
    if |query| == 0 {
      return Err(Custom(NO_QUERY));
    }
    var keys: seq<seq<uint8>> := [];
    var i := 0;
    while i < |db.items|
      invariant i <= |db.items|
      invariant keys == MatchKeys(db.items[..i], query)
    {
      var e := db.items[i];
      assert db.items[..i + 1][..i] == db.items[..i] && db.items[..i + 1][i] == e;
      if HasWindow(e.value, query) {
        keys := keys + [e.key];
      }
      i := i + 1;
    }
    assert db.items[..|db.items|] == db.items;
    DeleteKeys(db, keys);
    r := Ok(());
  }
}
