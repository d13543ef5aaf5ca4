/**
 * The lookup path: take the id text (an explicit argument, or all of
 * standard input), parse the id before the first tab, and return the payload
 * stored under that id's key, read in a read-only transaction.
 */
module Decode {
  import opened Errors
  import opened Common
  import opened Nut
  import opened Store
  import opened List

  const NOT_FOUND: string := "key not found: "

  /** The text `decode` parses: the explicit id string if given, else what stdin held. */
  function IdText(inputStr: Option<string>, stdin: string): string {
    if inputStr.Some? then inputStr.value else stdin
  }

  /**
   * `decode` against the bucket's contents items: a malformed id gives the
   * `extract_id` error; a present key gives its stored bytes; an absent key
   * gives "key not found: " and the id.
   */
  function Decode(items: seq<Entry>, inputStr: Option<string>, stdin: string): (r: Result<seq<uint8>>)
    ensures ExtractId(IdText(inputStr, stdin)).Err? ==> r == Err(ExtractId(IdText(inputStr, stdin)).error)
    ensures ExtractId(IdText(inputStr, stdin)).Ok? && r.Ok? ==>
      Entry(Itob(ExtractId(IdText(inputStr, stdin)).value), r.value) in items
    ensures ExtractId(IdText(inputStr, stdin)).Ok? && r.Err? ==>
      r.error == Custom(NOT_FOUND + Decimal(ExtractId(IdText(inputStr, stdin)).value))
      && forall e :: e in items ==> e.key != Itob(ExtractId(IdText(inputStr, stdin)).value)
  {
    var id :- ExtractId(IdText(inputStr, stdin));
    match Lookup(items, Itob(id))
    case Some(value) => Ok(value)
    case None => Err(Custom(NOT_FOUND + Decimal(id)))
  }

  /**
   * An explicit id string is used whatever stdin holds, and piping the same
   * text on stdin instead gives the same result.
   */
  lemma DecodeExplicitId(items: seq<Entry>, text: string, stdin: string, stdin': string)
    ensures Decode(items, Some(text), stdin) == Decode(items, Some(text), stdin')
    ensures Decode(items, Some(text), stdin) == Decode(items, None, text)
  {
  }

  /** Over sorted contents, a present key yields exactly the bytes stored under it. */
  lemma DecodeFound(items: seq<Entry>, inputStr: Option<string>, stdin: string, id: uint64, value: seq<uint8>)
    requires Sorted(items) && ExtractId(IdText(inputStr, stdin)) == Ok(id)
    requires Entry(Itob(id), value) in items
    ensures Decode(items, inputStr, stdin) == Ok(value)
  {
    LookupSorted(items, Itob(id), value);
  }

  /** Decoding the id `store` just assigned returns the stored payload, whatever stdin holds. */
  lemma DecodeAfterStore(s: seq<Entry>, sequence: uint64, input: seq<uint8>, maxDedupeSearch: nat, maxItems: nat, stdin: string)
    requires Sorted(s) && KeysIssued(s, sequence) && sequence < U64_MAX && maxItems >= 1
    ensures Decode(Stored(s, sequence, input, maxDedupeSearch, maxItems), Some(Decimal(sequence + 1)), stdin) == Ok(input)
  {
    var r := Stored(s, sequence, input, maxDedupeSearch, maxItems);
    StoredShape(s, sequence, input, maxDedupeSearch, maxItems);
    ExtractIdListed(sequence + 1, "");
    ItobIsBeBytes(sequence + 1);
    assert r[|r| - 1] in r;
    DecodeFound(r, Some(Decimal(sequence + 1)), stdin, sequence + 1, input);
  }

  /** Decoding any line of the listing returns the payload of the entry it shows. */
  lemma DecodeListed(s: seq<Entry>, sequence: uint64, width: nat, o: Oracles, i: nat, stdin: string)
    requires Sorted(s) && KeysIssued(s, sequence) && i < |s|
    ensures Decode(s, Some(ListLines(s, width, o)[i]), stdin) == Ok(s[|s| - 1 - i].value)
  {
    var e := s[|s| - 1 - i];
    assert e in s;
    ListLinesIds(s, sequence, width, o);
    ListIdAt(s, i);
    BtoiRoundTrip(e.key);
    DecodeFound(s, Some(ListLines(s, width, o)[i]), stdin, Btoi(e.key), e.value);
  }
}
