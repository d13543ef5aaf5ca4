# rust-clippy core, modelled in Dafny

rust-clippy is a clipboard-history manager. It keeps every copied payload in
one bucket of an embedded key/value store (`nut`). Each entry's key is the
8-byte big-endian encoding of a `u64` id that the bucket's sequence counter
hands out. The model covers:

- `store`, with its de-duplication and length trimming;
- the four mutators `delete_last`, `delete` (by id lines), `wipe` and `delete_query`;
- `list`, the one-line-per-entry listing, newest first;
- `decode`, which returns the payload of an id;
- the shared helpers: `itob`/`btoi`/`u64_to_be_bytes`, `cut` and `extract_id`.

Modules, one per source file:

- `error.dfy`, module `Errors`: the error values and a `Result` usable with `:-`.
- `common.dfy`, module `Common` (`src/common.rs`):
  - the big-endian codec and its round trips;
  - the byte-wise key order, which agrees with numeric order;
  - decimal text and `u64` parsing, as Rust's `parse::<u64>` does it (a leading `+` is accepted);
  - `cut` and `extract_id`.
- `bucket.dfy`, module `Nut`: the slice of the store the core uses.
  - One bucket is a `class Bucket` with its entries in cursor (key) order (`items`) and its counter (`sequence`).
  - It has `put`, `delete`, `next_sequence` and abandoning a transaction (`Rollback`).
  - `RemoveKeys` and `Upsert` are the specification functions of deletion and insertion, with their lemmas.
- `store.dfy`, module `Store` (`src/store.rs`):
  - `Deduplicate` and `TrimLength` are methods with the source's loops.
  - `Store` is the whole transaction.
  - The specification functions `Deduped`, `Trimmed` and `Stored` carry the lemmas of what a store leaves behind.
- `delete.dfy`, module `Delete` (`src/delete.rs`): the four mutators as methods.
  - Each is proved against a specification function: `ParseIds`, `MatchKeys` or `RemoveKeys`.
  - `HasWindow` is proved equal to "the query occurs somewhere in the payload".
- `list.dfy`, module `List` (`src/list.rs`):
  - `trunc`, and the text preview (trim, collapse whitespace, truncate with `…`).
  - The image preview line is built from values that an image-probing oracle supplies.
  - The listing loop, with its ordering and line-splitting properties.
- `decode.dfy`, module `Decode` (`src/decode.rs`): `decode` as a function of the bucket contents and the id text.

A write transaction that fails part-way is not committed. The model returns the bucket to the state the transaction began from.

## Model

| member | source | states |
|---|---|---|
| Common.Itob | src/common.rs:9-13 | the encoding of an id is exactly 8 bytes |
| Common.ItobIsBeBytes | src/common.rs:9-21 | `itob` and `u64_to_be_bytes` produce the same bytes for every id |
| Common.Btoi | src/common.rs:15-17 | the id read from a key is the one whose big-endian bytes are the key's first 8 bytes |
| Common.U64ToBeBytes | src/common.rs:19-21 | the 8 big-endian bytes of v read back as v |
| Common.ItobRoundTrip | src/common.rs:9-17 | `btoi(itob(v)) == v` for every `u64` |
| Common.BtoiRoundTrip | src/common.rs:9-17 | every 8-byte key is the encoding of the id `btoi` reads from it |
| Common.ItobOrder | src/common.rs:9-13 | ids compare as their keys compare byte-wise (the cursor order); distinct ids have distinct keys |
| Common.LexTransitive | src/common.rs:9-13 | the byte-wise key order is transitive |
| Common.LexTotal | src/common.rs:9-13 | any two distinct keys are ordered one way or the other |
| Common.Decimal | src/common.rs:52-54 | the decimal text of an id is non-empty and made of digits only |
| Common.ParseU64 | src/common.rs:52-54 | `parse::<u64>` accepts only digits, with at most one leading `+` |
| Common.ParseDecimal | src/common.rs:52-54 | parsing the decimal text of n gives n when n fits in a `u64`, and fails otherwise |
| Common.Find | src/common.rs:36 | the found index is the first occurrence of the separator; no index means the separator does not occur |
| Common.Cut | src/common.rs:35-43 | the part before contains no separator; with a separator, the input is before + separator + after; without one, the input comes back whole with an empty rest and `false` |
| Common.CutFirst | src/common.rs:35-43 | cutting before + separator + after, with no separator in before, gives exactly (before, after, true) |
| Common.ExtractId | src/common.rs:45-55 | the error "input not prefixed with id" occurs exactly when the input is empty or starts with a tab; every other error is "converting id" |
| Common.ExtractIdField | src/common.rs:45-55 | the id is parsed from the text before the first tab, or from the whole input when it has no tab |
| Common.ExtractIdListed | src/common.rs:45-55 | the decimal text of an id, alone or followed by a tab and any text, extracts to that id |
| Nut.Bucket.constructor | src/store.rs:65 | a new bucket is empty, with its counter at zero |
| Nut.Bucket.Put | src/store.rs:72 | `put` stores the value under the key, replacing an existing entry; entries stay in key order |
| Nut.Bucket.Delete | src/delete.rs:43 | `delete` removes only the entry under the key; an absent key changes nothing |
| Nut.Bucket.NextSequence | src/store.rs:70 | the counter advances by one and its new value is returned; at the largest `u64` it reports an error and nothing changes |
| Nut.Bucket.Rollback | src/store.rs:61-76 | an uncommitted transaction leaves the bucket as it began |
| Nut.Lookup | src/decode.rs:30 | `get` yields a value only when an entry with that key and value exists; no value means no entry has the key |
| Nut.DeleteKeys | src/store.rs:150-152 | deleting the collected keys one by one removes exactly the entries under those keys |
| Nut.RemoveKeysMembers | src/store.rs:150-152 | an entry survives deletion of some keys exactly when its key is not among them |
| Nut.RemoveKeysSorted | src/store.rs:150-152 | deleting keys keeps the entries in key order |
| Nut.RemoveKeysIdempotent | src/delete.rs:64-66 | deleting the same keys twice is the same as deleting them once |
| Nut.RemovePrefixKeys | src/store.rs:101-125 | deleting the keys of the oldest t entries leaves exactly the remaining newer entries |
| Nut.RemoveLastKey | src/delete.rs:16-26 | deleting the key of the newest entry leaves all the older entries |
| Nut.LookupSorted | src/decode.rs:30 | in a key-ordered bucket, looking up a present key yields the value stored under it |
| Nut.UpsertMembers | src/store.rs:72 | after `put`, the entries are the new one plus every old entry with a different key |
| Nut.UpsertSorted | src/store.rs:72 | `put` keeps the entries in key order |
| Nut.UpsertAppend | src/store.rs:70-72 | putting a key larger than every key present appends the entry at the end |
| Nut.SortedUnique | src/store.rs:105 | two key-ordered entry lists with the same members are equal |
| Store.WindowShape | src/store.rs:131-148 | `deduplicate` inspects the newest `max_dedupe_search + 1` entries, or all of them if there are fewer |
| Store.KeysWithValueMembers | src/store.rs:139-145 | the collected keys are exactly the keys of inspected entries whose value equals the input |
| Store.DedupedMembers | src/store.rs:130-155 | after de-duplication, an entry remains exactly when it is not an inspected entry equal to the input; order is kept |
| Store.Deduplicate | src/store.rs:130-155 | the loop walks back from the newest entry and the deletions leave `Deduped` of the old contents; the counter is unchanged |
| Store.TrimmedKeepsNewest | src/store.rs:82-128 | trimming keeps exactly the newest `max_items` entries, or everything if there are no more than that |
| Store.TrimLength | src/store.rs:82-128 | counting, then collecting the oldest `count - max_items` keys and deleting them, leaves `Trimmed` of the old contents |
| Store.NewKeyIsLargest | src/store.rs:70-72 | the key of the next id encodes `sequence + 1` and is larger than every key present |
| Store.StoredIsNewest | src/store.rs:67-74 | a store is the newest `max_items` entries of the de-duplicated contents with the new entry appended |
| Store.StoredShape | src/store.rs:67-74 | after a store the entries are in key order and at most `max_items`; when `max_items >= 1` the newest entry is the input under the new id |
| Store.StoredMembers | src/store.rs:67-74 | after a store every key is an issued id, and every entry is the new one or an old one that was not an inspected duplicate |
| Store.StoredOnce | src/store.rs:130-148 | when the search window covers the whole bucket, the new entry is the only one holding the input |
| Store.Store | src/store.rs:39-79 | an input over 5 MB or made only of ASCII whitespace changes nothing and succeeds; a counter overflow fails with nothing changed; otherwise the counter advances by one and the entries become `Stored` |
| Store.SkippedSpec | src/store.rs:49-57 | empty input and input over 5 MB are skipped; input within the limit holding a byte that is not ASCII whitespace is stored; vertical tab is not ASCII whitespace, form feed is |
| Delete.DeleteLast | src/delete.rs:11-30 | an empty bucket stays empty; otherwise exactly the newest entry goes; the counter is unchanged |
| Delete.ParseIdsFirstError | src/delete.rs:38-41 | when line j is the first line naming no id, the whole input fails with line j's `extract_id` error, whatever the later lines hold |
| Delete.CollectErrExtends | src/delete.rs:38-41 | once a line has failed, reading further lines does not change the error (the `?` leaves the loop) |
| Delete.ParseIdsAll | src/delete.rs:38-41 | lines that each extract to an id parse as the list of those ids, in order |
| Delete.DeleteLines | src/delete.rs:32-48 | when every line names an id, exactly those ids' entries are removed; the first bad line's error is returned with nothing changed; the counter is unchanged |
| Delete.ItobAllMembers | src/delete.rs:43 | a key is among the keys of the ids exactly when the id it encodes is among the ids |
| Delete.DeletedMembers | src/delete.rs:32-48 | after deleting ids, an entry remains exactly when its id is not among them; order is kept |
| Delete.ParseListing | src/delete.rs:38-41 | the lines `list` writes parse as the listed ids, newest first |
| Delete.DeleteListing | src/delete.rs:32-48 | the lines of the listing parse without error, and deleting their ids removes every entry |
| Delete.DeleteWrittenListing | src/delete.rs:32-48 | with well-behaved oracles, the written output of `list`, split into lines, parses without error, and deleting its ids removes every entry |
| Delete.Wipe | src/delete.rs:50-71 | every entry is removed; the counter is unchanged |
| Delete.HasWindowSpec | src/delete.rs:88 | some window of the payload equals the query exactly when the query occurs at some position; a payload shorter than the query has no match |
| Delete.HasWindowFound | src/delete.rs:88 | a match yields a position where the query occurs |
| Delete.HasWindow | src/delete.rs:88 | a payload shorter than the query never matches; one that starts or ends with the query always does |
| Delete.MatchKeysMembers | src/delete.rs:86-93 | the collected keys are exactly the keys of entries whose payload contains the query |
| Delete.QueryMembers | src/delete.rs:73-101 | after `delete_query`, an entry remains exactly when its payload does not contain the query; shorter payloads always remain; order is kept |
| Delete.QueryIdempotent | src/delete.rs:73-101 | a second `delete_query` with the same query changes nothing |
| Delete.DeleteQuery | src/delete.rs:73-101 | an empty query fails with "please provide a query" and no change; otherwise the entries whose payload contains the query are removed; the counter is unchanged |
| List.Trunc | src/list.rs:9-16 | text of at most `width` characters is returned unchanged; longer text becomes its first `width` characters followed by the suffix; the result never exceeds `width` plus the suffix |
| List.TrimStart | src/list.rs:60 | what remains after trimming the start is no longer than the input and does not start with whitespace |
| List.TrimEnd | src/list.rs:60 | what remains after trimming the end is no longer than the input and does not end with whitespace |
| List.Trim | src/list.rs:60 | the trimmed text is no longer than the input and has whitespace at neither end |
| List.TrimStartSpec | src/list.rs:60 | trimming the start drops exactly the leading whitespace |
| List.TrimEndSpec | src/list.rs:60 | trimming the end drops exactly the trailing whitespace |
| List.SplitWhitespace | src/list.rs:62-63 | `split_whitespace` yields non-empty words that contain no whitespace |
| List.Join | src/list.rs:64-65 | no words give the empty text; otherwise the length is the words' characters plus one separator between each two words (the content for the separator " " is fixed by `JoinNormalized` and `SplitJoin`) |
| List.JoinNormalized | src/list.rs:62-65 | words without whitespace joined by single spaces form text with no whitespace at either end and only single spaces between words; with at least one word it is non-empty |
| List.SplitJoin | src/list.rs:62-65 | joining such words with one space and splitting again gives back the same words |
| List.Clean | src/list.rs:59-65 | the cleaned preview has no leading or trailing whitespace, and each whitespace in it is a single space between two non-whitespace characters |
| List.CleanWords | src/list.rs:59-65 | cleaning keeps the words of the trimmed text, in order |
| List.CleanIdempotent | src/list.rs:59-65 | cleaning already-cleaned text changes nothing |
| List.TextPreviewLine | src/list.rs:59-68 | a text line starts with the id and a tab and extracts back to the id; it holds no newline; its length is bounded by the id, the width and the ellipsis; short text appears cleaned and whole |
| List.TwoWordsPreview | src/list.rs:59-68 | when the two words and one space fit in the width, two words separated by any run of whitespace are shown as the id, a tab and the two words joined by one space |
| List.TextPreviewExample | src/list.rs:59-68 | id 5 with the text "hello   world" and width 100 gives the line "5\thello world" |
| List.TextPreview | src/list.rs:58-68 | the text line starts with the id and a tab, and is at most the id, the tab, `width` characters and the ellipsis long |
| List.ImagePreview | src/list.rs:46-55 | the image line starts with the id, a tab and "[[ binary data ", and ends with " ]]" |
| List.Preview | src/list.rs:31-69 | every preview line starts with the id and a tab; a text line is bounded by the preview width; an image line ends with " ]]" |
| List.ImagePreviewLine | src/list.rs:46-55 | when the size text and the format name hold no line break, the image line holds none |
| List.PreviewNoNewline | src/list.rs:31-69 | with well-behaved oracles (or a payload that is not an image) no preview line holds a line break |
| List.PreviewId | src/list.rs:31-69 | both the image and the text line extract back to the entry's id |
| List.ListLines | src/list.rs:71-94 | the listing has one line per entry |
| List.ListLinesIds | src/list.rs:81-91 | line i of the listing extracts to the id of the i-th newest entry |
| List.ListIdsDecrease | src/list.rs:81-91 | the listed ids strictly decrease: newest first |
| List.SplitWritten | src/list.rs:88-89 | lines without newlines, each written with a trailing newline, split back into the same lines |
| List.ListTextLines | src/list.rs:71-94 | when no entry is an image, the output splits back into exactly one line per entry |
| List.ListLinesRead | src/list.rs:71-94 | with well-behaved oracles, the output of every listing splits back into exactly one line per entry |
| List.List | src/list.rs:71-94 | the backward cursor loop writes each entry's preview line and a newline, newest first |
| Decode.Decode | src/decode.rs:6-38 | a bad id text gives the `extract_id` error; a found key gives the bytes stored under it; a missing key gives "key not found: " and the id |
| Decode.DecodeExplicitId | src/decode.rs:12-18 | an explicit id string is used whatever stdin holds, and piping the same text on stdin gives the same result |
| Decode.DecodeFound | src/decode.rs:28-31 | over key-ordered contents, a present id yields exactly its stored payload |
| Decode.DecodeAfterStore | src/decode.rs:6-38 | when `max_items >= 1`, decoding the id that `store` just assigned returns the stored input, whatever stdin holds (with `max_items == 0` the new entry is trimmed away at once) |
| Decode.DecodeListed | src/decode.rs:6-38 | decoding any line of the listing returns the payload of the entry it shows |

## Left out

- The command-line front end and its dispatch (`src/main.rs`), and the error type's `Display` (`src/error.rs`, `src/lib.rs`): they are not part of this model.
- The storage engine itself: the B-tree, pages and commit. A bucket is only its ordered entries and its counter.
- Backend failures other than counter overflow: errors from opening the database, beginning a transaction, reading stdin or the cursor do reach the core and are passed on by `?`, but the model does not produce them; only the counter-overflow error is modelled.
- Nut.Bucket.NextSequence: the source does not show what the store does with a counter at the largest `u64`. The model reports an error and the transaction is abandoned.
- Reading stdin and writing stdout, and their I/O errors: the input bytes, the id text and the delete lines are parameters. `list` returns its output as a string.
- `delete` reads its lines through `BufRead::lines`. The model takes the lines already split, and does not model its stripping of `\r`.
- Store.Store: the input lengths of `read_to_end` and `MAX_SIZE` are unbounded integers. The 5 MB bound is compared exactly as in the source.
- The `seen` and `count` counters of `deduplicate` and `trim_length` are unbounded naturals. Overflowing a `u64` via a bucket of 2^64 entries is not modelled.
- Image probing (`ImageReader`), `String::from_utf8_lossy` and `size_str` are supplied by the `Oracles` value. The model does not compute image formats, dimensions, UTF-8 replacement characters or the `f64` rounding of sizes. The layout of the image line is modelled. That the size text and the lower-cased format name hold no line break is the assumption `ValidOracles` names; the listing reads back line by line under it.
- Entries without a value (nested buckets, which `unwrap_or(&[])` maps to an empty payload) and cursor items without a key: every modelled entry has both. The `item.key.ok_or` error in `list` is therefore never raised.
- Delete.DeleteQuery: the query is taken as its UTF-8 bytes, which is what `as_bytes` yields. UTF-8 encoding is not modelled.
- `value.windows(q.len()).any(...)` is modelled as the recursive function `HasWindow`, not as an iterator.
- Common.ParseU64: `str::parse::<u64>` is modelled on ASCII digits with an optional leading `+`. Overflow returns the "converting id" error as in Rust, and no other syntax is accepted.
- Common.ExtractId: the `&str` byte-offset slicing of `cut` is modelled on a sequence of characters. The id part is the same either way because the tab is one byte.
