# querystring_tiny in Dafny

A model of the two byte codecs of the Rust crate `querystring_tiny`, with proofs of their properties.

- `PercentCoded` (src/percentcoding.rs) percent-codes bytes as section 2.1 of RFC 3986 describes.
  `encode` leaves the unreserved bytes of section 2.3 of RFC 3986 as they are. It writes every
  other byte as `%` and two upper-case hex digits. `decode` accepts hex digits of either case. It
  fails with `PercentEncoding` on a truncated escape or a non-hex digit.
- `QueryString` (src/querystring.rs) is a map from raw byte keys to raw byte values, kept in a
  `BTreeMap`. `decode` splits its input on `&`, splits each component at its first `=`, and
  inserts the pair unless the key is empty, so a later duplicate wins. `encode` writes the entries
  in ascending key order: `key`, or `key=value` when the value is not empty, with one `&` between
  neighbours. Neither operation percent-decodes anything, turns `+` into a space or strips a
  leading `?`.

Files:

- `errors.dfy` (module `Errors`): the crate's error enum and a `Result`.
- `bytes.dfy` (module `Bytes`): bytes as integers `0..255`.
- `percentcoding.dfy` (module `PercentCoding`):
  - specification functions `Encoded` and `Decoded`;
  - the loops of `encode` and `decode` as methods proved equal to them;
  - the nibble and byte helpers with their inverse properties;
  - the round trip and the failure cases.
- `sortedmap.dfy` (module `SortedMap`): the `BTreeMap` as a strictly sorted association list.
  - Keys are ordered by the lexicographic byte order that `Ord` gives `Vec<u8>`.
  - It provides `Lookup`, `Insert` and the last-write-wins fold that `collect()` performs.
- `querystring.dfy` (module `QueryStrings`):
  - specification functions `Decoded` and `Encoded`, and reference definitions (`Split`/`Pairs`, `Join`) proved equal to them;
  - the class `QueryString`, whose `fields` hold the map's entries in iteration order;
  - the loops of `decode` and `encode` as methods;
  - the round trip.
- `querystring_examples.dfy` (module `QueryStringExamples`): the decoding rules the crate
  documents, and the cases of its tests. Each is stated for every key and value of the shape the
  example shows.

Where the crate's documentation describes the store as holding only non-empty keys, the code
differs: `set` stores an empty key too (src/querystring.rs:61). The model follows the code.
`EmptyKeyIsLost` and `EmptyKeyValueIsLost` show how such a key fails to survive `encode` and
`decode`. That is why `RoundTrip` asks for non-empty keys.

## Model

| member | source | states |
|---|---|---|
| PercentCoding.AllowedCharsAreUnreserved | src/percentcoding.rs:14 | a byte is in `ALLOWED_CHARS` exactly when it is an unreserved character of RFC 3986 (letters, digits, `-._~`) |
| PercentCoding.DecodeNibble | src/percentcoding.rs:42-49 | succeeds exactly on `0-9`, `a-f`, `A-F`, with a value below 16; otherwise fails with `PercentEncoding` |
| PercentCoding.DecodeNibbleIgnoresCase | src/percentcoding.rs:45-46 | a lower-case hex letter has the same value as its upper-case form |
| PercentCoding.EncodeNibble | src/percentcoding.rs:74-80 | yields an upper-case hex digit, and `decode_nibble` turns it back into the nibble |
| PercentCoding.DecodeByte | src/percentcoding.rs:51-53 | succeeds exactly when both digits are hex; the result's high nibble is the first digit's value and its low nibble the second's; errors are `PercentEncoding` |
| PercentCoding.EncodeByte | src/percentcoding.rs:82-85 | yields two upper-case hex digits that `decode_byte` turns back into the byte |
| PercentCoding.EncodeOne | src/percentcoding.rs:61-66 | a byte is written as itself exactly when it is unreserved; any other byte becomes `%` and two upper-case hex digits that `decode_byte` turns back into it |
| PercentCoding.Encoded | src/percentcoding.rs:56-72 | the encoding of n bytes has between n and 3n bytes |
| PercentCoding.Decoded | src/percentcoding.rs:24-40 | a successful decoding is no longer than its input; every failure is `PercentEncoding` |
| PercentCoding.Decode | src/percentcoding.rs:24-40 | the loop succeeds exactly when `Decoded` does, with the same bytes and the same error |
| PercentCoding.Encode | src/percentcoding.rs:56-72 | the loop over `buf[..buf_len]` writes exactly `Encoded` of the data |
| PercentCoding.EncodedPrefixStep | src/percentcoding.rs:59-70 | one turn of the loop appends the next byte's encoding to the encoding of the bytes before it |
| PercentCoding.EncodedConcat | src/percentcoding.rs:59-70 | each byte is encoded on its own, so encoding distributes over concatenation |
| PercentCoding.EncodedLength | src/percentcoding.rs:56-71 | the output length is n plus two per escaped byte |
| PercentCoding.EncodedIsIdentityIffAllUnreserved | src/percentcoding.rs:59-69 | encoding leaves data unchanged if and only if every byte is unreserved |
| PercentCoding.DecodedPlain | src/percentcoding.rs:27-37 | input without `%` decodes to itself, whatever its bytes |
| PercentCoding.DecodedConcat | src/percentcoding.rs:27-38 | a prefix that decodes on its own contributes its decoding in front of the rest's |
| PercentCoding.TruncatedEscapeFails | src/percentcoding.rs:31-32 | a `%` followed by fewer than two bytes fails with `PercentEncoding` |
| PercentCoding.BadHexDigitFails | src/percentcoding.rs:29-34 | an escape with a digit outside `0-9a-fA-F` fails with `PercentEncoding` |
| PercentCoding.ValidEscapeDecodes | src/percentcoding.rs:29-37 | a valid `%HH` contributes the one byte `decode_byte` computes |
| PercentCoding.DecodedEncodeOne | src/percentcoding.rs:59-69 | the encoding of one byte decodes back to that byte, whatever follows |
| PercentCoding.DecodeEncodeRoundTrip | src/percentcoding.rs:24-72 | decoding the encoding of any bytes succeeds and gives them back |
| PercentCoding.LowerCaseEscapeIsNotReproduced | src/percentcoding.rs:42-80 | `%2f` decodes to `/`, which encodes as `%2F`: decoding and then re-encoding is not the identity |
| PercentCoding.MalformedEscapesFail | src/percentcoding.rs:31-33 | `%2` and `%G0` fail to decode |
| PercentCoding.UnreservedPassThrough | src/percentcoding.rs:59-69 | `abcXYZ019-._~` encodes to itself |
| PercentCoding.EncodedEscapedByte | src/percentcoding.rs:62-66 | a byte outside the unreserved set encodes as `%`, then its high nibble's digit, then its low nibble's digit |
| PercentCoding.VolumesExample | tests/percentencoding.rs:22-26 | `/Volumes/Data/\xF0\x9F\x8D\x86\x0A` encodes to `%2FVolumes%2FData%2F%F0%9F%8D%86%0A`, which decodes back to it |
| SortedMap.Below | src/querystring.rs:23 | the `Ord` of `Vec<u8>`: only a non-empty key has a key before it, a key's first byte is at most the first byte of any key after it, and a proper prefix comes before the longer key |
| SortedMap.BelowIrreflexive | src/querystring.rs:23 | no key is ordered before itself |
| SortedMap.BelowTransitive | src/querystring.rs:23 | the lexicographic key order is transitive |
| SortedMap.BelowTotal | src/querystring.rs:23 | of two different keys, one comes first |
| SortedMap.BelowAsymmetric | src/querystring.rs:23 | two keys are never each before the other |
| SortedMap.SortedBelow | src/querystring.rs:23 | in the map's entry list every key is below every later key |
| SortedMap.SortedUnique | src/querystring.rs:23 | a sorted entry list holds each key at most once |
| SortedMap.SortedParts | src/querystring.rs:23 | both halves of a sorted entry list are sorted |
| SortedMap.Lookup | src/querystring.rs:53 | `get` is `None` exactly when the key is absent; a found value is stored under that key |
| SortedMap.LookupSorted | src/querystring.rs:53 | in the map, `get` of a stored key finds the value stored beside it |
| SortedMap.Insert | src/querystring.rs:61 | `insert` keeps keys sorted and unique, adds the key, maps it to the new value, leaves every other key's value alone, and adds no other entry |
| SortedMap.InsertBelow | src/querystring.rs:61 | inserting a key below every key puts the entry first |
| SortedMap.InsertPast | src/querystring.rs:61 | past a key below the new one, `insert` keeps that entry first and goes on in the rest, which stays sorted |
| SortedMap.InsertAbove | src/querystring.rs:23 | inserting a key above every key appends the entry at the end |
| SortedMap.InsertAll | src/querystring.rs:97 | inserting pairs one after another keeps the map sorted; its keys are the old keys plus every key the pairs name |
| SortedMap.FromPairs | src/querystring.rs:96-99 | collecting pairs gives a sorted map |
| SortedMap.InsertAllLastWins | src/querystring.rs:97 | after inserting pairs in order, a key some pair names has the value of its last pair; other keys keep theirs |
| SortedMap.FromPairsLastWins | src/querystring.rs:96-99 | the collected map holds, for every key, the value of its last pair, and nothing for keys no pair names |
| SortedMap.InsertAllSnoc | src/querystring.rs:97 | inserting one more pair at the end equals inserting it into the map built from the others |
| SortedMap.FromPairsThenInsert | src/querystring.rs:96-99 | collecting pairs equals setting each pair in order on an empty map |
| QueryStrings.Find | src/querystring.rs:36-37 | the position of the first delimiter, or the length when there is none |
| QueryStrings.SplitFirst | src/querystring.rs:36-37 | one `take_while` gives the part before the first delimiter, which holds no delimiter, and the rest after the consumed delimiter; without a delimiter it takes everything |
| QueryStrings.SplitFirstIs | src/querystring.rs:36-37 | a delimiter-free head and a tail that rebuild the input are exactly what `SplitFirst` returns |
| QueryStrings.Add | src/querystring.rs:40-43 | inserting a parsed pair, or not when its key is empty, keeps the map sorted |
| QueryStrings.DecodeFrom | src/querystring.rs:33-44 | the decoding loop keeps the map sorted |
| QueryStrings.Decoded | src/querystring.rs:31-46 | decoding gives a sorted map |
| QueryStrings.DecodeComponent | src/querystring.rs:34-43 | one component, last or ended by `&`, is split at its first `=` and inserted unless its key is empty, and decoding goes on after the `&` |
| QueryStrings.DecodeFromIsReference | src/querystring.rs:33-44 | the loop equals "split on every `&`, split each part at its first `=`, insert in order the pairs with a non-empty key" |
| QueryStrings.DecodedIsReference | src/querystring.rs:31-46 | `decode` equals collecting those pairs into a map |
| QueryStrings.DecodeFromWellFormed | src/querystring.rs:36-43 | the loop only adds entries whose key is non-empty and free of `&` and `=`, and whose value is free of `&` |
| QueryStrings.DecodedWellFormed | src/querystring.rs:31-46 | every decoded key is non-empty and free of `&` and `=`; every value is free of `&` |
| QueryStrings.EntryText | src/querystring.rs:75-79 | one entry's text holds its key and value, and is empty exactly when both are |
| QueryStrings.EncodeFrom | src/querystring.rs:65-82 | the loop never shortens the output, and once something is written each further entry adds at least its `&` |
| QueryStrings.Encoded | src/querystring.rs:65-82 | when the first entry writes something, every later entry adds at least one byte, its `&` |
| QueryStrings.EncodeStep | src/querystring.rs:68-80 | one turn of the loop writes the entry's text after a `&`, or without one when nothing was written yet |
| QueryStrings.EncodeFromAfterText | src/querystring.rs:68-80 | once something is written, each further entry is written after one `&` |
| QueryStrings.EncodedIsJoin | src/querystring.rs:65-82 | when the first entry writes something (a non-empty key or a non-empty value), `encode` writes each entry as `key` or `key=value`, in order, with one `&` between neighbours and none before or after |
| QueryStrings.JoinCons | src/querystring.rs:70-79 | between the first entry's text and the rest there is exactly one `&` |
| QueryStrings.EmptyHead | src/querystring.rs:70-76 | a leading entry with empty key and value writes nothing, so the next entry gets no `&` before it |
| QueryStrings.EncodedSorted | src/querystring.rs:65-82 | for every sorted store, including one holding the empty key from `set`, `encode` writes the joined entries, leaving out only a first entry whose key and value are both empty |
| QueryStrings.EntryTextDecodes | src/querystring.rs:75-79 | an entry's text holds no `&`, and splitting it at its first `=` gives the entry back |
| QueryStrings.DecodeJoin | src/querystring.rs:65-82 | decoding the joined texts of well-formed entries that sort after a map appends them to it |
| QueryStrings.RoundTrip | src/querystring.rs:31-82 | decoding the encoding of a sorted map gives it back when keys are non-empty and free of `&` and `=` and values are free of `&` |
| QueryStrings.ReencodeIsStable | tests/querystring.rs:27-30 | decoding, encoding and decoding again gives the first decoding |
| QueryStrings.PairSplits | src/querystring.rs:37-38 | a key and a value, joined by `=` or alone when the value is empty, form an `&`-free component that splits back into them |
| QueryStrings.DecodeStep | src/querystring.rs:34-43 | one pass of the loop turns the rest of the input into the next pair plus the input after its `&` |
| QueryStrings.NextPair | src/querystring.rs:36-38 | the key runs to the first `=` or `&`; the value runs from that `=` to the next `&`; the component ends at the input's end or at a `&` |
| QueryStrings.DecodeFields | src/querystring.rs:33-44 | the loop builds exactly `Decoded(source)` |
| QueryStrings.QueryString.constructor | src/querystring.rs:27-29 | `new` makes an empty store |
| QueryStrings.QueryString.Decode | src/querystring.rs:31-46 | `decode` always succeeds, with the fresh store holding `Decoded(source)` |
| QueryStrings.QueryString.Get | src/querystring.rs:49-54 | `None` exactly when no entry has the name; otherwise the value stored under it |
| QueryStrings.QueryString.Set | src/querystring.rs:56-62 | afterwards `get(name)` is the value; every other key's value is unchanged; the entries stay sorted |
| QueryStrings.QueryString.Encode | src/querystring.rs:65-82 | the loop writes exactly `Encoded(fields)` |
| QueryStrings.QueryString.Entries | src/querystring.rs:87-89 | `deref` and `into_iter` give the entries in ascending key order |
| QueryStrings.QueryString.FromIter | src/querystring.rs:96-99 | `from_iter` gives a fresh store holding the pairs collected in order |
| QueryStringExamples.LastBareKey | src/querystring.rs:36-38 | a last component without `=` inserts its key with an empty value |
| QueryStringExamples.FirstBareKey | src/querystring.rs:36-43 | a first component without `=` starts the map with its key and an empty value |
| QueryStringExamples.EmptyComponentSkipped | src/querystring.rs:36-43 | an empty component, as between the two `&` of `&&`, leaves the map unchanged |
| QueryStringExamples.NothingToDecode | tests/querystring.rs:54-57 | the empty input and a lone `&` decode to an empty map |
| QueryStringExamples.EncodedTwo | src/querystring.rs:68-80 | two entries with a non-empty first key are written with one `&` between their texts |
| QueryStringExamples.BareKeys | src/querystring.rs:15-18 | `key0&&key1` decodes to `key0` and `key1` with empty values |
| QueryStringExamples.BareKeysSplit | src/querystring.rs:15-18 | `key0&` followed by `&key1` decodes to both keys with empty values |
| QueryStringExamples.EmptyThenBareKey | src/querystring.rs:36-43 | after a first entry, `&key` appends the key with an empty value when it sorts above |
| QueryStringExamples.EmptyKeyDropped | src/querystring.rs:18-19 | `=value0&key1=value1&` decodes to just `key1=value1` |
| QueryStringExamples.LastDuplicateWins | src/querystring.rs:40-43 | `key=a&key=b` decodes to `key=b` |
| QueryStringExamples.FirstEqualsSplits | src/querystring.rs:37-38 | `key=a=b` decodes to the key with value `a=b` |
| QueryStringExamples.KeyOrder | src/querystring.rs:68 | `key1&key0` decodes in ascending key order and encodes as `key0&key1` |
| QueryStringExamples.TwoPairs | tests/querystring.rs:35-41 | `code=…&state=…` decodes to its two pairs, and encoding gives the input back byte for byte |
| QueryStringExamples.EmptyKeyIsLost | src/querystring.rs:70-75 | an empty key with an empty value writes nothing and swallows the next `&`, so decoding does not restore it |
| QueryStringExamples.EmptyKeyValueIsLost | src/querystring.rs:75-79 | an empty key with a value is written as `=value`, which decodes to an empty map |

## Left out

- src/error.rs: the `thiserror` derive and the display strings. `Error` keeps both variants; `QueryString` is never produced.
- src/lib.rs: module declarations, the README include and re-exports. It holds no logic.
- Trait plumbing is not modelled:
  - `Into<Vec<u8>>` and `AsRef<[u8]>` conversions: parameters are byte sequences.
  - The `Debug`, `Clone` and `Default` derives.
  - `Deref` and `IntoIterator`, which are reads of the stored bytes or entries: `PercentCoded.data` and `QueryString.Entries`.
- `PercentCoded::new` is the datatype constructor `PercentCoded(data)`. It has no contract of its own.
- `BTreeMap` internals: the map is a sorted association list, not a tree.
- `u8` arithmetic is done on integers. `<< 4 |`, `>> 4` and `& 0xF` are written as `16 * h + l`, `/ 16` and `% 16`. No wrap-around can happen, because the operands are nibbles and bytes.
- PercentCoding.EncodeNibble: the `unreachable!` panic for a nibble above 15 becomes a precondition. `encode_byte` never reaches it.
- `ALLOWED_CHARS` is written as three byte ranges and four single bytes, in the order of the source's byte string, not as a literal of 66 bytes.
- The decode loops test `i < |source|` where the Rust asks the shared iterator for `len()` or `next()`. Iterator state is an index into the input.
- tests/querystring.rs:42-53 (the seven-pair example with `+`, `lol` and `&&`) is not restated as one lemma. It is covered by:
  - `BareKeys`, `EmptyKeyDropped` and `KeyOrder` for its rules;
  - `LastDuplicateWins` and `TwoPairs`, whose values may hold any byte but `&`, for its `+`;
  - `ReencodeIsStable` for the re-encoding check.
- QueryStrings.RoundTrip: holds only for non-empty keys free of `&` and `=` and values free of `&`, because `set` can store entries that encoding does not preserve.
- Allocation, `Vec` growth and memory use.
