# A verified model of a Go bencode codec

This project models the codec of a small Go package for bencoding, the serialisation format
of the "bencoding" section of BitTorrent's BEP 3. It proves properties of that model in Dafny. The package has three parts:

- **The decoder (parser.go).** It is a recursive-descent parser over a shared byte reader:
  - `Parse` peeks at the next byte and dispatches to one of `ParseInt` (`i…e`),
    `ParseByteString` (`<count>:<bytes>`), `ParseList` (`l…e`) and `ParseDictionary` (`d…e`);
  - `readFullByteString` collects a byte string's payload in reads of at most 512 bytes.
- **The encoder (encoder.go).**
  - `Encode` dispatches on a value's dynamic type to `EncodeInt`, `EncodeString`, `EncodeList`
    and `EncodeDictionary`.
  - `EncodeDictionary` writes the keys in the order `getAllKeysSorted` gives them.
- **The earlier decoder (bencode.go).**
  - `DecodeStream` only knows integers and byte strings.
  - Its `ParseByteString` reads the payload with one single `Read`.

Modules, in dependency order:

| module | file | what it holds |
|---|---|---|
| `Wrappers` | wrappers.dfy | `Option`, `Result` |
| `Ascii` | ascii.dfy | `byte`, the grammar's ASCII bytes, the first index of a byte (`bytes.IndexByte`) and `strings.HasPrefix` |
| `Decimal` | decimal.dfy | Go's 64-bit `int`, `strconv.Atoi`, `strconv.Itoa` / `%v` |
| `ByteOrder` | byteorder.dfy | byte-wise `strings.Compare`, `sort.Strings` as insertion sort, the ascending arrangement of a key set |
| `Bencode` | bencode.dfy | the value tree `Int \| Str \| List \| Dict \| Other`: the datatype `Value` stands for `BencodeCell` and the `interface{}` values it wraps (parser.go:14-16); `Other` is any dynamic type the encoder has no case for |
| `ByteReader` | byte_reader.dfy | class `Reader`: the `bufio.Reader` operations the decoders call (`Peek(1)`, `ReadByte`, `ReadBytes`, `Read`) over the unread bytes |
| `Grammar` | grammar.dfy | the decoder as pure functions from input bytes to `Parsed(value, rest) \| Fail` |
| `Parser` | parser.dfy | the methods of parser.go over a `Reader`, each proved to compute what its `Grammar` function says |
| `Draft` | draft.dfy | `DecodeStream` and the single-read `ParseByteString` of bencode.go |
| `Encoder` | encoder.dfy | the functions and loops of encoder.go, and `Encoding`, the encoding they are proved to compute |
| `EncoderFacts` | encoder_facts.dfy | when encoding fails; first bytes of encodings |
| `DecoderFacts` | decoder_facts.dfy | the integer and byte-string accept-sets, rejections, dispatch, decoded values are `Decodable` |
| `RoundTrip` | roundtrip.dfy | decoding an encoding gives the value back; the dead key-order guard; overwriting duplicate keys |
| `Scenarios` | scenarios.dfy | the inputs of bencode_test.go |

The byte source is abstract:
- `Reader.rest` is the unread input.
- `Read(buf)` delivers a count chosen by the model, anywhere from 1 up to what the buffer
  and the input allow. Readers that return short counts are therefore covered.
- After a successful production the rest of the input is exactly what the grammar leaves.
  After a failure, what is left is stated to be a suffix of what there was: the reader
  only ever consumes from the front.

Points where the code decides the behaviour against the usual reading of the bencode format
(the model follows the code):

- **`0:` is rejected** (parser.go:112). The count must be strictly positive. An empty string therefore never decodes,
  although the encoder writes it as `0:`.
- **`le` and `de` are rejected** (parser.go:34-55, parser.go:179-206). Both loops parse one child before they first
  look for `e`, so empty lists and dictionaries never decode.
- **The key-order guard never fires** (parser.go:176, parser.go:185-187). It compares against `lastIndex`, which is
  declared empty and never assigned. Keys are accepted in any order.
- **A repeated key overwrites** the earlier value (parser.go:195).
- **The length prefix is read with `strconv.Atoi`** (parser.go:111). It accepts leading zeros (`02:ab`) and a sign.
  A `+2:ab` only gets that far as a dictionary key: for a value, Parse sends a leading `+` to its
  error branch (parser.go:99-101), but ParseDictionary reads its keys with ParseByteString directly (parser.go:180).
- **`EncodeDictionary` writes one `e` after all the pairs** (encoder.go:48). It does not write one per pair.
- **`DecodeStream` does not return on any other first byte** (bencode.go:28-53). It peeks at the same byte again and again.
  The model returns `Stuck` and leaves the reader where it was.

## Model

| member | source | states |
|---|---|---|
| `ByteReader.Reader.constructor` | bencode.go:23-25 | a reader over an input starts with all of it unread |
| `ByteReader.Reader.Peek` | parser.go:61-64 | `Peek(1)` returns the next byte, or nothing at the end of the input, and consumes nothing |
| `ByteReader.Reader.ReadByte` | parser.go:23-26 | `ReadByte` returns and consumes the next byte; at the end it fails and consumes nothing |
| `ByteReader.Reader.ReadBytes` | parser.go:105-108 | `ReadBytes(delim)` returns everything up to and including the first `delim` and consumes it; with no `delim` left it fails and consumes the rest |
| `ByteReader.Reader.Read` | parser.go:142-145 | `Read(buf)` on a non-empty buffer fails exactly when the input is exhausted; otherwise it delivers at least one byte, the next `n` bytes of the input, in order, with `n` at most the buffer size and at most what is left |
| `Ascii.IndexOf` | parser.go:105 | `bytes.IndexByte`: an index found is within the input and holds the byte sought |
| `Ascii.HasPrefix` | parser.go:241-247 | `strings.HasPrefix`: `p` is the first `|p|` bytes of `s` (a definition, with no contract of its own) |
| `Ascii.IndexOfFirst` | parser.go:105 | the index found is the first occurrence of the byte, and "none" means the byte does not occur |
| `Ascii.IndexOfAfter` | parser.go:105 | in `prefix + [b] + suffix` with no `b` in `prefix`, the first `b` is at `|prefix|` |
| `Decimal.Atoi` | parser.go:111 | a number Atoi accepts comes from non-empty text, and a negative one from text that starts with `-` |
| `Decimal.ScanDigitsValue` | parser.go:111 | Atoi's digit scan succeeds exactly on runs of ASCII digits, with their decimal value |
| `Decimal.AtoiValue` | parser.go:111 | `strconv.Atoi`: an optional `+` or `-`, at least one digit, every other byte a digit, and the signed value in the range of a 64-bit `int`; otherwise it fails |
| `Decimal.AtoiOfCanonical` | parser.go:249 | Atoi reads a literal of the form `-?(0\|[1-9][0-9]*)` as its value, exactly when that value fits in an `int` |
| `Decimal.NatDigits` | encoder.go:16 | `%v` of a non-negative number is its canonical decimal text: digits only, no leading zero, with that value |
| `Decimal.Itoa` | encoder.go:10 | `strconv.Itoa` is canonical decimal text with that value, starting with `-` exactly for negative numbers |
| `Decimal.AtoiItoa` | encoder.go:10 | Atoi reads back what Itoa writes, for every `int` |
| `Decimal.AtoiNatDigits` | encoder.go:16 | Atoi reads back the decimal text of every count up to the largest `int` |
| `ByteOrder.LessIrreflexive` | parser.go:185 | no byte string sorts before itself |
| `ByteOrder.LessAsymmetric` | parser.go:185 | two byte strings never sort before each other |
| `ByteOrder.LessTransitive` | encoder.go:58 | the byte-wise order is transitive |
| `ByteOrder.LessTotal` | encoder.go:58 | any two byte strings are equal or one sorts before the other |
| `ByteOrder.NotLessTransitive` | encoder.go:58 | "does not sort after" is transitive |
| `ByteOrder.Compare` | parser.go:185 | `strings.Compare` is -1, 0 or +1 exactly as `a` sorts before, equals, or sorts after `b` |
| `ByteOrder.Insert` | encoder.go:58 | inserting into a sorted sequence keeps it sorted and adds exactly that element |
| `ByteOrder.SortStrings` | encoder.go:58 | `sort.Strings` returns a sorted permutation of its input |
| `ByteOrder.SortedDistinctIsStrict` | encoder.go:53-61 | a sorted sequence without repetitions is strictly ascending |
| `ByteOrder.Minimum` | encoder.go:58 | every non-empty key set has a key that sorts before all its others |
| `ByteOrder.SortedSet` | encoder.go:53-61 | the keys of a set, each exactly once, in strictly ascending order |
| `ByteOrder.StrictlySortedUnique` | encoder.go:53-61 | two strictly ascending sequences with the same elements are equal, so the sorted key order is unique |
| `Grammar.IntBodyEnd` | parser.go:220-237 | when the ParseInt loop ends at an `e`, it ends at or after where it started, within the input |
| `Grammar.IntBodyValue` | parser.go:239-253 | whatever the body, the leading-zero check, the `-0` check and Atoi together accept only a canonical literal `-?(0\|[1-9][0-9]*)`, with its value, or a body that starts with `+` |
| `Grammar.DecodeInt` | parser.go:212-256 | a parsed integer leaves a proper suffix of the input: at least one byte is consumed |
| `Grammar.DecodeByteString` | parser.go:104-126 | a parsed byte string is non-empty, its length is an `int`, and it leaves a proper suffix of the input |
| `Grammar.DecodeValue` | parser.go:60-102 | a parsed value leaves a proper suffix of the input |
| `Grammar.DecodeList` | parser.go:22-58 | a parsed list leaves a proper suffix of the input |
| `Grammar.DecodeListItems` | parser.go:34-55 | the list loop leaves a proper suffix of its input |
| `Grammar.DecodeDict` | parser.go:166-209 | a parsed dictionary leaves a proper suffix of the input |
| `Grammar.DecodeDictEntries` | parser.go:179-206 | the dictionary loop leaves a proper suffix of its input |
| `Grammar.ListItemsAppend` | parser.go:32-55 | the list loop only appends: from children already collected, it yields those followed by the children it decodes, in input order, exactly when the loop from no children succeeds, with the same rest |
| `Grammar.DictEntriesOverlay` | parser.go:177-206 | the dictionary loop only inserts: from entries already collected, it yields those overlaid by the entries it decodes, a later binding of a key replacing an earlier one, exactly when the loop from no entries succeeds, with the same rest |
| `Parser.Parse` | parser.go:60-102 | Parse returns what the grammar parses from the unread input and leaves the reader after it; it fails where the grammar fails |
| `Parser.ParseList` | parser.go:22-58 | ParseList computes the grammar's list, children in input order, and leaves the reader after its `e` |
| `Parser.ParseByteString` | parser.go:104-126 | ParseByteString computes the grammar's byte string; its final length check cannot fail |
| `Parser.ReadFullByteString` | parser.go:128-164 | for a positive `length`, succeeds exactly when `length` bytes are left, then returns exactly those bytes and consumes them; the bytes are the in-order concatenation of the chunks read, each between 1 and 512 bytes (its loop invariants: every buffer has `min(512, length - totalByteRead)` bytes and `totalByteRead` never exceeds `length`) |
| `Parser.ParseDictionary` | parser.go:166-209 | ParseDictionary computes the grammar's dictionary; the key-order guard never rejects |
| `Parser.ParseInt` | parser.go:212-256 | ParseInt computes the grammar's integer and leaves the reader after its `e` |
| `DecoderFacts.CanonicalIntBytes` | parser.go:230-234 | a canonical integer literal consists of the bytes the ParseInt loop accepts |
| `DecoderFacts.IntBodyEndScan` | parser.go:220-237 | the ParseInt loop reaches the first `e` exactly when every byte before it is a digit or `-` |
| `DecoderFacts.IntBodyValueCanonical` | parser.go:239-255 | on a body of digits and `-`, the leading-zero checks plus Atoi accept exactly the canonical literals within the range of `int`, with their value |
| `DecoderFacts.DecodeIntExactly` | parser.go:212-256 | `i` body `e` decodes exactly when the body matches `-?(0\|[1-9][0-9]*)` and fits in an `int`, to that value, leaving what follows the `e`; every other body is rejected |
| `DecoderFacts.DecodeIntUnterminated` | parser.go:221-224 | the end of the input before an `e` is an error |
| `DecoderFacts.DecodeByteStringExactly` | parser.go:104-126 | `<prefix>:<rest>` decodes exactly when Atoi accepts the prefix (leading zeros and a sign included) as a positive number `n` with at least `n` bytes following, to those `n` bytes |
| `DecoderFacts.ZeroLengthRejected` | parser.go:112-114 | `0:` is rejected |
| `DecoderFacts.DecodeValueDispatch` | parser.go:60-102 | any first byte other than `i`, a digit, `l` or `d` (or no byte) is an error; a parsed value is an integer, string, list or dictionary exactly as its first byte is `i`, a digit, `l` or `d` |
| `DecoderFacts.EmptyListRejected` | parser.go:34-51 | `le` is rejected |
| `DecoderFacts.EmptyDictRejected` | parser.go:179-202 | `de` is rejected |
| `DecoderFacts.DecodedIsDecodable` | parser.go:60-102 | every decoded value is `Decodable`: strings, lists and dictionaries in it are non-empty |
| `DecoderFacts.ItemsDecodable` | parser.go:34-55 | a decoded list has at least one element, each `Decodable` |
| `DecoderFacts.EntriesDecodable` | parser.go:179-206 | a decoded dictionary has at least one key, every key is non-empty and every value is `Decodable` |
| `Encoder.EncodeInt` | encoder.go:9-12 | `i`, then canonical decimal text with the value of `i` (`-` exactly when negative), then `e` |
| `Encoder.EncodeString` | encoder.go:14-19 | the length in bytes in canonical decimal, `:`, then the bytes themselves |
| `Encoder.Encode` | encoder.go:63-88 | Encode computes `Encoding`: integers and strings directly, lists and dictionaries through their loops, any other dynamic type an error |
| `Encoder.EncodeList` | encoder.go:90-104 | `l`, the children's encodings concatenated in list order, `e`; the first child error aborts with no output |
| `Encoder.GetAllKeysSorted` | encoder.go:53-61 | every key of the map exactly once, in strictly ascending byte order |
| `Encoder.SortKeys` | encoder.go:58 | sorting the keys of a map, collected once each, yields them strictly ascending, with nothing lost |
| `Encoder.EncodeDictionary` | encoder.go:29-51 | `d`, then for each key in ascending order its byte-string encoding followed by its value's, then one `e`; the "Key not found" branch is unreachable |
| `Encoder.SortedKeysAreSortedSet` | encoder.go:32 | the keys GetAllKeysSorted returns are exactly the ascending key order `Encoding` uses |
| `EncoderFacts.EncodingFailsIffOther` | encoder.go:63-88 | Encode fails exactly when some value nested anywhere in its input has a type it has no case for |
| `EncoderFacts.ItemsFailIffOther` | encoder.go:93-100 | a list body fails exactly when one of its children fails |
| `EncoderFacts.EntriesFailIffOther` | encoder.go:33-46 | a dictionary body fails exactly when one of its values fails |
| `EncoderFacts.DecodableHasNoOther` | parser.go:60-102 | a decodable value holds no type the encoder cannot handle |
| `EncoderFacts.DecodableEncodes` | encoder.go:63-88 | every decodable value encodes |
| `EncoderFacts.EncodingFirstByte` | encoder.go:63-104 | an encoding starts with `i`, a digit, `l` or `d` according to the value's type, and never with `e` |
| `EncoderFacts.ItemsEncodingFirstByte` | encoder.go:90-104 | a non-empty list body does not start with `e` |
| `EncoderFacts.EntriesEncodingFirstByte` | encoder.go:29-51 | a non-empty dictionary body starts with a digit |
| `RoundTrip.IntRoundTrip` | encoder.go:9-12 | ParseInt reads EncodeInt's output back as the same integer, whatever follows |
| `RoundTrip.StringRoundTrip` | encoder.go:14-19 | ParseByteString reads EncodeString's output back, for every non-empty string whose length is an `int` |
| `RoundTrip.ValueOfInt` | parser.go:67-74 | Parse reads back an encoded integer |
| `RoundTrip.ValueOfStr` | parser.go:75-82 | Parse reads back an encoded non-empty string |
| `RoundTrip.DecodeEncode` | encoder.go:63-88 | for every decodable value, Encode succeeds and Parse on its output followed by anything returns the value and stops right after it |
| `RoundTrip.ItemsRoundTrip` | encoder.go:93-102 | the list loop reads a list body back, children in order |
| `RoundTrip.AssignContents` | parser.go:195 | inserting keys in turn, later insertions overwriting earlier ones, gives the inserted keys their values and keeps every other entry |
| `RoundTrip.AssignAll` | parser.go:195 | inserting all the keys of a dictionary in turn rebuilds that dictionary |
| `RoundTrip.EntriesRoundTrip` | encoder.go:33-48 | the dictionary loop reads a dictionary body back, in whatever key order it is written |
| `RoundTrip.AnyKeyOrderAccepted` | parser.go:185-187 | a dictionary whose keys come in any order decodes to the map of those keys: the guard never rejects |
| `RoundTrip.DescendingKeysAccepted` | parser.go:176-187 | two keys in descending order are accepted |
| `RoundTrip.DuplicateKeyOverwrites` | parser.go:195 | a key that occurs twice keeps the value stored last |
| `RoundTrip.EncodeThenParse` | encoder.go:63-104 | Encode then Parse over a fresh reader of its output gives the value back and leaves nothing unread |
| `Draft.DecodeStream` | bencode.go:27-56 | empty input gives nothing back (Go's `nil, nil`); `i` is ParseInt's result; on a digit it fails where the grammar fails, and where the grammar parses a byte string it returns those bytes and leaves the grammar's rest exactly when the single read delivered the whole payload, and fails otherwise; any other byte never returns and consumes nothing |
| `Draft.ParseByteString` | bencode.go:58-81 | where the grammar fails, this fails; where it succeeds, this succeeds exactly when the single read delivered the whole payload, with the same bytes and rest |
| `Draft.PayloadOutcome` | bencode.go:64-78 | the facts of the payload read give ParseByteString's outcome |
| `Draft.ReadPayload` | bencode.go:70-78 | one Read into a buffer of `count` bytes: it fails when fewer bytes are left; otherwise it succeeds exactly when the read delivered all `count`, then with those bytes |
| `Scenarios.DoubledSignRejected` | bencode_test.go:25-34 | `i--0e` is rejected |
| `Scenarios.TwoByteString` | bencode_test.go:36-49 | `2:ab` decodes to `ab` |
| `Scenarios.LeadingZeroLengthNotReencoded` | parser.go:110-112 | decoding then encoding is not the identity: `02:ab` decodes to `ab`, whose encoding is `2:ab` |
| `Scenarios.StringAndIntList` | bencode_test.go:51-62 | `l2:abi5ee` decodes to the list of `ab` and 5 |
| `Scenarios.DraftEncodedInt` | bencode_test.go:10-23 | DecodeStream returns the integer EncodeInt wrote (for -500000000000000, `i-500000000000000e`) and consumes it all |
| `Scenarios.DraftDoubledSign` | bencode_test.go:25-34 | DecodeStream fails on `i--0e` |
| `Scenarios.DraftTwoByteString` | bencode_test.go:36-49 | DecodeStream yields `ab` from `2:ab` exactly when its read delivers both bytes, and fails otherwise |
| `Scenarios.DraftListNeverReturns` | bencode_test.go:51-62 | DecodeStream never returns on `l2:abi5ee` |
| `Scenarios.ParseStringAndIntList` | bencode_test.go:51-62 | Parse reads `l2:abi5ee` as the list of `ab` and 5 and consumes all of it |

## Left out

- I/O errors other than the end of the input are not modelled: the byte source cannot fail in any other way. `bufio`'s buffering and `NewBencodeReader`'s wrapping (bencode.go:23-25) are not modelled either; the reader is the sequence of unread bytes.
- Error values and messages (`ParserError`, `ParseError`, `EncoderError`, `Error()`) are collapsed into one failure outcome, `Err`. The model does not say which message an input gets.
- The decoders' methods state only that what is left after a failure is a suffix of the input. They do not state how far a failed production advanced.
- The `Reader` type that parser.go reads from is not part of this model. It is modelled with the `bufio.Reader` operations that bencode.go's `BencodeReader` wraps.
- The layout of Go's `interface{}` values, slices and capacity hints (`make(..., 0, len(d)*2)`) is left out. Only the bytes and values they hold are modelled.
- strconv's and sort's internals are left out. `Atoi` is specified by the strings it accepts and their values, `Itoa` by the canonical decimal text, and `sort.Strings` by insertion sort into ascending byte order. Any stable or unstable sort gives the same result, since the keys of a map are distinct.
- The iteration order of Go maps is left out. `GetAllKeysSorted` collects the keys in an order chosen by the model, so any order is covered.
- The draft's `ParseInt` (bencode.go:83-131) is the same procedure as parser.go:212-256 apart from its error type. `Draft.DecodeStream` calls `Parser.ParseInt` instead of a second copy.
- `Draft.DecodeStream`: the source's loop on an unknown first byte never returns. The model returns `Stuck` instead, with the reader unmoved.
- `Parser.ReadFullByteString`: the source reserves the declared length up front (`make([]byte, 0, length)`, parser.go:129). A length too large to allocate makes Go panic or run out of memory; the model instead fails with `Err` when fewer bytes are left. It also requires a positive `length`: ParseByteString, its only caller, has already rejected any count that is not positive.
- `Draft.ReadPayload`: the source allocates the whole buffer before its read (`make([]byte, byteCount)`, bencode.go:70). A count too large to allocate makes Go panic or run out of memory; the model instead fails with `Err`.
- `ByteReader.Reader.Read`: reads into an empty buffer are not modelled. There `bufio` returns without reading, passing on any error left over from an earlier read. Neither decoder ever passes an empty buffer.
- Go's `int` is taken to be 64 bits wide (`Decimal.INT_MIN`, `Decimal.INT_MAX`). On a 32-bit platform Atoi's range, and so the integers and lengths the decoders accept, would be narrower.
- Decoding and then encoding is the identity only on canonical input, and the model does not state that case. The encoder normalises what the decoder lets through:
  - leading zeros or a sign in a length prefix (`Scenarios.LeadingZeroLengthNotReencoded`);
  - dictionary keys that are out of order (`RoundTrip.AnyKeyOrderAccepted`);
  - dictionary keys that are repeated (`RoundTrip.DuplicateKeyOverwrites`).

  The other direction, encoding then decoding, is `RoundTrip.DecodeEncode`.
- `init()` (bencode.go:134-135) does nothing and is not modelled.
- `Str` values hold bytes: Go strings are byte sequences, and nothing in the codec depends on their UTF-8 decoding.
