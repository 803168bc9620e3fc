# sforeader in Dafny

A model of the SFO/PSF parameter-file decoder of `sforeader`. An SFO file
is a 20-byte header followed by a table of 16-byte index records. Each record
points at a zero-terminated key in the key table and a value slot in the data
table. The decoder turns the file into a map from key to value bytes plus
the record's format tag.

The repository holds two copies of the decoder, and both are modelled:

- the library `ParseFile` of `sforeader/sforeader.go`, which stores exactly
  `paramLength` bytes of each value;
- `parseFile` of the command-line tool `main.go`, which reads the whole
  `paramMaxLength`-byte slot and strips zero bytes from both of its ends with
  `bytes.Trim(value, "\x00")`.

The file is modelled as an immutable byte sequence rather than an open
`os.File`. A seek never fails. A read of `n` bytes at `pos` succeeds exactly
when `n == 0` or `pos + n` is at most the file's length; every failed read is
the single error `Truncated`.

Files:

- `little_endian.dfy` (`LittleEndian`): `binary.LittleEndian` for 16- and
  32-bit values, `PutUint32`, and the two's-complement reading of a `uint32`
  as an `int32`.
- `byte_slices.dfy` (`ByteSlices`): `bytes.Trim(s, "\x00")`. It is given a
  reference description (`IsZeroTrimOf`), and the lemmas prove that
  description is met by exactly one sequence.
- `sfo_format.dfy` (`SfoFormat`): the shared pieces:
  - the record types and the error tags;
  - header and index-table readers with their encoders and round trips;
  - the byte-at-a-time key scan and the two value policies;
  - the in-order fold into a map, where the last record with a key wins.
- `sforeader.dfy` (`SfoReader`): the library's header check and
  `ParseFile`.
- `cli.dfy` (`Cli`): the tool's header check and `parseFile`.
- `worked_example.dfy` (`WorkedExample`): a 49-byte one-entry file with key
  `CATEGORY` and slot `mg\0\0`, decoded by both decoders.

`bytes.Trim` strips zero bytes from both ends of the slot, not only
trailing ones, so `ByteSlices.TrimZeros` strips both ends. The library reads
exactly `paramLength` bytes and the tool reads the whole `paramMaxLength`
slot; both policies are modelled.

## Model

| member | source | states |
|---|---|---|
| LittleEndian.PutUint32 | sforeader/sforeader.go:64-65 | the four bytes written are the ones whose little-endian reading is the value |
| LittleEndian.PutUint32OfUint32 | sforeader/sforeader.go:64-65 | writing back the value read from four bytes gives those bytes again, so reading and writing are mutually inverse |
| LittleEndian.Int32 | sforeader/sforeader.go:28-29 | the `int32` conversion of a `uint32` is non-negative exactly when the value is below 2^31 and agrees with it modulo 2^32 |
| LittleEndian.PutUint16OfUint16 | sforeader/sforeader.go:42-43 | writing back the value read from the two bytes of a 16-bit record field gives those bytes again |
| LittleEndian.Uint32Of | sforeader/sforeader.go:32-38 | the on-disk bit pattern of a signed header field converts back to that field |
| LittleEndian.HighTwoBytesZero | sforeader/sforeader.go:64-71 | bytes 2 and 3 of the little-endian encoding are both zero exactly when the value is below 65536 |
| LittleEndian.HighThreeBytesZero | sforeader/sforeader.go:73-75 | bytes 1 to 3 of the little-endian encoding are all zero exactly when the value is below 256 |
| ByteSlices.TrimRightZeros | main.go:122 | the right-hand pass of `bytes.Trim` leaves a prefix ending in a non-zero byte; every byte it drops is zero |
| ByteSlices.TrimLeftZeros | main.go:122 | the left-hand pass leaves a suffix starting with a non-zero byte; every byte it drops is zero |
| ByteSlices.TrimZeros | main.go:122 | the trim is a contiguous sub-slice no longer than the input, with only zero bytes around it and non-zero bytes at its ends; it is empty exactly when every byte is zero |
| ByteSlices.ZeroTrimEmpty | main.go:122 | a slot of zero bytes only trims to the empty value, and only such a slot does |
| ByteSlices.ZeroTrimUnique | main.go:122 | any sub-slice meeting the trim description is the result of the trim, so the description determines it |
| ByteSlices.TrimZerosIdempotent | main.go:122 | trimming a trimmed value changes nothing |
| ByteSlices.TrimZerosPadded | main.go:120-122 | a payload with non-zero ends survives any zero padding on either side unchanged, interior zero bytes included |
| SfoFormat.ReadAt | sforeader/sforeader.go:135-139 | a read of n bytes succeeds exactly when n is zero or the bytes lie inside the file, gives those bytes, and otherwise fails as a short read |
| SfoFormat.ReadHeader | sforeader/sforeader.go:88-92 | the header read succeeds exactly when the file holds at least 20 bytes, and otherwise fails as a short read |
| SfoFormat.ReadHeaderRoundTrip | sforeader/sforeader.go:32-38 | a header written out and read from the front of any file is the same header |
| SfoFormat.DecodeHeader | sforeader/sforeader.go:88-89 | no contract of its own; `SfoFormat.ReadHeaderRoundTrip` and `SfoFormat.EncodeHeaderOfDecode` state that it inverts the 20-byte header encoding |
| SfoFormat.EncodeHeaderOfDecode | sforeader/sforeader.go:32-38 | the 20 header bytes are determined by the decoded header: re-encoding gives them back |
| SfoFormat.SignedFieldIs | sforeader/sforeader.go:58-63 | a signed field equals a non-negative constant exactly when its four bytes are that constant's bytes |
| SfoFormat.HeaderVerdictMatches | sforeader/sforeader.go:57-77 | the five numeric checks on the decoded header give the same first failure as the checks stated on the raw bytes; a passing header's entry count is byte 16 alone |
| SfoFormat.IndexRecordRoundTrip | sforeader/sforeader.go:41-47 | an index record written out as 16 bytes decodes to the same record |
| SfoFormat.DecodeIndexRecord | sforeader/sforeader.go:100-101 | no contract of its own; `SfoFormat.IndexRecordRoundTrip` and `SfoFormat.EncodeIndexRecordOfDecode` state that it inverts the 16-byte record encoding |
| SfoFormat.EncodeIndexRecordOfDecode | sforeader/sforeader.go:41-47 | the 16 bytes of an index record are determined by the decoded record: re-encoding gives them back |
| SfoFormat.ReadIndexTable | sforeader/sforeader.go:98-106 | the table of `count` records is read exactly when all of them lie inside the file; record i comes from bytes 20+16i onwards; otherwise the read fails as a short read |
| SfoFormat.EncodeIndexTableAt | sforeader/sforeader.go:98-106 | in an encoded table, record i occupies bytes 16i to 16(i+1) |
| SfoFormat.ReadIndexTableRoundTrip | sforeader/sforeader.go:98-106 | records written after any header and read back come out as the same records in the same order, whatever follows them |
| SfoFormat.ScanKey | sforeader/sforeader.go:115-128 | the key scan succeeds exactly when a zero byte lies at or after the key offset; the key is the bytes before the first such zero and contains no zero; a missing terminator is a short read |
| SfoFormat.TerminatedKeyUnique | sforeader/sforeader.go:115-128 | at most one zero-terminated key starts at a given offset |
| SfoFormat.ReadValue | sforeader/sforeader.go:130-139 | the library policy succeeds exactly when `paramLength` bytes fit at the slot and gives those bytes; the tool policy succeeds exactly when `paramMaxLength` bytes fit and gives their zero-trim, no longer than the slot |
| SfoFormat.DecodeEntry | sforeader/sforeader.go:110-139 | decoding one record succeeds exactly when a zero byte lies at or after its key offset and the slot bytes its policy reads lie inside the file; the key is then the zero-terminated text at the key offset and the format tag is the record's; a failure is a short read |
| SfoFormat.ExtractEntries | sforeader/sforeader.go:109-142 | the records decode together exactly when each decodes; the entries come out in record order and one per record; the first failure is a short read |
| SfoFormat.BuildMap | sforeader/sforeader.go:108-141 | the map's keys are exactly the entries' keys, it has at most one key per entry, and it holds under each key the entry of the last record with that key |
| SfoFormat.DecodeTables | sforeader/sforeader.go:98-144 | decoding the tables after a header fails only as a short read; on success the announced index table lies in the file and the map has at most one key per record; `SfoFormat.DecodeTablesSpec` states the result in full |
| SfoFormat.DecodeTablesSpec | sforeader/sforeader.go:98-144 | after the header, decoding succeeds exactly when every announced record lies in the file and decodes; the result is then the fold of the records' entries read straight from the bytes; every failure is a short read |
| SfoFormat.AllEntriesDecodeIff | sforeader/sforeader.go:98-139 | every record decodes exactly when the index table lies in the file and, for each record, a zero byte follows its key offset and its slot bytes lie in the file |
| SfoFormat.FileEntryKeys | sforeader/sforeader.go:110-128 | entry i's key is the zero-terminated text at record i's key offset, and its format tag is record i's |
| SfoFormat.FileEntryValueDeclared | sforeader/sforeader.go:130-139 | under the library policy, entry i's value is exactly `paramLength` bytes of its slot, which lie inside the file |
| SfoFormat.FileEntryValueTrimmed | main.go:110-122 | under the tool policy, entry i's value is the zero-trim of its `paramMaxLength`-byte slot, which lies inside the file, and is no longer than the slot |
| SfoFormat.FoldedKeysFromRecords | sforeader/sforeader.go:108-141 | every key of the decoded map is the text at some record's key offset |
| SfoFormat.FoldedLastRecordWins | sforeader/sforeader.go:141 | when record i is the last one with key k, the map holds record i's entry under k |
| SfoFormat.DecodedKeysHaveNoZero | sforeader/sforeader.go:117-128 | no decoded key contains a zero byte |
| SfoReader.HeaderConstants | sforeader/sforeader.go:28-29 | `hdrMagic` is 1179865088 and `hdrVersion` is 257 |
| SfoReader.Validate | sforeader/sforeader.go:57-77 | the check fails on the first of these, in order: magic not 1179865088, version not 257, key-table offset at least 65536, data-table offset at least 65536, entry count at least 256; it passes exactly when none applies |
| SfoReader.ValidateExamples | sforeader/sforeader_test.go:14-55 | the library's six header test cases give the expected pass or error |
| SfoReader.ParseFileSpec | sforeader/sforeader.go:81-145 | a header-check failure, or a file shorter than a header, gives that error; otherwise the parse succeeds exactly when every record, key and value can be read, the result is the fold of the file's entries, and every later error is a short read |
| SfoReader.ParseFile | sforeader/sforeader.go:81-145 | a failing header check ends the parse with that check's error; once the header passes, the parse is the decoding of the tables that header locates, keeping exactly `paramLength` bytes per value; `SfoReader.ParseFileSpec` states the result in terms of the bytes |
| SfoReader.ParseFileNoEntries | sforeader/sforeader.go:98-144 | a valid header announcing zero entries gives the empty map whatever follows it |
| SfoReader.ParseFileShortIndex | sforeader/sforeader.go:99-104 | a valid header announcing more records than the file holds gives a short read |
| SfoReader.ParseFileUnterminatedKey | sforeader/sforeader.go:117-122 | a record whose key has no zero byte before the end of the file fails the whole parse as a short read |
| SfoReader.ParseFileShortValue | sforeader/sforeader.go:135-139 | a record whose declared value runs past the end of the file fails the whole parse as a short read |
| SfoReader.ParseFileSucceeds | sforeader/sforeader.go:98-144 | a valid header whose index table fits, with every key terminated and every `paramLength` value inside the file, parses successfully |
| SfoReader.ParseFileKeys | sforeader/sforeader.go:108-141 | a successful parse has a valid header and a complete index table, at most one key per record, and keys that are zero-free texts at record key offsets |
| SfoReader.ParseFileFold | sforeader/sforeader.go:81-145 | a successful parse had a passing header and decodable records, and its map is the in-order fold of the entries read from the file |
| SfoReader.ParseFileLastRecordWins | sforeader/sforeader.go:135-141 | under a key, the map holds the last record with that key: its format tag and exactly `paramLength` bytes of its slot, untrimmed, which lie inside the file |
| Cli.Validate | main.go:25-46 | the tool's check, with literal constants, fails on the first of the same five conditions in the same order and passes exactly when none applies |
| Cli.ValidateAgrees | main.go:25-46 | the tool's header check and the library's agree on every header |
| Cli.ParseFileSpec | main.go:61-127 | a header-check failure, or a file shorter than a header, gives that error; otherwise the parse succeeds exactly when every record, key and whole slot can be read, the result is the fold of the file's entries, and every later error is a short read |
| Cli.ParseFile | main.go:61-127 | a failing header check ends the parse with that check's error; once the header passes, the parse is the decoding of the tables that header locates, keeping the zero-trim of each `paramMaxLength` slot; `Cli.ParseFileSpec` states the result in terms of the bytes |
| Cli.ParseFileNoEntries | main.go:78-126 | a valid header announcing zero entries gives the empty map whatever follows it |
| Cli.ParseFileShortIndex | main.go:79-84 | a valid header announcing more records than the file holds gives a short read |
| Cli.ParseFileShortSlot | main.go:115-119 | a record whose whole `paramMaxLength` slot runs past the end of the file fails the whole parse, even when `paramLength` bytes would fit |
| Cli.ParseFileUnterminatedKey | main.go:97-102 | a record whose key has no zero byte before the end of the file fails the whole parse as a short read |
| Cli.ParseFileSucceeds | main.go:78-126 | a valid header whose index table fits, with every key terminated and every whole `paramMaxLength` slot inside the file, parses successfully |
| Cli.ParseFileKeys | main.go:88-123 | a successful parse has a valid header and a complete index table, at most one key per record, and keys that are zero-free texts at record key offsets |
| Cli.ParseFileFold | main.go:61-127 | a successful parse had a passing header and decodable records, and its map is the in-order fold of the entries read from the file |
| Cli.ParseFileLastRecordWins | main.go:115-123 | under a key, the map holds the last record with that key: its format tag and its `paramMaxLength`-byte slot, which lies inside the file, with zero bytes removed from both ends: a contiguous part of the slot no longer than it |
| WorkedExample.CategoryExample | main.go:61-127 | the one-entry file with key `CATEGORY` and slot `mg\0\0` decodes to `CATEGORY` holding `mg` |
| WorkedExample.CategoryExampleLibrary | sforeader/sforeader.go:81-145 | the same file decoded by the library gives `CATEGORY` holding the three declared bytes `mg\0` |

## Left out

- Opening and closing the file (`os.Open`, `f.Close`): the model starts from the file's contents as a byte sequence, so a file that cannot be opened is not modelled.
- `main` in `main.go`: the command-line flags, the JSON dump and `panic` are presentation around `parseFile`.
- Go's error values: each is modelled as a tag of `SfoFormat.Error`, not as its message string. `io.EOF` and `io.ErrUnexpectedEOF` are both `Truncated`.
- Key strings: Go appends `string(c)` for each byte, which encodes the byte as a UTF-8 code point, so a byte of 0x80 or above takes two bytes of the Go string. The model keeps the raw key bytes. The conversion is injective, so the map has the same keys, collisions and values either way.
- nil and empty slices are not told apart. A zero-length value and a slot of zero bytes only both give the empty sequence.
- Allocation failure: `make([]byte, n)` with a huge length from a record can exhaust memory in Go. The model treats every length as allocatable and lets the read fail instead.
- `sforeader/sforeader.go:141` builds `Data` with fields `Len` and `MaxLen` that the `Data` type does not declare. `SfoFormat.Data` holds only the value bytes and the format tag, which are the declared fields.
- Format tags are copied through and never interpreted, as in both decoders. Rendering integer-tagged values belongs to `main`.
