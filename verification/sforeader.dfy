/**
  The library decoder of `sforeader/sforeader.go`: its header check, which
  compares against constants computed from byte arrays, and `ParseFile`,
  which stores exactly `paramLength` bytes of each value slot.
 */
module SfoReader {
  import opened LittleEndian
  import opened SfoFormat

  /** `hdrMagic` and `hdrVersion`: the signed little-endian reading of `\0PSF` and `1,1,0,0`. */
  const HdrMagic: i32 := Int32(Uint32(MagicBytes))
  const HdrVersion: i32 := Int32(Uint32(VersionBytes))

  lemma HeaderConstants()
    ensures HdrMagic == 1179865088
    ensures HdrVersion == 257
  {
  }

  /**
    `header.validate`: the magic and version constants, then the high-order
    bytes of the two table offsets and of the entry count, each compared
    with zero; the first failing check decides the error.
   */
  function Validate(h: Header): (r: Outcome)
    ensures r == HeaderViolation(h)
  {
    HighTwoBytesZero(h.keyTableOffset);
    HighTwoBytesZero(h.dataTableOffset);
    HighThreeBytesZero(h.indexTableEntries);
    if h.magic != HdrMagic then Fail(InvalidMagic)
    else if h.version != HdrVersion then Fail(InvalidVersion)
    else if PutUint32(h.keyTableOffset)[2..4] != [0, 0] then Fail(InvalidKeyOffset)
    else if PutUint32(h.dataTableOffset)[2..4] != [0, 0] then Fail(InvalidDataOffset)
    else if PutUint32(h.indexTableEntries)[1..4] != [0, 0, 0] then Fail(InvalidEntryCount)
    else Pass
  }

  /** The cases of the library's own table of header tests. */
  lemma ValidateExamples()
    ensures Validate(Header(1179865088, 257, Uint32([5, 0, 0, 0]), Uint32([15, 1, 0, 0]), Uint32([12, 0, 0, 0]))) == Pass
    ensures Validate(Header(1179865087, 257, 0, 0, 0)) == Fail(InvalidMagic)
    ensures Validate(Header(1179865088, 256, 0, 0, 0)) == Fail(InvalidVersion)
    ensures Validate(Header(1179865088, 257, Uint32([0, 0, 1, 0]), 0, 0)) == Fail(InvalidKeyOffset)
    ensures Validate(Header(1179865088, 257, 0, Uint32([0, 0, 1, 0]), 0)) == Fail(InvalidDataOffset)
    ensures Validate(Header(1179865088, 257, 0, 0, Uint32([0, 1, 0, 0]))) == Fail(InvalidEntryCount)
  {
  }

  /**
    `ParseFile` on the file's bytes: read and check the header, read the
    whole index table, then each record's key and exactly `paramLength`
    bytes of its value. Any failure returns no map.
   */
  function ParseFile(buf: seq<byte>): (r: Result<map<Key, Data>>)
    ensures HeaderVerdict(buf).Fail? ==> r == Err(HeaderVerdict(buf).error)
    ensures HeaderVerdict(buf) == Pass ==> r == DecodeTables(buf, DecodeHeader(buf[..HeaderSize]), DeclaredLength)
  {
    var hdr :- ReadHeader(buf);
    HeaderVerdictMatches(buf);
    :- Validate(hdr);
    DecodeTables(buf, hdr, DeclaredLength)
  }

  /**
    What `ParseFile` returns, stated on the file's bytes. A failing header
    check (or a file shorter than a header) gives that check's error; past
    the header, the parse succeeds exactly when every record of the index
    table lies in the file and its key and value can be read, and then
    yields the in-order fold of those entries; every later failure is a
    short read.
   */
  lemma ParseFileSpec(buf: seq<byte>)
    ensures HeaderVerdict(buf).Fail? ==> ParseFile(buf) == Err(HeaderVerdict(buf).error)
    ensures HeaderVerdict(buf) == Pass ==>
      var hdr := DecodeHeader(buf[..HeaderSize]);
      && hdr.indexTableEntries == buf[16]
      && (ParseFile(buf).Ok? <==> AllEntriesDecode(buf, hdr, DeclaredLength))
      && (ParseFile(buf).Err? ==> ParseFile(buf).error == Truncated)
      && (AllEntriesDecode(buf, hdr, DeclaredLength) ==>
            ParseFile(buf) == Ok(BuildMap(FileEntries(buf, hdr, DeclaredLength))))
  {
    if |buf| >= HeaderSize {
      HeaderVerdictMatches(buf);
      DecodeTablesSpec(buf, DecodeHeader(buf[..HeaderSize]), DeclaredLength);
    }
  }

  /** A valid header announcing no entries gives the empty map, whatever follows it. */
  lemma ParseFileNoEntries(buf: seq<byte>)
    requires HeaderVerdict(buf) == Pass && buf[16] == 0
    ensures ParseFile(buf) == Ok(map[])
  {
    ParseFileSpec(buf);
  }

  /** A valid header announcing more index records than the file holds is a short read. */
  lemma ParseFileShortIndex(buf: seq<byte>)
    requires HeaderVerdict(buf) == Pass
    requires buf[16] > 0 && |buf| < RecordOffset(buf[16])
    ensures ParseFile(buf) == Err(Truncated)
  {
    ParseFileSpec(buf);
  }

  /**
    A record whose key offset has no zero byte at or after it fails the
    parse with a short read: the key scan runs off the end of the file.
   */
  lemma ParseFileUnterminatedKey(buf: seq<byte>, i: nat)
    requires HeaderVerdict(buf) == Pass
    requires i < buf[16] && RecordOffset(buf[16]) <= |buf|
    requires forall p :: KeyStart(DecodeHeader(buf[..HeaderSize]), RecordAt(buf, i)) <= p < |buf| ==> buf[p] != 0
    ensures ParseFile(buf) == Err(Truncated)
  {
    HeaderVerdictMatches(buf);
    var hdr := DecodeHeader(buf[..HeaderSize]);
    DecodeTablesSpec(buf, hdr, DeclaredLength);
    AllEntriesDecodeIff(buf, hdr, DeclaredLength);
    assert !EntryReadable(buf, hdr, RecordAt(buf, i), DeclaredLength);
  }

  /**
    A record whose declared value runs past the end of the file fails the
    parse with a short read, even when its key is readable.
   */
  lemma ParseFileShortValue(buf: seq<byte>, i: nat)
    requires HeaderVerdict(buf) == Pass
    requires i < buf[16] && RecordOffset(buf[16]) <= |buf|
    requires RecordAt(buf, i).paramLength > 0
    requires SlotStart(DecodeHeader(buf[..HeaderSize]), RecordAt(buf, i)) + RecordAt(buf, i).paramLength > |buf|
    ensures ParseFile(buf) == Err(Truncated)
  {
    HeaderVerdictMatches(buf);
    var hdr := DecodeHeader(buf[..HeaderSize]);
    DecodeTablesSpec(buf, hdr, DeclaredLength);
    AllEntriesDecodeIff(buf, hdr, DeclaredLength);
    assert !EntryReadable(buf, hdr, RecordAt(buf, i), DeclaredLength);
  }

  /**
    The converse of the short-read cases: a valid header whose index table
    lies in the file, with every record's key terminated and its `paramLength` bytes of its slot
    inside the file, parses successfully.
   */
  lemma ParseFileSucceeds(buf: seq<byte>)
    requires HeaderVerdict(buf) == Pass
    requires buf[16] == 0 || RecordOffset(buf[16]) <= |buf|
    requires forall i :: 0 <= i < buf[16] ==>
      EntryReadable(buf, DecodeHeader(buf[..HeaderSize]), RecordAt(buf, i), DeclaredLength)
    ensures ParseFile(buf).Ok?
  {
    ParseFileSpec(buf);
    AllEntriesDecodeIff(buf, DecodeHeader(buf[..HeaderSize]), DeclaredLength);
  }

  /**
    The decoded map has at most one key per index record, and every key is
    the zero-free text at some record's key offset.
   */
  lemma ParseFileKeys(buf: seq<byte>)
    requires ParseFile(buf).Ok?
    ensures HeaderVerdict(buf) == Pass
    ensures RecordOffset(buf[16]) <= |buf|
    ensures |ParseFile(buf).value| <= buf[16]
    ensures forall k :: k in ParseFile(buf).value ==>
      0 !in k
      && exists i :: 0 <= i < buf[16]
           && TerminatedKeyAt(buf, KeyStart(DecodeHeader(buf[..HeaderSize]), RecordAt(buf, i)), k)
  {
    ParseFileSpec(buf);
    var hdr := DecodeHeader(buf[..HeaderSize]);
    forall k | k in ParseFile(buf).value
      ensures 0 !in k
      ensures exists i :: 0 <= i < buf[16] && TerminatedKeyAt(buf, KeyStart(hdr, RecordAt(buf, i)), k)
    {
      FoldedKeysFromRecords(buf, hdr, DeclaredLength, k);
    }
  }

  /** A successful parse is the in-order fold of the file's entries. */
  lemma ParseFileFold(buf: seq<byte>)
    requires ParseFile(buf).Ok?
    ensures HeaderVerdict(buf) == Pass
    ensures DecodeHeader(buf[..HeaderSize]).indexTableEntries == buf[16]
    ensures AllEntriesDecode(buf, DecodeHeader(buf[..HeaderSize]), DeclaredLength)
    ensures ParseFile(buf).value == BuildMap(FileEntries(buf, DecodeHeader(buf[..HeaderSize]), DeclaredLength))
  {
    ParseFileSpec(buf);
  }

  /**
    When record `i` is the last one whose key is `k`, the map holds under
    `k` exactly `paramLength` bytes of record `i`'s value slot, untrimmed,
    and record `i`'s format tag.
   */
  lemma ParseFileLastRecordWins(buf: seq<byte>, i: nat, k: Key)
    requires ParseFile(buf).Ok?
    requires i < buf[16]
    requires RecordOffset(i + 1) <= |buf|
    requires TerminatedKeyAt(buf, KeyStart(DecodeHeader(buf[..HeaderSize]), RecordAt(buf, i)), k)
    requires forall j :: i < j < buf[16] && RecordOffset(j + 1) <= |buf| ==>
      !TerminatedKeyAt(buf, KeyStart(DecodeHeader(buf[..HeaderSize]), RecordAt(buf, j)), k)
    ensures k in ParseFile(buf).value
    ensures ParseFile(buf).value[k].format == RecordAt(buf, i).paramFormat
    ensures RecordAt(buf, i).paramLength == 0
         || SlotStart(DecodeHeader(buf[..HeaderSize]), RecordAt(buf, i)) + RecordAt(buf, i).paramLength <= |buf|
    ensures ParseFile(buf).value[k].data
         == Slot(buf, SlotStart(DecodeHeader(buf[..HeaderSize]), RecordAt(buf, i)), RecordAt(buf, i).paramLength)
  {
    ParseFileFold(buf);
    var hdr := DecodeHeader(buf[..HeaderSize]);
    FoldedLastRecordWins(buf, hdr, DeclaredLength, i, k);
    FileEntryKeys(buf, hdr, DeclaredLength, i);
    FileEntryValueDeclared(buf, hdr, i);
  }
}
