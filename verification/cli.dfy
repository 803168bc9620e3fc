/**
  The decoder inside the command-line tool, `main.go`: its own copy of the
  header check, written with literal constants, and `parseFile`, which reads
  each value's full `paramMaxLength`-byte slot and strips zero bytes from
  both of its ends with `bytes.Trim`.
 */
module Cli {
  import opened LittleEndian
  import opened SfoFormat
  import ByteSlices
  import SfoReader

  /**
    `header.validate` of the tool: the same five checks in the same order
    as the library's, against the literals 1179865088 and 257.
   */
  function Validate(h: Header): (r: Outcome)
    ensures r == HeaderViolation(h)
  {
    HighTwoBytesZero(h.keyTableOffset);
    HighTwoBytesZero(h.dataTableOffset);
    HighThreeBytesZero(h.indexTableEntries);
    if h.magic != 1179865088 then Fail(InvalidMagic)
    else if h.version != 257 then Fail(InvalidVersion)
    else if PutUint32(h.keyTableOffset)[2..4] != [0, 0] then Fail(InvalidKeyOffset)
    else if PutUint32(h.dataTableOffset)[2..4] != [0, 0] then Fail(InvalidDataOffset)
    else if PutUint32(h.indexTableEntries)[1..4] != [0, 0, 0] then Fail(InvalidEntryCount)
    else Pass
  }

  /** The tool's header check and the library's agree on every header. */
  lemma ValidateAgrees(h: Header)
    ensures Validate(h) == SfoReader.Validate(h)
  {
  }

  /**
    `parseFile` on the file's bytes: read and check the header, read the
    whole index table, then each record's key and its whole value slot,
    trimmed of zero bytes at both ends. Any failure returns no map.
   */
  function ParseFile(buf: seq<byte>): (r: Result<map<Key, Data>>)
    ensures HeaderVerdict(buf).Fail? ==> r == Err(HeaderVerdict(buf).error)
    ensures HeaderVerdict(buf) == Pass ==> r == DecodeTables(buf, DecodeHeader(buf[..HeaderSize]), TrimmedMaxLength)
  {
    var hdr :- ReadHeader(buf);
    HeaderVerdictMatches(buf);
    :- Validate(hdr);
    DecodeTables(buf, hdr, TrimmedMaxLength)
  }

  /**
    What `parseFile` returns, stated on the file's bytes: the header check's
    error when it fails; otherwise success exactly when every record of the
    index table lies in the file and its key and whole slot can be read,
    yielding the in-order fold of those entries; every later failure is a
    short read.
   */
  lemma ParseFileSpec(buf: seq<byte>)
    ensures HeaderVerdict(buf).Fail? ==> ParseFile(buf) == Err(HeaderVerdict(buf).error)
    ensures HeaderVerdict(buf) == Pass ==>
      var hdr := DecodeHeader(buf[..HeaderSize]);
      && hdr.indexTableEntries == buf[16]
      && (ParseFile(buf).Ok? <==> AllEntriesDecode(buf, hdr, TrimmedMaxLength))
      && (ParseFile(buf).Err? ==> ParseFile(buf).error == Truncated)
      && (AllEntriesDecode(buf, hdr, TrimmedMaxLength) ==>
            ParseFile(buf) == Ok(BuildMap(FileEntries(buf, hdr, TrimmedMaxLength))))
  {
    if |buf| >= HeaderSize {
      HeaderVerdictMatches(buf);
      DecodeTablesSpec(buf, DecodeHeader(buf[..HeaderSize]), TrimmedMaxLength);
    }
  }

  /** A valid header announcing no entries gives the empty map, whatever follows it. */
  lemma ParseFileNoEntries(buf: seq<byte>)
    requires HeaderVerdict(buf) == Pass && buf[16] == 0
    ensures ParseFile(buf) == Ok(map[])
  {
    ParseFileSpec(buf);
  }

  /** A valid header announcing more index records than the file holds is a short read. */
  lemma ParseFileShortIndex(buf: seq<byte>)
    requires HeaderVerdict(buf) == Pass
    requires buf[16] > 0 && |buf| < RecordOffset(buf[16])
    ensures ParseFile(buf) == Err(Truncated)
  {
    ParseFileSpec(buf);
  }

  /**
    A record whose whole value slot runs past the end of the file fails the
    parse with a short read, even when its key is readable.
   */
  lemma ParseFileShortSlot(buf: seq<byte>, i: nat)
    requires HeaderVerdict(buf) == Pass
    requires i < buf[16] && RecordOffset(buf[16]) <= |buf|
    requires RecordAt(buf, i).paramMaxLength > 0
    requires SlotStart(DecodeHeader(buf[..HeaderSize]), RecordAt(buf, i)) + RecordAt(buf, i).paramMaxLength > |buf|
    ensures ParseFile(buf) == Err(Truncated)
  {
    HeaderVerdictMatches(buf);
    var hdr := DecodeHeader(buf[..HeaderSize]);
    DecodeTablesSpec(buf, hdr, TrimmedMaxLength);
    AllEntriesDecodeIff(buf, hdr, TrimmedMaxLength);
    assert !EntryReadable(buf, hdr, RecordAt(buf, i), TrimmedMaxLength);
  }

  /**
    A record whose key offset has no zero byte at or after it fails the
    parse with a short read.
   */
  lemma ParseFileUnterminatedKey(buf: seq<byte>, i: nat)
    requires HeaderVerdict(buf) == Pass
    requires i < buf[16] && RecordOffset(buf[16]) <= |buf|
    requires forall p :: KeyStart(DecodeHeader(buf[..HeaderSize]), RecordAt(buf, i)) <= p < |buf| ==> buf[p] != 0
    ensures ParseFile(buf) == Err(Truncated)
  {
    HeaderVerdictMatches(buf);
    var hdr := DecodeHeader(buf[..HeaderSize]);
    DecodeTablesSpec(buf, hdr, TrimmedMaxLength);
    AllEntriesDecodeIff(buf, hdr, TrimmedMaxLength);
    assert !EntryReadable(buf, hdr, RecordAt(buf, i), TrimmedMaxLength);
  }

  /**
    The converse of the short-read cases: a valid header whose index table
    lies in the file, with every record's key terminated and its whole `paramMaxLength` slot
    inside the file, parses successfully.
   */
  lemma ParseFileSucceeds(buf: seq<byte>)
    requires HeaderVerdict(buf) == Pass
    requires buf[16] == 0 || RecordOffset(buf[16]) <= |buf|
    requires forall i :: 0 <= i < buf[16] ==>
      EntryReadable(buf, DecodeHeader(buf[..HeaderSize]), RecordAt(buf, i), TrimmedMaxLength)
    ensures ParseFile(buf).Ok?
  {
    ParseFileSpec(buf);
    AllEntriesDecodeIff(buf, DecodeHeader(buf[..HeaderSize]), TrimmedMaxLength);
  }

  /**
    The decoded map has at most one key per index record, and every key is
    the zero-free text at some record's key offset.
   */
  lemma ParseFileKeys(buf: seq<byte>)
    requires ParseFile(buf).Ok?
    ensures HeaderVerdict(buf) == Pass
    ensures RecordOffset(buf[16]) <= |buf|
    ensures |ParseFile(buf).value| <= buf[16]
    ensures forall k :: k in ParseFile(buf).value ==>
      0 !in k
      && exists i :: 0 <= i < buf[16]
           && TerminatedKeyAt(buf, KeyStart(DecodeHeader(buf[..HeaderSize]), RecordAt(buf, i)), k)
  {
    ParseFileSpec(buf);
    var hdr := DecodeHeader(buf[..HeaderSize]);
    forall k | k in ParseFile(buf).value
      ensures 0 !in k
      ensures exists i :: 0 <= i < buf[16] && TerminatedKeyAt(buf, KeyStart(hdr, RecordAt(buf, i)), k)
    {
      FoldedKeysFromRecords(buf, hdr, TrimmedMaxLength, k);
    }
  }

  /** A successful parse is the in-order fold of the file's entries. */
  lemma ParseFileFold(buf: seq<byte>)
    requires ParseFile(buf).Ok?
    ensures HeaderVerdict(buf) == Pass
    ensures DecodeHeader(buf[..HeaderSize]).indexTableEntries == buf[16]
    ensures AllEntriesDecode(buf, DecodeHeader(buf[..HeaderSize]), TrimmedMaxLength)
    ensures ParseFile(buf).value == BuildMap(FileEntries(buf, DecodeHeader(buf[..HeaderSize]), TrimmedMaxLength))
  {
    ParseFileSpec(buf);
  }

  /**
    When record `i` is the last one whose key is `k`, the map holds under
    `k` record `i`'s format tag and its `paramMaxLength`-byte slot with the
    zero bytes at both ends removed: a contiguous part of the slot, no
    longer than it, starting and ending with a non-zero byte when not empty.
   */
  lemma ParseFileLastRecordWins(buf: seq<byte>, i: nat, k: Key)
    requires ParseFile(buf).Ok?
    requires i < buf[16]
    requires RecordOffset(i + 1) <= |buf|
    requires TerminatedKeyAt(buf, KeyStart(DecodeHeader(buf[..HeaderSize]), RecordAt(buf, i)), k)
    requires forall j :: i < j < buf[16] && RecordOffset(j + 1) <= |buf| ==>
      !TerminatedKeyAt(buf, KeyStart(DecodeHeader(buf[..HeaderSize]), RecordAt(buf, j)), k)
    ensures k in ParseFile(buf).value
    ensures ParseFile(buf).value[k].format == RecordAt(buf, i).paramFormat
    ensures |ParseFile(buf).value[k].data| <= RecordAt(buf, i).paramMaxLength
    ensures RecordAt(buf, i).paramMaxLength == 0
         || SlotStart(DecodeHeader(buf[..HeaderSize]), RecordAt(buf, i)) + RecordAt(buf, i).paramMaxLength <= |buf|
    ensures ByteSlices.IsZeroTrimOf(
      ParseFile(buf).value[k].data,
      Slot(buf, SlotStart(DecodeHeader(buf[..HeaderSize]), RecordAt(buf, i)), RecordAt(buf, i).paramMaxLength))
  {
    ParseFileFold(buf);
    var hdr := DecodeHeader(buf[..HeaderSize]);
    var es := FileEntries(buf, hdr, TrimmedMaxLength);
    assert ParseFile(buf).value == BuildMap(es);
    FoldedLastRecordWins(buf, hdr, TrimmedMaxLength, i, k);
    assert ParseFile(buf).value[k] == es[i].1;
    FileEntryKeys(buf, hdr, TrimmedMaxLength, i);
    FileEntryValueTrimmed(buf, hdr, i);
  }
}
